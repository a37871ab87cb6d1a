/**
 * The explanation texts of why-linux/src/explain.rs: a fixed text for a few
 * process names, matched exactly (no case folding, no prefix match), and a
 * default text for every other name.
 */
module Explain {
  // Each text is an opening sentence followed by bullet lines, one per likely cause.

  const FIREFOX_TEXT: string :=
    "Firefox CPU usage is often caused by:\n"
    + "\U{2022} heavy or broken tabs\n"
    + "\U{2022} video playback or WebGL\n"
    + "\U{2022} misbehaving extensions\n"
    + "\U{2022} background service workers"

  const CHROMIUM_TEXT: string :=
    "Chromium-based browsers may use high CPU due to:\n"
    + "\U{2022} many open tabs\n"
    + "\U{2022} background extensions\n"
    + "\U{2022} GPU acceleration issues"

  const KWORKER_TEXT: string :=
    "kworker is a kernel thread.\n"
    + "Sustained CPU usage here often indicates:\n"
    + "\U{2022} driver bugs\n"
    + "\U{2022} power management problems\n"
    + "\U{2022} hardware issues"

  const DEFAULT_TEXT: string :=
    "Sustained high CPU usage usually means a process is busy or stuck.\n"
    + "If this happens while idle, it may indicate a bug."

  /** The names that have a text of their own. */
  predicate IsKnownName(name: string) {
    name == "firefox" || name == "chromium" || name == "chrome" || name == "kworker"
  }

  /**
   * `explain_process`. Each text is given for exactly its names: the texts
   * differ from one another (even in length), so a text also tells which case matched.
   */
  function ExplainProcess(name: string): (text: string)
    ensures text == FIREFOX_TEXT <==> name == "firefox"
    ensures text == CHROMIUM_TEXT <==> name == "chromium" || name == "chrome"
    ensures text == KWORKER_TEXT <==> name == "kworker"
    ensures text == DEFAULT_TEXT <==> !IsKnownName(name)
  {
    assert |FIREFOX_TEXT| == 140 && |CHROMIUM_TEXT| == 115 && |KWORKER_TEXT| == 129 && |DEFAULT_TEXT| == 117;
    match name
    case "firefox" => FIREFOX_TEXT
    case "chromium" => CHROMIUM_TEXT
    case "chrome" => CHROMIUM_TEXT
    case "kworker" => KWORKER_TEXT
    case _ => DEFAULT_TEXT
  }

  /**
   * Names are compared exactly: another spelling of a browser, a name with
   * a trailing space, a kernel worker's full thread name, or a resource
   * name such as "disk" or "io" gets the default text.
   */
  lemma MatchIsExact()
    ensures ExplainProcess("Firefox") == DEFAULT_TEXT
    ensures ExplainProcess("firefox ") == DEFAULT_TEXT
    ensures ExplainProcess("Chrome") == DEFAULT_TEXT
    ensures ExplainProcess("kworker/0:1") == DEFAULT_TEXT
    ensures ExplainProcess("disk") == DEFAULT_TEXT && ExplainProcess("io") == DEFAULT_TEXT
  {
    assert "Firefox"[0] != "firefox"[0];
    assert |"firefox "| != |"firefox"|;
    assert "Chrome"[0] != "chrome"[0];
    assert |"kworker/0:1"| != |"kworker"|;
  }
}
