/**
 * The memory probes and detector of why-linux/src/mem.rs.
 *
 * `/proc/meminfo` gives the system-wide figures; the busiest process comes
 * from `ps -eo pid,comm,%mem --sort=-%mem`, skipping the monitor's own pid.
 * The text of `/proc/meminfo` and the output of `ps` are inputs (None when
 * the read or the command failed). The division that turns the two
 * meminfo figures into a used percentage is floating-point arithmetic and
 * is not part of this model: the meminfo scan returns the figures, and the
 * used percentage a probe obtained is an input of each tick.
 */
module Mem {
  import opened Wrappers
  import opened Text
  import opened PsOutput
  import Sustained

  datatype MemSample = MemSample(name: string, pid: uint32, mem: real, usedPercent: real)

  // ---------------------------------------------------------------------------
  // /proc/meminfo

  const TOTAL_KEY: string := "MemTotal:"
  const AVAILABLE_KEY: string := "MemAvailable:"

  predicate IsKeyLine(line: string) {
    StartsWith(line, TOTAL_KEY) || StartsWith(line, AVAILABLE_KEY)
  }

  /** The scan state: aborted, or the figures read so far. */
  datatype MemInfoScan = Aborted | Scanning(total: Option<real>, available: Option<real>)

  /** One line of the scan: a key line sets its figure from its second field, and aborts when there is none. */
  function MemInfoStep(total: Option<real>, available: Option<real>, line: string): MemInfoScan {
    if StartsWith(line, TOTAL_KEY) then
      var ws := Words(line);
      if |ws| < 2 then Aborted else Scanning(ParseFloat(ws[1]), available)
    else if StartsWith(line, AVAILABLE_KEY) then
      var ws := Words(line);
      if |ws| < 2 then Aborted else Scanning(total, ParseFloat(ws[1]))
    else Scanning(total, available)
  }

  /** The scan over `lines`, first to last. */
  function ScanMemInfo(lines: seq<string>): MemInfoScan {
    if lines == [] then Scanning(None, None)
    else
      match ScanMemInfo(lines[..|lines| - 1])
      case Aborted => Aborted
      case Scanning(total, available) => MemInfoStep(total, available, lines[|lines| - 1])
  }

  /** `MemTotal` and `MemAvailable` of a meminfo text, when both were found with a parseable value. */
  function MemInfoFigures(contents: string): Option<(real, real)> {
    match ScanMemInfo(Lines(contents))
    case Aborted => None
    case Scanning(total, available) =>
      if total.Some? && available.Some? then Some((total.value, available.value)) else None
  }

  /**
   * The key-extraction part of `get_system_mem_used_percent`: the scan over
   * the lines of `/proc/meminfo` (None when it could not be read).
   */
  method SystemMemFigures(contents: Option<string>) returns (r: Option<(real, real)>)
    ensures contents.None? ==> r.None?
    ensures contents.Some? ==> r == MemInfoFigures(contents.value)
  {
    if contents.None? {
      return None;
    }
    var lines := Lines(contents.value);
    var total: Option<real> := None;
    var available: Option<real> := None;
    var i := 0;
    while i < |lines|
      invariant 0 <= i <= |lines|
      invariant ScanMemInfo(lines[..i]) == Scanning(total, available)
    {
      assert lines[..i + 1][..i] == lines[..i];
      var line := lines[i];
      if StartsWith(line, TOTAL_KEY) {
        var parts := Words(line);
        if |parts| < 2 {
          AbortedScanStaysAborted(lines, i + 1);
          return None;
        }
        total := ParseFloat(parts[1]);
      } else if StartsWith(line, AVAILABLE_KEY) {
        var parts := Words(line);
        if |parts| < 2 {
          AbortedScanStaysAborted(lines, i + 1);
          return None;
        }
        available := ParseFloat(parts[1]);
      }
      i := i + 1;
    }
    assert lines[..i] == lines;
    if total.None? || available.None? {
      return None;
    }
    return Some((total.value, available.value));
  }

  lemma {:induction false} AbortedScanStaysAborted(lines: seq<string>, k: nat)
    requires k <= |lines| && ScanMemInfo(lines[..k]) == Aborted
    ensures ScanMemInfo(lines) == Aborted
    decreases |lines| - k
  {
    if k < |lines| {
      assert lines[..k + 1][..k] == lines[..k];
      AbortedScanStaysAborted(lines, k + 1);
    } else {
      assert lines[..k] == lines;
    }
  }

  /** The figure of the last line that starts with `key`, found by searching backwards. */
  function LastKeyValue(lines: seq<string>, key: string): Option<real> {
    if lines == [] then None
    else
      var line := lines[|lines| - 1];
      if StartsWith(line, key) then
        var ws := Words(line);
        if |ws| >= 2 then ParseFloat(ws[1]) else None
      else LastKeyValue(lines[..|lines| - 1], key)
  }

  /** Some key line has no second field. */
  predicate HasValuelessKeyLine(lines: seq<string>) {
    exists i :: 0 <= i < |lines| && IsKeyLine(lines[i]) && |Words(lines[i])| < 2
  }

  lemma KeysAreExclusive(line: string)
    ensures !(StartsWith(line, TOTAL_KEY) && StartsWith(line, AVAILABLE_KEY))
  {
    if StartsWith(line, TOTAL_KEY) {
      assert line[3] == line[..|TOTAL_KEY|][3] == 'T';
    }
    if StartsWith(line, AVAILABLE_KEY) {
      assert line[3] == line[..|AVAILABLE_KEY|][3] == 'A';
    }
  }

  /**
   * The forward scan agrees with the backward reference: it aborts exactly
   * when some key line has no second field, and otherwise each figure is the
   * one on the LAST line with its key, so a later line overrides an earlier
   * one (also when the later value does not parse).
   */
  lemma {:induction false} ScanMatchesLastKeys(lines: seq<string>)
    ensures ScanMemInfo(lines) == if HasValuelessKeyLine(lines) then Aborted
                                  else Scanning(LastKeyValue(lines, TOTAL_KEY), LastKeyValue(lines, AVAILABLE_KEY))
  {
    if lines != [] {
      var n := |lines| - 1;
      var front, line := lines[..n], lines[n];
      ScanMatchesLastKeys(front);
      KeysAreExclusive(line);
      assert HasValuelessKeyLine(lines) <==> HasValuelessKeyLine(front) || (IsKeyLine(line) && |Words(line)| < 2) by {
        if HasValuelessKeyLine(front) {
          var i :| 0 <= i < |front| && IsKeyLine(front[i]) && |Words(front[i])| < 2;
          assert lines[i] == front[i];
        }
        if HasValuelessKeyLine(lines) {
          var i :| 0 <= i < |lines| && IsKeyLine(lines[i]) && |Words(lines[i])| < 2;
          if i < n {
            assert front[i] == lines[i];
          }
        }
      }
    }
  }

  /** Both keys are needed: without a `MemTotal:` line or a `MemAvailable:` line there are no figures. */
  lemma FiguresNeedBothKeys(contents: string)
    requires MemInfoFigures(contents).Some?
    ensures LastKeyValue(Lines(contents), TOTAL_KEY).Some? && LastKeyValue(Lines(contents), AVAILABLE_KEY).Some?
    ensures MemInfoFigures(contents).value == (LastKeyValue(Lines(contents), TOTAL_KEY).value,
                                               LastKeyValue(Lines(contents), AVAILABLE_KEY).value)
  {
    ScanMatchesLastKeys(Lines(contents));
  }

  /** A meminfo line as the kernel prints it: key, figure, unit. */
  function KeyLine(key: string, n: nat): string {
    JoinWords([key, NatToString(n), "kB"])
  }

  lemma KeyLineFields(key: string, n: nat)
    requires key != [] && NoWhitespace(key)
    ensures StartsWith(KeyLine(key, n), key) && NoNewline(KeyLine(key, n))
    ensures |Words(KeyLine(key, n))| >= 2 && ParseFloat(Words(KeyLine(key, n))[1]) == Some(n as real)
  {
    var ws := [key, NatToString(n), "kB"];
    NatToStringIsWord(n);
    assert forall k :: 0 <= k < 3 ==> ws[k] != [] && NoWhitespace(ws[k]);
    WordsOfJoined(ws);
    JoinedWordsHaveNoNewline(ws);
    ParseFloatOfNatToString(n);
    assert KeyLine(key, n) == key + " " + JoinWords(ws[1..]);
  }

  lemma ScanOfKeyLines(totalLine: string, availableLine: string, t: real, a: real)
    requires StartsWith(totalLine, TOTAL_KEY)
    requires |Words(totalLine)| >= 2 && ParseFloat(Words(totalLine)[1]) == Some(t)
    requires StartsWith(availableLine, AVAILABLE_KEY)
    requires |Words(availableLine)| >= 2 && ParseFloat(Words(availableLine)[1]) == Some(a)
    ensures ScanMemInfo([totalLine, availableLine]) == Scanning(Some(t), Some(a))
  {
    KeysAreExclusive(availableLine);
    assert [totalLine, availableLine][..1] == [totalLine] && [totalLine][..0] == [];
    assert ScanMemInfo([totalLine]) == Scanning(Some(t), None);
  }

  lemma FiguresOfKeyLines(totalLine: string, availableLine: string, t: real, a: real)
    requires StartsWith(totalLine, TOTAL_KEY) && NoNewline(totalLine)
    requires |Words(totalLine)| >= 2 && ParseFloat(Words(totalLine)[1]) == Some(t)
    requires StartsWith(availableLine, AVAILABLE_KEY) && NoNewline(availableLine)
    requires |Words(availableLine)| >= 2 && ParseFloat(Words(availableLine)[1]) == Some(a)
    ensures MemInfoFigures(JoinLines([totalLine, availableLine])) == Some((t, a))
  {
    LinesOfJoined([totalLine, availableLine]);
    ScanOfKeyLines(totalLine, availableLine, t, a);
  }

  /** Both keys are single words. */
  lemma KeysAreWords()
    ensures TOTAL_KEY != [] && NoWhitespace(TOTAL_KEY)
    ensures AVAILABLE_KEY != [] && NoWhitespace(AVAILABLE_KEY)
  {
  }

  /** A meminfo text with the lines "MemTotal: t kB" and "MemAvailable: a kB" yields (t, a). */
  lemma FiguresOfMemInfo(t: nat, a: nat)
    ensures MemInfoFigures(JoinLines([KeyLine(TOTAL_KEY, t), KeyLine(AVAILABLE_KEY, a)])) == Some((t as real, a as real))
  {
    KeysAreWords();
    var totalLine, availableLine := KeyLine(TOTAL_KEY, t), KeyLine(AVAILABLE_KEY, a);
    KeyLineFields(TOTAL_KEY, t);
    KeyLineFields(AVAILABLE_KEY, a);
    FiguresOfKeyLines(totalLine, availableLine, t as real, a as real);
  }

  // ---------------------------------------------------------------------------
  // The busiest process, excluding one pid

  /**
   * The first row of `rows` whose pid is not `exclude`. A malformed row met
   * before it ends the scan with nothing. The used percentage is the system
   * figure `systemUsed` when there is one and the process's own share otherwise.
   */
  function FirstNotExcluded(rows: seq<string>, exclude: Option<uint32>, systemUsed: Option<real>): Option<MemSample> {
    if rows == [] then None
    else
      match ParsePsRow(rows[0])
      case None => None
      case Some(row) =>
        if exclude == Some(row.pid) then FirstNotExcluded(rows[1..], exclude, systemUsed)
        else Some(MemSample(row.name, row.pid, row.value, systemUsed.GetOr(row.value)))
  }

  /** The data rows of a `ps` listing: every line after the header. */
  function DataRows(psOutput: string): seq<string> {
    var ls := Lines(psOutput);
    if ls == [] then [] else ls[1..]
  }

  function TopMem(psOutput: Option<string>, exclude: Option<uint32>, systemUsed: Option<real>): Option<MemSample> {
    match psOutput
    case None => None
    case Some(out) => FirstNotExcluded(DataRows(out), exclude, systemUsed)
  }

  /**
   * `get_top_mem_excluding`: `psOutput` is the sorted `ps` listing (None when
   * it could not be run) and `systemUsed` what `/proc/meminfo` gave when the
   * row was chosen.
   */
  method TopMemExcluding(psOutput: Option<string>, exclude: Option<uint32>, systemUsed: Option<real>)
    returns (r: Option<MemSample>)
    ensures r == TopMem(psOutput, exclude, systemUsed)
    ensures r.Some? ==> exclude != Some(r.value.pid) && r.value.usedPercent == systemUsed.GetOr(r.value.mem)
  {
    if psOutput.None? {
      return None;
    }
    var rows := DataRows(psOutput.value);
    var i := 0;
    while i < |rows|
      invariant 0 <= i <= |rows|
      invariant FirstNotExcluded(rows[i..], exclude, systemUsed) == FirstNotExcluded(rows, exclude, systemUsed)
    {
      var parsed := ParsePsRow(rows[i]);
      if parsed.None? {
        return None;
      }
      var row := parsed.value;
      if exclude.Some? && exclude.value == row.pid {
        assert rows[i..][1..] == rows[i + 1..];
        i := i + 1;
        continue;
      }
      return Some(MemSample(row.name, row.pid, row.value, systemUsed.GetOr(row.value)));
    }
    assert rows[i..] == [];
    return None;
  }

  /** Every row before `i` parses and carries the excluded pid. */
  predicate ExcludedBefore(rows: seq<string>, exclude: Option<uint32>, i: nat)
    requires i <= |rows|
  {
    forall j :: 0 <= j < i ==> ParsePsRow(rows[j]).Some? && exclude == Some(ParsePsRow(rows[j]).value.pid)
  }

  lemma ExcludedBeforeTail(rows: seq<string>, exclude: Option<uint32>, i: nat)
    requires 0 < i <= |rows| && ExcludedBefore(rows, exclude, i)
    ensures ExcludedBefore(rows[1..], exclude, i - 1)
  {
    forall j | 0 <= j < i - 1
      ensures ParsePsRow(rows[1..][j]).Some? && exclude == Some(ParsePsRow(rows[1..][j]).value.pid)
    {
      assert rows[1..][j] == rows[j + 1];
    }
  }

  /** The reported process is the first row that is not excluded, and every row before it was excluded. */
  lemma {:induction false} FirstNotExcludedIsFirst(rows: seq<string>, exclude: Option<uint32>, systemUsed: Option<real>)
    requires FirstNotExcluded(rows, exclude, systemUsed).Some?
    ensures var m := FirstNotExcluded(rows, exclude, systemUsed).value;
            exists i :: 0 <= i < |rows| && ExcludedBefore(rows, exclude, i)
                        && ParsePsRow(rows[i]) == Some(PsRow(m.pid, m.name, m.mem))
                        && exclude != Some(m.pid) && m.usedPercent == systemUsed.GetOr(m.mem)
  {
    var m := FirstNotExcluded(rows, exclude, systemUsed).value;
    var row := ParsePsRow(rows[0]).value;
    if exclude == Some(row.pid) {
      FirstNotExcludedIsFirst(rows[1..], exclude, systemUsed);
      var i :| 0 <= i < |rows[1..]| && ExcludedBefore(rows[1..], exclude, i)
               && ParsePsRow(rows[1..][i]) == Some(PsRow(m.pid, m.name, m.mem))
               && exclude != Some(m.pid) && m.usedPercent == systemUsed.GetOr(m.mem);
      assert ExcludedBefore(rows, exclude, i + 1) by {
        forall j | 0 <= j < i + 1
          ensures ParsePsRow(rows[j]).Some? && exclude == Some(ParsePsRow(rows[j]).value.pid)
        {
          if j > 0 {
            assert rows[j] == rows[1..][j - 1];
          }
        }
      }
      assert rows[i + 1] == rows[1..][i];
    } else {
      assert ExcludedBefore(rows, exclude, 0);
    }
  }

  /** A first row that is well-formed and excluded is passed over. */
  lemma SkipExcludedHead(rows: seq<string>, exclude: Option<uint32>, systemUsed: Option<real>)
    requires rows != [] && ExcludedBefore(rows, exclude, 1)
    ensures FirstNotExcluded(rows, exclude, systemUsed) == FirstNotExcluded(rows[1..], exclude, systemUsed)
  {
    assert ParsePsRow(rows[0]).Some? && exclude == Some(ParsePsRow(rows[0]).value.pid);
  }

  /** A malformed row reached before any non-excluded row aborts the scan: it is not skipped. */
  lemma {:induction false} MalformedRowAbortsScan(rows: seq<string>, exclude: Option<uint32>, systemUsed: Option<real>, i: nat)
    requires i < |rows| && ExcludedBefore(rows, exclude, i) && ParsePsRow(rows[i]).None?
    ensures FirstNotExcluded(rows, exclude, systemUsed).None?
  {
    if i > 0 {
      ExcludedBeforeTail(rows, exclude, i);
      assert rows[1..][i - 1] == rows[i];
      MalformedRowAbortsScan(rows[1..], exclude, systemUsed, i - 1);
      SkipExcludedHead(rows, exclude, systemUsed);
    }
  }

  /** A well-formed row not carrying the excluded pid, reached by the scan, is the one reported. */
  lemma {:induction false} FirstNotExcludedFinds(rows: seq<string>, exclude: Option<uint32>, systemUsed: Option<real>, i: nat)
    requires i < |rows| && ExcludedBefore(rows, exclude, i)
    requires ParsePsRow(rows[i]).Some? && exclude != Some(ParsePsRow(rows[i]).value.pid)
    ensures var row := ParsePsRow(rows[i]).value;
            FirstNotExcluded(rows, exclude, systemUsed) == Some(MemSample(row.name, row.pid, row.value, systemUsed.GetOr(row.value)))
  {
    if i > 0 {
      ExcludedBeforeTail(rows, exclude, i);
      assert rows[1..][i - 1] == rows[i];
      FirstNotExcludedFinds(rows[1..], exclude, systemUsed, i - 1);
      SkipExcludedHead(rows, exclude, systemUsed);
    }
  }

  /** A listing whose every row carries the excluded pid reports nothing. */
  lemma {:induction false} AllExcludedGivesNothing(rows: seq<string>, exclude: Option<uint32>, systemUsed: Option<real>)
    requires ExcludedBefore(rows, exclude, |rows|)
    ensures FirstNotExcluded(rows, exclude, systemUsed).None?
  {
    if rows != [] {
      ExcludedBeforeTail(rows, exclude, |rows|);
      AllExcludedGivesNothing(rows[1..], exclude, systemUsed);
      SkipExcludedHead(rows, exclude, systemUsed);
    }
  }

  // ---------------------------------------------------------------------------
  // Detector

  /**
   * What one tick of the detector observes: the used percentage from
   * `/proc/meminfo` (None when unavailable), and, for the probe of the
   * busiest process, the `ps` listing and the meminfo reading it takes.
   */
  datatype MemTick = MemTick(systemUsed: Option<real>, psOutput: Option<string>, probeSystemUsed: Option<real>)

  /**
   * A tick is a hit when the system-wide used percentage is available and
   * strictly above the threshold AND the busiest-process probe returns a sample.
   */
  function MemPick(threshold: real, exclude: Option<uint32>): MemTick -> Option<MemSample> {
    (t: MemTick) =>
      if t.systemUsed.Some? && t.systemUsed.value > threshold then TopMem(t.psOutput, exclude, t.probeSystemUsed)
      else None
  }

  /**
   * `detect_sustained_high_mem` over `|ticks|` samples (the sleeps of
   * `interval_secs` do not affect the result).
   */
  method DetectSustainedHighMem(threshold: real, ticks: seq<MemTick>, minHits: nat, exclude: Option<uint32>)
    returns (r: Option<MemSample>)
    ensures r == Sustained.Verdict(ticks, MemPick(threshold, exclude), minHits)
    ensures r.Some? ==> exists i :: 0 <= i < |ticks| && ticks[i].systemUsed.Some? && ticks[i].systemUsed.value > threshold
                                    && TopMem(ticks[i].psOutput, exclude, ticks[i].probeSystemUsed) == r
  {
    ghost var pick := MemPick(threshold, exclude);
    var hits := 0;
    var last: Option<MemSample> := None;
    var i := 0;
    while i < |ticks|
      invariant 0 <= i <= |ticks|
      invariant hits == Sustained.Hits(ticks[..i], pick)
      invariant last == Sustained.LastHit(ticks[..i], pick)
    {
      Sustained.Step(ticks, pick, i);
      var tick := ticks[i];
      var sample: Option<MemSample> := None;
      if tick.systemUsed.Some? {
        if tick.systemUsed.value > threshold {
          sample := TopMemExcluding(tick.psOutput, exclude, tick.probeSystemUsed);
        }
      }
      assert pick(tick) == sample;
      if sample.Some? {
        hits := hits + 1;
        last := sample;
      }
      i := i + 1;
    }
    assert ticks[..i] == ticks;
    if hits >= minHits {
      r := last;
    } else {
      r := None;
    }
    if r.Some? {
      ReportedTickIsHigh(threshold, ticks, minHits, exclude);
    }
  }

  /** A reported sample comes from a tick whose system usage was above the threshold. */
  lemma ReportedTickIsHigh(threshold: real, ticks: seq<MemTick>, minHits: nat, exclude: Option<uint32>)
    requires Sustained.Verdict(ticks, MemPick(threshold, exclude), minHits).Some?
    ensures var r := Sustained.Verdict(ticks, MemPick(threshold, exclude), minHits);
      exists i :: 0 <= i < |ticks| && ticks[i].systemUsed.Some? && ticks[i].systemUsed.value > threshold
                  && TopMem(ticks[i].psOutput, exclude, ticks[i].probeSystemUsed) == r
  {
    var pick := MemPick(threshold, exclude);
    var r := Sustained.Verdict(ticks, pick, minHits);
    Sustained.LastHitIsLatest(ticks, pick);
    var k :| 0 <= k < |ticks| && pick(ticks[k]) == r && forall j :: k < j < |ticks| ==> pick(ticks[j]).None?;
    assert ticks[k].systemUsed.Some? && ticks[k].systemUsed.value > threshold
           && TopMem(ticks[k].psOutput, exclude, ticks[k].probeSystemUsed) == r;
  }

  /** A window whose system usage never exceeds the threshold reports nothing, whatever `minHits` is. */
  lemma NothingBelowThreshold(threshold: real, ticks: seq<MemTick>, minHits: nat, exclude: Option<uint32>)
    requires forall i :: 0 <= i < |ticks| ==> ticks[i].systemUsed.None? || ticks[i].systemUsed.value <= threshold
    ensures Sustained.Verdict(ticks, MemPick(threshold, exclude), minHits).None?
  {
    var pick := MemPick(threshold, exclude);
    Sustained.HitsCountsHitTicks(ticks, pick);
    assert Sustained.HitTicks(ticks, pick) == {};
  }
}
