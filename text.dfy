/**
 * The string handling the probes inherit from Rust's standard library:
 * `str::lines`, `str::split_whitespace`, `str::trim`, `str::starts_with`,
 * `str::strip_prefix`, `str::trim_end_matches`, and `str::parse` into `u32`,
 * `u64` and `f32`. Each is a total function on `string`; the formatting
 * functions beside them (`JoinLines`, `JoinWords`, `NatToString`) are their
 * inverses and the lemmas at the end prove the round trips.
 */
module Text {
  import opened Wrappers

  const UINT32_LIMIT: nat := 0x1_0000_0000
  const UINT64_LIMIT: nat := 0x1_0000_0000_0000_0000

  /** Rust's `u32` and `u64`. */
  type uint32 = n: nat | n < 0x1_0000_0000
  type uint64 = n: nat | n < 0x1_0000_0000_0000_0000

  /** Rust's `char::is_whitespace`: the characters with the Unicode White_Space property. */
  predicate IsWhitespace(c: char) {
    || '\t' <= c <= '\r'
    || c == ' '
    || c == '\U{0085}'
    || c == '\U{00A0}'
    || c == '\U{1680}'
    || '\U{2000}' <= c <= '\U{200A}'
    || c == '\U{2028}'
    || c == '\U{2029}'
    || c == '\U{202F}'
    || c == '\U{205F}'
    || c == '\U{3000}'
  }

  predicate NoWhitespace(s: string) {
    forall i :: 0 <= i < |s| ==> !IsWhitespace(s[i])
  }

  predicate NoNewline(s: string) {
    forall i :: 0 <= i < |s| ==> s[i] != '\n'
  }

  // ---------------------------------------------------------------------------
  // Lines

  /** Length of the text before the first '\n' (all of `s` when there is none). */
  function LineLength(s: string): (n: nat)
    ensures n <= |s|
    ensures forall i :: 0 <= i < n ==> s[i] != '\n'
    ensures n < |s| ==> s[n] == '\n'
  {
    if s == [] || s[0] == '\n' then 0 else 1 + LineLength(s[1..])
  }

  /** The pieces of `s` between '\n' characters; there is always at least one. */
  function SplitLines(s: string): (pieces: seq<string>)
    ensures |pieces| >= 1
    ensures forall k :: 0 <= k < |pieces| ==> NoNewline(pieces[k])
    decreases |s|
  {
    var n := LineLength(s);
    if n == |s| then [s] else [s[..n]] + SplitLines(s[n + 1..])
  }

  /**
   * Rust's `str::lines`: the pieces between '\n' characters, where a final
   * '\n' ends the last line instead of starting an empty one, and the empty
   * text has no lines. (Rust also drops the '\r' of a "\r\n" ending; every
   * consumer in this model splits on whitespace, trims, or tests a prefix,
   * so that '\r' never changes an outcome and is kept here.)
   */
  function Lines(s: string): (ls: seq<string>)
    ensures forall k :: 0 <= k < |ls| ==> NoNewline(ls[k])
  {
    if s == [] then []
    else
      var pieces := SplitLines(s);
      if s[|s| - 1] == '\n' then pieces[..|pieces| - 1] else pieces
  }

  /** Each line followed by '\n': the inverse of `Lines`. */
  function JoinLines(ls: seq<string>): (s: string)
    ensures ls != [] ==> |s| > 0 && s[|s| - 1] == '\n'
  {
    if ls == [] then [] else ls[0] + "\n" + JoinLines(ls[1..])
  }

  // ---------------------------------------------------------------------------
  // Words

  /** Length of the leading run of non-whitespace characters of `s`. */
  function WordLength(s: string): (n: nat)
    ensures n <= |s|
    ensures forall i :: 0 <= i < n ==> !IsWhitespace(s[i])
    ensures n < |s| ==> IsWhitespace(s[n])
  {
    if s == [] || IsWhitespace(s[0]) then 0 else 1 + WordLength(s[1..])
  }

  /** Rust's `str::split_whitespace`: the maximal runs of non-whitespace characters, in order. */
  function Words(s: string): (ws: seq<string>)
    ensures forall k :: 0 <= k < |ws| ==> ws[k] != [] && NoWhitespace(ws[k])
    decreases |s|
  {
    if s == [] then []
    else if IsWhitespace(s[0]) then Words(s[1..])
    else
      var n := WordLength(s);
      [s[..n]] + Words(s[n..])
  }

  /** The words separated by single spaces: the inverse of `Words`. */
  function JoinWords(ws: seq<string>): string {
    if ws == [] then []
    else if |ws| == 1 then ws[0]
    else ws[0] + " " + JoinWords(ws[1..])
  }

  // ---------------------------------------------------------------------------
  // Prefixes and trimming

  predicate StartsWith(s: string, prefix: string) {
    |prefix| <= |s| && s[..|prefix|] == prefix
  }

  /** Rust's `str::strip_prefix`. */
  function StripPrefix(s: string, prefix: string): Option<string> {
    if StartsWith(s, prefix) then Some(s[|prefix|..]) else None
  }

  function TrimStart(s: string): (r: string)
    ensures r == [] || !IsWhitespace(r[0])
  {
    if s != [] && IsWhitespace(s[0]) then TrimStart(s[1..]) else s
  }

  function TrimEnd(s: string): (r: string)
    ensures r == [] || !IsWhitespace(r[|r| - 1])
  {
    if s != [] && IsWhitespace(s[|s| - 1]) then TrimEnd(s[..|s| - 1]) else s
  }

  /** Rust's `str::trim`: leading and trailing whitespace removed. */
  function Trim(s: string): string {
    TrimEnd(TrimStart(s))
  }

  /** Rust's `str::trim_end_matches(c)`: every trailing `c` removed. */
  function TrimEndMatches(s: string, c: char): (r: string)
    ensures r == [] || r[|r| - 1] != c
  {
    if s != [] && s[|s| - 1] == c then TrimEndMatches(s[..|s| - 1], c) else s
  }

  // ---------------------------------------------------------------------------
  // Numbers

  predicate IsDigit(c: char) {
    '0' <= c <= '9'
  }

  predicate AllDigits(s: string) {
    forall i :: 0 <= i < |s| ==> IsDigit(s[i])
  }

  function DigitValue(c: char): nat
    requires IsDigit(c)
  {
    c as int - '0' as int
  }

  /** The value of a run of decimal digits, most significant first. */
  function DigitsValue(s: string): nat
    requires AllDigits(s)
  {
    if s == [] then 0 else 10 * DigitsValue(s[..|s| - 1]) + DigitValue(s[|s| - 1])
  }

  function Pow10(k: nat): (p: nat)
    ensures p >= 1
  {
    if k == 0 then 1 else 10 * Pow10(k - 1)
  }

  /**
   * Rust's `str::parse` for an unsigned integer type whose values lie below
   * `limit`: an optional '+', then at least one ASCII digit, and a value that
   * fits (a '-' sign, an empty text or an overflow are errors).
   */
  function ParseUnsigned(s: string, limit: nat): (r: Option<nat>)
    ensures r.Some? ==> r.value < limit
  {
    var digits := if |s| > 0 && s[0] == '+' then s[1..] else s;
    if digits != [] && AllDigits(digits) && DigitsValue(digits) < limit
    then Some(DigitsValue(digits))
    else None
  }

  function ParseUint32(s: string): Option<uint32> {
    match ParseUnsigned(s, UINT32_LIMIT)
    case None => None
    case Some(n) => Some(n)
  }

  function ParseUint64(s: string): Option<uint64> {
    match ParseUnsigned(s, UINT64_LIMIT)
    case None => None
    case Some(n) => Some(n)
  }

  /** Index of the first `c` in `s`, or `|s|` when there is none. */
  function IndexOf(s: string, c: char): (k: nat)
    ensures k <= |s|
    ensures forall i :: 0 <= i < k ==> s[i] != c
    ensures k < |s| ==> s[k] == c
  {
    if s == [] || s[0] == c then 0 else 1 + IndexOf(s[1..], c)
  }

  /**
   * Rust's `str::parse::<f32>` on plain decimal notation: an optional sign,
   * then digits with at most one '.', and at least one digit on either side
   * of it. The value is exact (no rounding to `f32`).
   */
  function ParseFloat(s: string): Option<real> {
    var negative := |s| > 0 && s[0] == '-';
    var body := if |s| > 0 && (s[0] == '+' || s[0] == '-') then s[1..] else s;
    var dot := IndexOf(body, '.');
    var whole := body[..dot];
    var fraction := if dot < |body| then body[dot + 1..] else [];
    if AllDigits(whole) && AllDigits(fraction) && |whole| + |fraction| > 0 then
      var magnitude := DigitsValue(whole) as real + DigitsValue(fraction) as real / Pow10(|fraction|) as real;
      Some(if negative then -magnitude else magnitude)
    else None
  }

  /** The decimal digits of `n`, most significant first, without leading zeros. */
  function NatToString(n: nat): (s: string)
    ensures s != [] && AllDigits(s) && DigitsValue(s) == n
  {
    var last := ['0' + (n % 10) as char];
    if n < 10 then last
    else
      var front := NatToString(n / 10);
      assert (front + last)[..|front + last| - 1] == front;
      front + last
  }

  // ---------------------------------------------------------------------------
  // Round trips

  lemma {:induction false} LineLengthOfJoined(l: string, rest: string)
    requires NoNewline(l)
    ensures LineLength(l + "\n" + rest) == |l|
  {
    if l != [] {
      assert (l + "\n" + rest)[1..] == l[1..] + "\n" + rest;
      LineLengthOfJoined(l[1..], rest);
    }
  }

  lemma SplitLinesOfCons(l: string, rest: string)
    requires NoNewline(l)
    ensures SplitLines(l + "\n" + rest) == [l] + SplitLines(rest)
  {
    var s := l + "\n" + rest;
    LineLengthOfJoined(l, rest);
    assert s[..|l|] == l;
    assert s[|l| + 1..] == rest;
  }

  lemma ConsOfTail<T>(xs: seq<T>, y: T)
    requires xs != []
    ensures [xs[0]] + (xs[1..] + [y]) == xs + [y]
  {
    assert [xs[0]] + xs[1..] == xs;
  }

  lemma {:induction false} SplitJoinedLines(ls: seq<string>)
    requires forall k :: 0 <= k < |ls| ==> NoNewline(ls[k])
    ensures SplitLines(JoinLines(ls)) == ls + [""]
  {
    if ls == [] {
      assert JoinLines(ls) == [];
    } else {
      var tail := JoinLines(ls[1..]);
      assert JoinLines(ls) == ls[0] + "\n" + tail;
      SplitLinesOfCons(ls[0], tail);
      SplitJoinedLines(ls[1..]);
      ConsOfTail(ls, "");
    }
  }

  /** `Lines` recovers every line of a newline-terminated text. */
  lemma LinesOfJoined(ls: seq<string>)
    requires forall k :: 0 <= k < |ls| ==> NoNewline(ls[k])
    ensures Lines(JoinLines(ls)) == ls
  {
    SplitJoinedLines(ls);
    if ls != [] {
      assert (ls + [""])[..|ls|] == ls;
    }
  }

  /** The same, for a text whose first lines are given apart from the rest. */
  lemma LinesOfJoinedFront(front: seq<string>, rest: seq<string>)
    requires forall k :: 0 <= k < |front| ==> NoNewline(front[k])
    requires forall k :: 0 <= k < |rest| ==> NoNewline(rest[k])
    ensures Lines(JoinLines(front + rest)) == front + rest
  {
    var ls := front + rest;
    forall k | 0 <= k < |ls|
      ensures NoNewline(ls[k])
    {
      if k < |front| {
        assert ls[k] == front[k];
      } else {
        assert ls[k] == rest[k - |front|];
      }
    }
    LinesOfJoined(ls);
  }

  /** The lines after the first line of a newline-terminated text. */
  lemma LinesAfterFirst(first: string, rest: seq<string>)
    requires NoNewline(first)
    requires forall k :: 0 <= k < |rest| ==> NoNewline(rest[k])
    ensures Lines(JoinLines([first] + rest)) != []
    ensures Lines(JoinLines([first] + rest))[1..] == rest
  {
    LinesOfJoinedFront([first], rest);
    assert ([first] + rest)[1..] == rest;
  }

  lemma {:induction false} WordLengthOfWord(w: string, rest: string)
    requires NoWhitespace(w)
    ensures WordLength(w + rest) == |w| + WordLength(rest)
  {
    if w != [] {
      assert (w + rest)[1..] == w[1..] + rest;
      WordLengthOfWord(w[1..], rest);
    } else {
      assert w + rest == rest;
    }
  }

  /** A whitespace-free word followed by a space is the first word, and nothing of it spills over. */
  lemma WordsOfConsWord(w: string, rest: string)
    requires w != [] && NoWhitespace(w)
    ensures Words(w + " " + rest) == [w] + Words(rest)
  {
    var s := w + " " + rest;
    WordLengthOfWord(w, " " + rest);
    assert WordLength(" " + rest) == 0;
    assert s == w + (" " + rest);
    assert s[..|w|] == w;
    assert s[|w|..] == " " + rest;
    assert (" " + rest)[1..] == rest;
  }

  lemma WordsOfWord(w: string)
    requires w != [] && NoWhitespace(w)
    ensures Words(w) == [w]
  {
    WordLengthOfWord(w, []);
    assert w + [] == w;
    assert w[|w|..] == [];
  }

  /** `Words` recovers every word of a space-separated text. */
  lemma {:induction false} WordsOfJoined(ws: seq<string>)
    requires forall k :: 0 <= k < |ws| ==> ws[k] != [] && NoWhitespace(ws[k])
    ensures Words(JoinWords(ws)) == ws
  {
    if |ws| == 1 {
      WordsOfWord(ws[0]);
    } else if |ws| > 1 {
      WordsOfConsWord(ws[0], JoinWords(ws[1..]));
      WordsOfJoined(ws[1..]);
      assert [ws[0]] + ws[1..] == ws;
    }
  }

  /** Space-separated whitespace-free words make a single line. */
  lemma {:induction false} JoinedWordsHaveNoNewline(ws: seq<string>)
    requires forall k :: 0 <= k < |ws| ==> NoWhitespace(ws[k])
    ensures NoNewline(JoinWords(ws))
  {
    if |ws| > 1 {
      JoinedWordsHaveNoNewline(ws[1..]);
      var s := JoinWords(ws);
      assert s == ws[0] + " " + JoinWords(ws[1..]);
      forall i | 0 <= i < |s| ensures s[i] != '\n' {
        if i < |ws[0]| {
          assert s[i] == ws[0][i] && !IsWhitespace(ws[0][i]);
        } else if i > |ws[0]| {
          assert s[i] == JoinWords(ws[1..])[i - |ws[0]| - 1];
        }
      }
    } else if |ws| == 1 {
      assert JoinWords(ws) == ws[0];
      forall i | 0 <= i < |ws[0]| ensures ws[0][i] != '\n' {
        assert !IsWhitespace(ws[0][i]);
      }
    }
  }

  lemma {:induction false} DigitsHaveNoDot(s: string)
    requires AllDigits(s)
    ensures IndexOf(s, '.') == |s|
  {
    if s != [] {
      assert IsDigit(s[0]);
      DigitsHaveNoDot(s[1..]);
    }
  }

  /** A decimal numeral parses back to its value as an unsigned integer that fits. */
  lemma ParseUnsignedOfNatToString(n: nat, limit: nat)
    requires n < limit
    ensures ParseUnsigned(NatToString(n), limit) == Some(n)
  {
  }

  /** A decimal numeral parses back to its value as a float. */
  lemma ParseFloatOfNatToString(n: nat)
    ensures ParseFloat(NatToString(n)) == Some(n as real)
  {
    var s := NatToString(n);
    DigitsHaveNoDot(s);
    assert s[..|s|] == s;
  }

  lemma NatToStringIsWord(n: nat)
    ensures NatToString(n) != [] && NoWhitespace(NatToString(n)) && NoNewline(NatToString(n))
  {
    var s := NatToString(n);
    forall i | 0 <= i < |s| ensures !IsWhitespace(s[i]) && s[i] != '\n' {
      assert IsDigit(s[i]);
    }
  }
}
