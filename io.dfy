/**
 * The I/O detector of why-linux/src/io.rs.
 *
 * `/proc/<pid>/io` is read through `read_proc_io`, which keeps the values of
 * the last `read_bytes:` and `write_bytes:` lines. The detector first picks
 * up to 64 candidate pids, the ones with the largest saturating
 * `read + write` totals in one scan, and falls back to every pid when the
 * scan found none. Each tick then takes a start and an end snapshot of the
 * candidates' counters, computes saturating deltas, remembers the latest
 * non-zero deltas of each pid and counts a hit for a pid whose read or write
 * delta reaches its threshold. At the end the pid with enough hits and the
 * largest latest `read + write` delta is reported.
 *
 * The file system is not part of this model: a snapshot is a map from pid
 * to the counters `read_proc_io` returned (a pid it returned nothing for is
 * absent), the pid listings are sequences, and the `comm` texts of a tick
 * are a map (a pid whose `comm` could not be read is absent).
 */
module Io {
  import opened Wrappers
  import opened Text
  import Sustained

  datatype Counters = Counters(read: uint64, write: uint64)

  // ---------------------------------------------------------------------------
  // /proc/<pid>/io

  const READ_KEY: string := "read_bytes:"
  const WRITE_KEY: string := "write_bytes:"

  /** The value after a key: the rest of the line, trimmed, as a `u64`. */
  function KeyValue(rest: string): Option<uint64> {
    ParseUint64(Trim(rest))
  }

  /** The last value read for each key so far: a later key line replaces an earlier one, even with nothing. */
  datatype ProcIoScan = ProcIoScan(read: Option<uint64>, write: Option<uint64>)

  /** The scan over `lines`, first to last. */
  function ScanProcIo(lines: seq<string>): ProcIoScan {
    if lines == [] then ProcIoScan(None, None)
    else
      var before := ScanProcIo(lines[..|lines| - 1]);
      var line := lines[|lines| - 1];
      match StripPrefix(line, READ_KEY)
      case Some(rest) => before.(read := KeyValue(rest))
      case None =>
        match StripPrefix(line, WRITE_KEY)
        case Some(rest) => before.(write := KeyValue(rest))
        case None => before
  }

  /** Both counters of an io text, when both keys were found with a value that parses. */
  function ProcIoCounters(contents: string): Option<Counters> {
    var scan := ScanProcIo(Lines(contents));
    if scan.read.Some? && scan.write.Some? then Some(Counters(scan.read.value, scan.write.value)) else None
  }

  /** `read_proc_io`: `contents` is the text of `/proc/<pid>/io`, None when it could not be read. */
  method ReadProcIo(contents: Option<string>) returns (r: Option<Counters>)
    ensures contents.None? ==> r.None?
    ensures contents.Some? ==> r == ProcIoCounters(contents.value)
  {
    if contents.None? {
      return None;
    }
    var lines := Lines(contents.value);
    var readBytes: Option<uint64> := None;
    var writeBytes: Option<uint64> := None;
    var i := 0;
    while i < |lines|
      invariant 0 <= i <= |lines|
      invariant ScanProcIo(lines[..i]) == ProcIoScan(readBytes, writeBytes)
    {
      assert lines[..i + 1][..i] == lines[..i];
      var line := lines[i];
      var readRest := StripPrefix(line, READ_KEY);
      if readRest.Some? {
        readBytes := KeyValue(readRest.value);
      } else {
        var writeRest := StripPrefix(line, WRITE_KEY);
        if writeRest.Some? {
          writeBytes := KeyValue(writeRest.value);
        }
      }
      i := i + 1;
    }
    assert lines[..i] == lines;
    if readBytes.None? || writeBytes.None? {
      return None;
    }
    return Some(Counters(readBytes.value, writeBytes.value));
  }

  /** What follows `key` on the last line that starts with it, found by searching backwards. */
  function LastKeyRest(lines: seq<string>, key: string): Option<string> {
    if lines == [] then None
    else
      var line := lines[|lines| - 1];
      if StartsWith(line, key) then Some(line[|key|..]) else LastKeyRest(lines[..|lines| - 1], key)
  }

  function LastKeyValue(lines: seq<string>, key: string): Option<uint64> {
    match LastKeyRest(lines, key)
    case None => None
    case Some(rest) => KeyValue(rest)
  }

  lemma KeysAreExclusive(line: string)
    ensures !(StartsWith(line, READ_KEY) && StartsWith(line, WRITE_KEY))
  {
    if StartsWith(line, READ_KEY) {
      assert line[0] == line[..|READ_KEY|][0] == 'r';
    }
    if StartsWith(line, WRITE_KEY) {
      assert line[0] == line[..|WRITE_KEY|][0] == 'w';
    }
  }

  /**
   * The forward scan agrees with the backward reference: each counter is the
   * value on the LAST line with its key, so a later line overrides an earlier
   * one, also when the later value does not parse.
   */
  lemma {:induction false} ScanMatchesLastKeys(lines: seq<string>)
    ensures ScanProcIo(lines) == ProcIoScan(LastKeyValue(lines, READ_KEY), LastKeyValue(lines, WRITE_KEY))
  {
    if lines != [] {
      ScanMatchesLastKeys(lines[..|lines| - 1]);
      KeysAreExclusive(lines[|lines| - 1]);
    }
  }

  /** The counters are found exactly when both keys occur and the last line of each carries a `u64`. */
  lemma ProcIoCountersMeaning(contents: string)
    ensures ProcIoCounters(contents).Some? <==>
      LastKeyValue(Lines(contents), READ_KEY).Some? && LastKeyValue(Lines(contents), WRITE_KEY).Some?
    ensures ProcIoCounters(contents).Some? ==>
      ProcIoCounters(contents).value == Counters(LastKeyValue(Lines(contents), READ_KEY).value,
                                                 LastKeyValue(Lines(contents), WRITE_KEY).value)
  {
    ScanMatchesLastKeys(Lines(contents));
  }

  /** A key line whose value does not parse, after any lines at all, leaves the process without counters. */
  lemma LaterUnparseableValueResets(lines: seq<string>, key: string, rest: string)
    requires key == READ_KEY || key == WRITE_KEY
    requires KeyValue(rest).None?
    ensures ScanProcIo(lines + [key + rest]).read.None? || ScanProcIo(lines + [key + rest]).write.None?
  {
    var all := lines + [key + rest];
    assert all[..|all| - 1] == lines;
    assert (key + rest)[..|key|] == key;
    assert (key + rest)[|key|..] == rest;
    KeysAreExclusive(key + rest);
  }

  /** The last field of `/proc/<pid>/io`: the write key with a `cancelled_` prefix. The probe does not read it. */
  const CANCELLED_FIELD: string := "cancelled_" + WRITE_KEY

  /** A line of `/proc/<pid>/io` as the kernel prints it: a field, a space, a count. */
  function CounterLine(field: string, n: nat): string {
    field + " " + NatToString(n)
  }

  lemma TrimOfSpacedNumeral(n: nat)
    ensures Trim(" " + NatToString(n)) == NatToString(n)
  {
    var s := NatToString(n);
    assert (" " + s)[1..] == s;
    assert !IsWhitespace(s[0]) && !IsWhitespace(s[|s| - 1]);
    assert TrimStart(" " + s) == TrimStart(s) == s;
    assert TrimEnd(s) == s;
  }

  lemma CounterLineIsKeyLine(key: string, n: nat)
    requires n < UINT64_LIMIT
    ensures StartsWith(CounterLine(key, n), key)
    ensures KeyValue(CounterLine(key, n)[|key|..]) == Some(n)
  {
    var line := CounterLine(key, n);
    assert line[..|key|] == key;
    assert line[|key|..] == " " + NatToString(n);
    TrimOfSpacedNumeral(n);
    ParseUnsignedOfNatToString(n, UINT64_LIMIT);
  }

  /** A counter line whose field differs from both keys at its second character is no key line. */
  lemma OtherCounterLine(field: string, n: nat)
    requires |field| >= 2 && field[1] != 'e' && field[1] != 'r'
    ensures !StartsWith(CounterLine(field, n), READ_KEY) && !StartsWith(CounterLine(field, n), WRITE_KEY)
  {
    var line := CounterLine(field, n);
    assert line[1] == field[1];
    if |line| >= |READ_KEY| {
      assert line[..|READ_KEY|][1] != READ_KEY[1];
    }
    if |line| >= |WRITE_KEY| {
      assert line[..|WRITE_KEY|][1] != WRITE_KEY[1];
    }
  }

  /** The lines of `/proc/<pid>/io`, in the kernel's order. */
  function ProcIoText(rchar: nat, wchar: nat, syscr: nat, syscw: nat, read: nat, write: nat, cancelled: nat): string {
    JoinLines([CounterLine("rchar:", rchar), CounterLine("wchar:", wchar), CounterLine("syscr:", syscr),
               CounterLine("syscw:", syscw), CounterLine(READ_KEY, read), CounterLine(WRITE_KEY, write),
               CounterLine(CANCELLED_FIELD, cancelled)])
  }

  lemma CounterLineHasNoNewline(field: string, n: nat)
    requires NoNewline(field)
    ensures NoNewline(CounterLine(field, n))
  {
    var line := CounterLine(field, n);
    NatToStringIsWord(n);
    forall i | 0 <= i < |line| ensures line[i] != '\n' {
      if i > |field| {
        assert line[i] == NatToString(n)[i - |field| - 1];
      }
    }
  }

  /** The scan over lines ending in a `read_bytes:` line, a `write_bytes:` line and one other line. */
  lemma ScanOfKeyLines(front: seq<string>, readLine: string, writeLine: string, other: string)
    requires StartsWith(readLine, READ_KEY) && StartsWith(writeLine, WRITE_KEY)
    requires !StartsWith(other, READ_KEY) && !StartsWith(other, WRITE_KEY)
    ensures ScanProcIo(front + [readLine, writeLine, other])
         == ProcIoScan(KeyValue(readLine[|READ_KEY|..]), KeyValue(writeLine[|WRITE_KEY|..]))
  {
    var all := front + [readLine, writeLine, other];
    assert all[..|all| - 1] == front + [readLine, writeLine];
    assert (front + [readLine, writeLine])[..|all| - 2] == front + [readLine];
    assert (front + [readLine])[..|all| - 3] == front;
    KeysAreExclusive(readLine);
    KeysAreExclusive(writeLine);
    var s1 := ScanProcIo(front + [readLine]);
    assert s1.read == KeyValue(readLine[|READ_KEY|..]);
    var s2 := ScanProcIo(front + [readLine, writeLine]);
    assert s2 == s1.(write := KeyValue(writeLine[|WRITE_KEY|..]));
  }

  lemma LinesOfProcIoText(rchar: nat, wchar: nat, syscr: nat, syscw: nat, read: nat, write: nat, cancelled: nat)
    ensures Lines(ProcIoText(rchar, wchar, syscr, syscw, read, write, cancelled))
         == [CounterLine("rchar:", rchar), CounterLine("wchar:", wchar), CounterLine("syscr:", syscr),
             CounterLine("syscw:", syscw)] + [CounterLine(READ_KEY, read), CounterLine(WRITE_KEY, write),
             CounterLine(CANCELLED_FIELD, cancelled)]
  {
    var ls := [CounterLine("rchar:", rchar), CounterLine("wchar:", wchar), CounterLine("syscr:", syscr),
               CounterLine("syscw:", syscw), CounterLine(READ_KEY, read), CounterLine(WRITE_KEY, write),
               CounterLine(CANCELLED_FIELD, cancelled)];
    CounterLineHasNoNewline("rchar:", rchar);
    CounterLineHasNoNewline("wchar:", wchar);
    CounterLineHasNoNewline("syscr:", syscr);
    CounterLineHasNoNewline("syscw:", syscw);
    CounterLineHasNoNewline(READ_KEY, read);
    CounterLineHasNoNewline(WRITE_KEY, write);
    CounterLineHasNoNewline(CANCELLED_FIELD, cancelled);
    LinesOfJoined(ls);
  }

  /** The kernel's io text gives back its `read_bytes` and `write_bytes` counts. */
  lemma ProcIoCountersOfText(rchar: nat, wchar: nat, syscr: nat, syscw: nat, read: uint64, write: uint64, cancelled: nat)
    ensures ProcIoCounters(ProcIoText(rchar, wchar, syscr, syscw, read, write, cancelled)) == Some(Counters(read, write))
  {
    var front := [CounterLine("rchar:", rchar), CounterLine("wchar:", wchar), CounterLine("syscr:", syscr),
                  CounterLine("syscw:", syscw)];
    var readLine, writeLine := CounterLine(READ_KEY, read), CounterLine(WRITE_KEY, write);
    var other := CounterLine(CANCELLED_FIELD, cancelled);
    LinesOfProcIoText(rchar, wchar, syscr, syscw, read, write, cancelled);
    CounterLineIsKeyLine(READ_KEY, read);
    CounterLineIsKeyLine(WRITE_KEY, write);
    OtherCounterLine(CANCELLED_FIELD, cancelled);
    ScanOfKeyLines(front, readLine, writeLine, other);
  }

  // ---------------------------------------------------------------------------
  // Candidate selection

  /** How many candidates the scan keeps. */
  const TOP_N: nat := 64

  /** `u64::saturating_add`. */
  function SatAdd(a: uint64, b: uint64): (r: uint64)
    ensures a <= r && b <= r && r <= a + b
    ensures r == a + b <==> a + b < UINT64_LIMIT
  {
    if a + b < UINT64_LIMIT then a + b else UINT64_LIMIT - 1
  }

  /** `u64::saturating_sub`. */
  function SatSub(a: uint64, b: uint64): (r: uint64)
    ensures r <= a
    ensures r > 0 <==> a > b
    ensures a >= b ==> r + b == a
  {
    if a >= b then a - b else 0
  }

  /** The combined counters of a pid in the candidate scan. */
  function ScanTotal(scan: map<uint32, Counters>, pid: uint32): uint64
    requires pid in scan
  {
    SatAdd(scan[pid].read, scan[pid].write)
  }

  datatype PidTotal = PidTotal(pid: uint32, total: uint64)

  predicate Distinct(xs: seq<uint32>) {
    forall i, j :: 0 <= i < j < |xs| ==> xs[i] != xs[j]
  }

  predicate DistinctPids(s: seq<PidTotal>) {
    forall i, j :: 0 <= i < j < |s| ==> s[i].pid != s[j].pid
  }

  /** Without its last pid a listing is still without repeats, and that pid is not among the rest. */
  lemma DistinctFront(xs: seq<uint32>)
    requires Distinct(xs) && xs != []
    ensures Distinct(xs[..|xs| - 1]) && xs[|xs| - 1] !in xs[..|xs| - 1]
  {
    var front := xs[..|xs| - 1];
    forall i | 0 <= i < |front| ensures front[i] == xs[i] {
    }
  }

  /** The totals the scan pushes, in the order of the pid listing: one per pid whose counters were read. */
  function Totals(pids: seq<uint32>, scan: map<uint32, Counters>): (totals: seq<PidTotal>)
    ensures |totals| <= |pids|
    ensures forall k :: 0 <= k < |totals| ==>
              totals[k].pid in pids && totals[k].pid in scan && totals[k].total == ScanTotal(scan, totals[k].pid)
  {
    if pids == [] then []
    else
      var pid := pids[|pids| - 1];
      Totals(pids[..|pids| - 1], scan) + (if pid in scan then [PidTotal(pid, ScanTotal(scan, pid))] else [])
  }

  /** Every listed pid whose counters were read has its total among the totals. */
  lemma {:induction false} TotalsCoverScannedPids(pids: seq<uint32>, scan: map<uint32, Counters>, pid: uint32)
    requires pid in pids && pid in scan
    ensures PidTotal(pid, ScanTotal(scan, pid)) in Totals(pids, scan)
  {
    var n := |pids| - 1;
    if pids[n] != pid {
      assert pid in pids[..n] by {
        var i :| 0 <= i < |pids| && pids[i] == pid;
        assert pids[..n][i] == pid;
      }
      TotalsCoverScannedPids(pids[..n], scan, pid);
    }
  }

  lemma {:induction false} TotalsHaveDistinctPids(pids: seq<uint32>, scan: map<uint32, Counters>)
    requires Distinct(pids)
    ensures DistinctPids(Totals(pids, scan))
  {
    if pids != [] {
      var front := pids[..|pids| - 1];
      DistinctFront(pids);
      TotalsHaveDistinctPids(front, scan);
    }
  }

  predicate SortedByTotal(s: seq<PidTotal>) {
    forall i, j :: 0 <= i < j < |s| ==> s[i].total >= s[j].total
  }

  /**
   * Inserts `x` before the first entry whose total is not larger than its
   * own, so that entries with equal totals keep their relative order.
   */
  function InsertByTotal(x: PidTotal, s: seq<PidTotal>): (r: seq<PidTotal>)
    ensures multiset(r) == multiset(s) + multiset{x}
  {
    if s == [] || s[0].total <= x.total then [x] + s
    else
      assert s == [s[0]] + s[1..];
      [s[0]] + InsertByTotal(x, s[1..])
  }

  /** An entry of `InsertByTotal(x, s)` is `x` or an entry of `s`. */
  lemma InsertedEntry(x: PidTotal, s: seq<PidTotal>, y: PidTotal)
    requires y in InsertByTotal(x, s)
    ensures y == x || y in s
  {
    assert y in multiset(InsertByTotal(x, s));
  }

  lemma {:induction false} InsertKeepsSorted(x: PidTotal, s: seq<PidTotal>)
    requires SortedByTotal(s)
    ensures SortedByTotal(InsertByTotal(x, s))
  {
    if s == [] || s[0].total <= x.total {
      var r := [x] + s;
      forall i, j | 0 <= i < j < |r| ensures r[i].total >= r[j].total {
        assert r[j] == s[j - 1];
        if i > 0 {
          assert r[i] == s[i - 1];
        }
      }
    } else {
      var rest := InsertByTotal(x, s[1..]);
      InsertKeepsSorted(x, s[1..]);
      forall k | 0 <= k < |rest| ensures rest[k].total <= s[0].total {
        InsertedEntry(x, s[1..], rest[k]);
      }
      var r := [s[0]] + rest;
      forall i, j | 0 <= i < j < |r| ensures r[i].total >= r[j].total {
        assert r[j] == rest[j - 1];
        if i > 0 {
          assert r[i] == rest[i - 1];
        }
      }
    }
  }

  /** `sort_by(|a, b| b.1.cmp(&a.1))`: a stable sort into descending totals. */
  function SortByTotal(s: seq<PidTotal>): (r: seq<PidTotal>)
    ensures multiset(r) == multiset(s)
    ensures SortedByTotal(r)
  {
    if s == [] then []
    else
      assert s == [s[0]] + s[1..];
      InsertKeepsSorted(s[0], SortByTotal(s[1..]));
      InsertByTotal(s[0], SortByTotal(s[1..]))
  }

  lemma {:induction false} InsertKeepsPidsDistinct(x: PidTotal, s: seq<PidTotal>)
    requires DistinctPids(s) && forall k :: 0 <= k < |s| ==> s[k].pid != x.pid
    ensures DistinctPids(InsertByTotal(x, s))
  {
    if !(s == [] || s[0].total <= x.total) {
      var rest := InsertByTotal(x, s[1..]);
      InsertKeepsPidsDistinct(x, s[1..]);
      forall k | 0 <= k < |rest| ensures rest[k].pid != s[0].pid {
        InsertedEntry(x, s[1..], rest[k]);
        if rest[k] != x {
          var i :| 0 <= i < |s[1..]| && s[1..][i] == rest[k];
          assert s[i + 1] == rest[k];
        }
      }
    }
  }

  lemma {:induction false} SortKeepsPidsDistinct(s: seq<PidTotal>)
    requires DistinctPids(s)
    ensures DistinctPids(SortByTotal(s))
  {
    if s != [] {
      var rest := SortByTotal(s[1..]);
      SortKeepsPidsDistinct(s[1..]);
      forall k | 0 <= k < |rest| ensures rest[k].pid != s[0].pid {
        assert rest[k] in multiset(s[1..]);
        var i :| 0 <= i < |s[1..]| && s[1..][i] == rest[k];
        assert s[i + 1] == rest[k];
      }
      InsertKeepsPidsDistinct(s[0], rest);
    }
  }

  /** The pids of the first `TOP_N` entries, or of all when there are fewer. */
  function TopPids(sorted: seq<PidTotal>): (top: seq<uint32>)
    ensures |top| <= TOP_N && |top| <= |sorted|
    ensures |top| == TOP_N || |top| == |sorted|
    ensures forall k :: 0 <= k < |top| ==> top[k] == sorted[k].pid
  {
    var n := if |sorted| < TOP_N then |sorted| else TOP_N;
    seq(n, k requires 0 <= k < n => sorted[k].pid)
  }

  /** The candidate pids: the top totals of the scan, or the second pid listing when the scan found none. */
  function Candidates(pids: seq<uint32>, scan: map<uint32, Counters>, fallbackPids: seq<uint32>): seq<uint32> {
    var top := TopPids(SortByTotal(Totals(pids, scan)));
    if top == [] then fallbackPids else top
  }

  /** The scan loop of the candidate selection: one total per listed pid whose counters were read. */
  method ScanTotals(pids: seq<uint32>, scan: map<uint32, Counters>) returns (totals: seq<PidTotal>)
    ensures totals == Totals(pids, scan)
  {
    totals := [];
    var i := 0;
    while i < |pids|
      invariant 0 <= i <= |pids|
      invariant totals == Totals(pids[..i], scan)
    {
      assert pids[..i + 1][..i] == pids[..i];
      var pid := pids[i];
      if pid in scan {
        var counters := scan[pid];
        totals := totals + [PidTotal(pid, SatAdd(counters.read, counters.write))];
      }
      i := i + 1;
    }
    assert pids[..i] == pids;
  }

  /**
   * The candidate selection of `detect_sustained_high_io`: `pids` is the
   * first pid listing, `scan` what `read_proc_io` returned for those pids,
   * and `fallbackPids` the second listing, taken when no total was pushed.
   */
  method SelectCandidates(pids: seq<uint32>, scan: map<uint32, Counters>, fallbackPids: seq<uint32>)
    returns (candidates: seq<uint32>)
    ensures candidates == Candidates(pids, scan, fallbackPids)
  {
    var totals := ScanTotals(pids, scan);
    ghost var top := TopPids(SortByTotal(totals));
    var sorted := SortByTotal(totals);
    candidates := [];
    var k := 0;
    while k < |sorted| && k < TOP_N
      invariant 0 <= k <= |sorted| && k <= TOP_N
      invariant |candidates| == k
      invariant forall j :: 0 <= j < k ==> candidates[j] == sorted[j].pid
    {
      candidates := candidates + [sorted[k].pid];
      k := k + 1;
    }
    assert candidates == top;
    if candidates == [] {
      candidates := fallbackPids;
    }
  }

  /** The second listing is used exactly when no listed pid had its counters read. */
  lemma CandidatesFallBack(pids: seq<uint32>, scan: map<uint32, Counters>, fallbackPids: seq<uint32>)
    ensures (forall p :: p in pids ==> p !in scan) ==> Candidates(pids, scan, fallbackPids) == fallbackPids
    ensures (exists p :: p in pids && p in scan) ==>
              var top := TopPids(SortByTotal(Totals(pids, scan)));
              Candidates(pids, scan, fallbackPids) == top && 0 < |top| <= TOP_N
  {
    var totals := Totals(pids, scan);
    if exists p :: p in pids && p in scan {
      var p :| p in pids && p in scan;
      TotalsCoverScannedPids(pids, scan, p);
      assert |SortByTotal(totals)| == |totals| by {
        assert |multiset(SortByTotal(totals))| == |multiset(totals)|;
      }
    }
    if totals != [] {
      assert totals[0].pid in pids && totals[0].pid in scan;
    }
  }

  /** Each sorted entry is the total of a listed pid whose counters were read. */
  lemma SortedEntriesAreTotals(pids: seq<uint32>, scan: map<uint32, Counters>)
    ensures var sorted := SortByTotal(Totals(pids, scan));
      forall k :: 0 <= k < |sorted| ==>
        sorted[k].pid in pids && sorted[k].pid in scan && sorted[k].total == ScanTotal(scan, sorted[k].pid)
  {
    var totals := Totals(pids, scan);
    var sorted := SortByTotal(totals);
    forall k | 0 <= k < |sorted|
      ensures sorted[k].pid in pids && sorted[k].pid in scan && sorted[k].total == ScanTotal(scan, sorted[k].pid)
    {
      assert sorted[k] in multiset(totals);
      var i :| 0 <= i < |totals| && totals[i] == sorted[k];
    }
  }

  /** A scanned pid that did not make the cut sits at or after position `TOP_N` of the sorted totals. */
  lemma LeftOutPidIsLater(pids: seq<uint32>, scan: map<uint32, Counters>, p: uint32)
    requires p in pids && p in scan && p !in TopPids(SortByTotal(Totals(pids, scan)))
    ensures var sorted := SortByTotal(Totals(pids, scan));
      exists m :: |TopPids(sorted)| <= m < |sorted| && sorted[m].total == ScanTotal(scan, p)
  {
    var sorted := SortByTotal(Totals(pids, scan));
    TotalsCoverScannedPids(pids, scan, p);
    var entry := PidTotal(p, ScanTotal(scan, p));
    assert entry in multiset(sorted);
    LeftOutEntryIsLater(sorted, entry);
  }

  lemma LeftOutEntryIsLater(sorted: seq<PidTotal>, entry: PidTotal)
    requires entry in multiset(sorted) && entry.pid !in TopPids(sorted)
    ensures exists m :: |TopPids(sorted)| <= m < |sorted| && sorted[m] == entry
  {
    var top := TopPids(sorted);
    assert forall k :: 0 <= k < |top| ==> sorted[k].pid != entry.pid;
    var m :| 0 <= m < |sorted| && sorted[m] == entry;
  }

  /**
   * Selected from the scan, the candidates are listed pids whose counters
   * were read, in descending order of total, and no pid left out has a
   * larger total than any candidate.
   */
  lemma CandidatesAreTop(pids: seq<uint32>, scan: map<uint32, Counters>, fallbackPids: seq<uint32>)
    requires exists p :: p in pids && p in scan
    ensures var c := Candidates(pids, scan, fallbackPids);
      && (forall k :: 0 <= k < |c| ==> c[k] in pids && c[k] in scan)
      && (forall i, j :: 0 <= i < j < |c| ==> ScanTotal(scan, c[i]) >= ScanTotal(scan, c[j]))
      && (forall p, k :: p in pids && p in scan && p !in c && 0 <= k < |c| ==> ScanTotal(scan, p) <= ScanTotal(scan, c[k]))
  {
    CandidatesFallBack(pids, scan, fallbackPids);
    SortedEntriesAreTotals(pids, scan);
    var sorted := SortByTotal(Totals(pids, scan));
    var c := Candidates(pids, scan, fallbackPids);
    assert c == TopPids(sorted);
    forall k | 0 <= k < |c|
      ensures c[k] in pids && c[k] in scan && sorted[k].total == ScanTotal(scan, c[k])
    {
      assert c[k] == sorted[k].pid;
    }
    forall i, j | 0 <= i < j < |c|
      ensures ScanTotal(scan, c[i]) >= ScanTotal(scan, c[j])
    {
      assert sorted[i].total >= sorted[j].total;
    }
    forall p, k | p in pids && p in scan && p !in c && 0 <= k < |c|
      ensures ScanTotal(scan, p) <= ScanTotal(scan, c[k])
    {
      LeftOutPidIsLater(pids, scan, p);
      var m :| |c| <= m < |sorted| && sorted[m].total == ScanTotal(scan, p);
      assert sorted[k].total >= sorted[m].total;
    }
  }

  /** Listings without repeated pids give candidates without repeated pids. */
  lemma CandidatesAreDistinct(pids: seq<uint32>, scan: map<uint32, Counters>, fallbackPids: seq<uint32>)
    requires Distinct(pids) && Distinct(fallbackPids)
    ensures Distinct(Candidates(pids, scan, fallbackPids))
  {
    var sorted := SortByTotal(Totals(pids, scan));
    TotalsHaveDistinctPids(pids, scan);
    SortKeepsPidsDistinct(Totals(pids, scan));
    var top := TopPids(sorted);
    assert Distinct(top) by {
      forall i, j | 0 <= i < j < |top| ensures top[i] != top[j] {
        assert top[i] == sorted[i].pid && top[j] == sorted[j].pid;
      }
    }
  }

  // ---------------------------------------------------------------------------
  // Ticks

  /** The latest non-zero deltas of a pid and its name at that tick (`last_seen`). */
  datatype Seen = Seen(readDelta: uint64, writeDelta: uint64, name: string)

  /**
   * What one tick read: the counters at the start and at the end (a pid
   * whose `read_proc_io` returned nothing is absent) and the `comm` texts
   * (a pid whose `comm` could not be read is absent).
   */
  datatype IoTick = IoTick(start: map<uint32, Counters>, end: map<uint32, Counters>, comm: map<uint32, string>)

  datatype Thresholds = Thresholds(read: uint64, write: uint64)

  /** The detector's maps after some ticks: hit counts and latest deltas per pid. */
  datatype IoState = IoState(hits: map<uint32, nat>, lastSeen: map<uint32, Seen>)

  function HitCount(hits: map<uint32, nat>, pid: uint32): nat {
    if pid in hits then hits[pid] else 0
  }

  function SeenOf(lastSeen: map<uint32, Seen>, pid: uint32): Option<Seen> {
    if pid in lastSeen then Some(lastSeen[pid]) else None
  }

  /** `read_name`, with "?" when the name could not be read. */
  function NameOf(comm: map<uint32, string>, pid: uint32): (name: string)
    ensures pid !in comm ==> name == "?"
    ensures pid in comm ==> name == Trim(comm[pid])
  {
    if pid in comm then Trim(comm[pid]) else "?"
  }

  /** A `comm` file holds the name and a newline; the name is read back without the newline. */
  lemma NameOfCommFile(comm: map<uint32, string>, pid: uint32, word: string)
    requires word != [] && NoWhitespace(word)
    requires pid in comm && comm[pid] == word + "\n"
    ensures NameOf(comm, pid) == word
  {
    var text := word + "\n";
    assert !IsWhitespace(text[0]) && text[0] == word[0];
    assert TrimStart(text) == text;
    assert text[..|text| - 1] == word;
    assert !IsWhitespace(word[|word| - 1]);
    assert TrimEnd(text) == TrimEnd(word) == word;
  }

  /**
   * The start snapshot (`last_values`) of a tick: cleared, then filled with
   * the counters of every candidate read at the start of that same tick.
   */
  function StartSnapshot(candidates: seq<uint32>, start: map<uint32, Counters>): (snapshot: map<uint32, Counters>)
    ensures forall pid :: pid in snapshot <==> pid in candidates && pid in start
    ensures forall pid :: pid in snapshot ==> snapshot[pid] == start[pid]
  {
    if candidates == [] then map[]
    else
      var front := candidates[..|candidates| - 1];
      var pid := candidates[|candidates| - 1];
      assert candidates == front + [pid];
      var before := StartSnapshot(front, start);
      if pid in start then before[pid := start[pid]] else before
  }

  /**
   * The deltas of a pid read at both snapshots, when some delta is not zero:
   * what `last_seen` records. Deltas are saturating, so an end counter below
   * the start counter gives 0.
   */
  function PidSeen(pid: uint32, startValues: map<uint32, Counters>, end: map<uint32, Counters>, comm: map<uint32, string>): Option<Seen> {
    if pid in startValues && pid in end then
      var readDelta := SatSub(end[pid].read, startValues[pid].read);
      var writeDelta := SatSub(end[pid].write, startValues[pid].write);
      if readDelta > 0 || writeDelta > 0 then Some(Seen(readDelta, writeDelta, NameOf(comm, pid))) else None
    else None
  }

  /** A recorded delta is a hit when either delta reaches its threshold. */
  predicate IsHit(seen: Seen, thresholds: Thresholds) {
    seen.readDelta >= thresholds.read || seen.writeDelta >= thresholds.write
  }

  /** The end-of-tick step for one candidate. */
  function ObservePid(st: IoState, pid: uint32, startValues: map<uint32, Counters>, end: map<uint32, Counters>,
                      comm: map<uint32, string>, thresholds: Thresholds): IoState {
    match PidSeen(pid, startValues, end, comm)
    case None => st
    case Some(seen) =>
      var hits := if IsHit(seen, thresholds) then st.hits[pid := HitCount(st.hits, pid) + 1] else st.hits;
      IoState(hits, st.lastSeen[pid := seen])
  }

  /** The end-of-tick pass over the candidates, first to last. */
  function ObservePids(st: IoState, candidates: seq<uint32>, startValues: map<uint32, Counters>,
                       end: map<uint32, Counters>, comm: map<uint32, string>, thresholds: Thresholds): IoState {
    if candidates == [] then st
    else
      var before := ObservePids(st, candidates[..|candidates| - 1], startValues, end, comm, thresholds);
      ObservePid(before, candidates[|candidates| - 1], startValues, end, comm, thresholds)
  }

  /** One more candidate of the end-of-tick pass. */
  lemma ObservePidsStep(st: IoState, candidates: seq<uint32>, k: nat, startValues: map<uint32, Counters>,
                        end: map<uint32, Counters>, comm: map<uint32, string>, thresholds: Thresholds)
    requires k < |candidates|
    ensures ObservePids(st, candidates[..k + 1], startValues, end, comm, thresholds)
         == ObservePid(ObservePids(st, candidates[..k], startValues, end, comm, thresholds),
                       candidates[k], startValues, end, comm, thresholds)
  {
    assert candidates[..k + 1][..k] == candidates[..k];
  }

  function TickState(st: IoState, candidates: seq<uint32>, tick: IoTick, thresholds: Thresholds): IoState {
    ObservePids(st, candidates, StartSnapshot(candidates, tick.start), tick.end, tick.comm, thresholds)
  }

  /** The maps after the ticks, starting empty. */
  function RunTicks(candidates: seq<uint32>, ticks: seq<IoTick>, thresholds: Thresholds): IoState {
    if ticks == [] then IoState(map[], map[])
    else TickState(RunTicks(candidates, ticks[..|ticks| - 1], thresholds), candidates, ticks[|ticks| - 1], thresholds)
  }

  /** The start half of a tick: `last_values` cleared and refilled from the candidates read at the start. */
  method TakeStartSnapshot(candidates: seq<uint32>, start: map<uint32, Counters>) returns (lastValues: map<uint32, Counters>)
    ensures lastValues == StartSnapshot(candidates, start)
  {
    lastValues := map[];
    var j := 0;
    while j < |candidates|
      invariant 0 <= j <= |candidates|
      invariant lastValues == StartSnapshot(candidates[..j], start)
    {
      var pid := candidates[j];
      assert candidates[..j + 1] == candidates[..j] + [pid];
      assert StartSnapshot(candidates[..j + 1], start)
          == if pid in start then lastValues[pid := start[pid]] else lastValues;
      if pid in start {
        lastValues := lastValues[pid := start[pid]];
      }
      j := j + 1;
    }
    assert candidates[..j] == candidates;
  }

  /** One tick of the detector loop: the start snapshot, then the deltas of every candidate at the end. */
  method ObserveTick(hits: map<uint32, nat>, lastSeen: map<uint32, Seen>, candidates: seq<uint32>, tick: IoTick,
                     thresholds: Thresholds)
    returns (hits': map<uint32, nat>, lastSeen': map<uint32, Seen>)
    ensures IoState(hits', lastSeen') == TickState(IoState(hits, lastSeen), candidates, tick, thresholds)
  {
    var lastValues := TakeStartSnapshot(candidates, tick.start);
    hits', lastSeen' := hits, lastSeen;
    var j := 0;
    while j < |candidates|
      invariant 0 <= j <= |candidates|
      invariant IoState(hits', lastSeen')
             == ObservePids(IoState(hits, lastSeen), candidates[..j], lastValues, tick.end, tick.comm, thresholds)
    {
      ObservePidsStep(IoState(hits, lastSeen), candidates, j, lastValues, tick.end, tick.comm, thresholds);
      var pid := candidates[j];
      ghost var before := IoState(hits', lastSeen');
      if pid in lastValues && pid in tick.end {
        var start, end := lastValues[pid], tick.end[pid];
        var readDelta := SatSub(end.read, start.read);
        var writeDelta := SatSub(end.write, start.write);
        if readDelta > 0 || writeDelta > 0 {
          var name := NameOf(tick.comm, pid);
          var seen := Seen(readDelta, writeDelta, name);
          assert PidSeen(pid, lastValues, tick.end, tick.comm) == Some(seen);
          lastSeen' := lastSeen'[pid := seen];
          if readDelta >= thresholds.read || writeDelta >= thresholds.write {
            var count := if pid in hits' then hits'[pid] else 0;
            hits' := hits'[pid := count + 1];
          }
        } else {
          assert PidSeen(pid, lastValues, tick.end, tick.comm) == None;
        }
      }
      assert IoState(hits', lastSeen') == ObservePid(before, pid, lastValues, tick.end, tick.comm, thresholds);
      j := j + 1;
    }
    assert candidates[..j] == candidates;
  }

  /** What tick `tick` records for `pid`: its deltas, when it is a candidate read at both ends of that tick and some delta is not zero. */
  function TickSeen(candidates: seq<uint32>, tick: IoTick, pid: uint32): Option<Seen> {
    if pid in candidates then PidSeen(pid, tick.start, tick.end, tick.comm) else None
  }

  /** The ticks that record deltas for `pid`, as a pick of the sustained rule. */
  function SeenPick(candidates: seq<uint32>, pid: uint32): IoTick -> Option<Seen> {
    (tick: IoTick) => TickSeen(candidates, tick, pid)
  }

  /** The ticks that are hits for `pid`, as a pick of the sustained rule. */
  function HitPick(candidates: seq<uint32>, thresholds: Thresholds, pid: uint32): IoTick -> Option<Seen> {
    (tick: IoTick) =>
      var seen := TickSeen(candidates, tick, pid);
      if seen.Some? && IsHit(seen.value, thresholds) then seen else None
  }

  lemma {:induction false} ObservePidsAtPid(st: IoState, candidates: seq<uint32>, startValues: map<uint32, Counters>,
                                            end: map<uint32, Counters>, comm: map<uint32, string>,
                                            thresholds: Thresholds, pid: uint32)
    requires Distinct(candidates)
    ensures var after := ObservePids(st, candidates, startValues, end, comm, thresholds);
      var seen := if pid in candidates then PidSeen(pid, startValues, end, comm) else None;
      var hit := seen.Some? && IsHit(seen.value, thresholds);
      && HitCount(after.hits, pid) == HitCount(st.hits, pid) + (if hit then 1 else 0)
      && (pid in after.hits <==> pid in st.hits || hit)
      && SeenOf(after.lastSeen, pid) == if seen.Some? then seen else SeenOf(st.lastSeen, pid)
  {
    if candidates != [] {
      var front := candidates[..|candidates| - 1];
      DistinctFront(candidates);
      ObservePidsAtPid(st, front, startValues, end, comm, thresholds, pid);
      assert pid in candidates <==> pid in front || pid == candidates[|candidates| - 1];
    }
  }

  /**
   * One tick changes the entries of `pid` exactly as that tick's own reads
   * say: the start snapshot is rebuilt every tick, so only counters read at
   * the start and at the end of the same tick make a delta; the delta is
   * recorded when it is not zero, and counted as one hit when it also
   * reaches a threshold. The candidates must be listed once each.
   */
  lemma TickAtPid(st: IoState, candidates: seq<uint32>, tick: IoTick, thresholds: Thresholds, pid: uint32)
    requires Distinct(candidates)
    ensures var after := TickState(st, candidates, tick, thresholds);
      && HitCount(after.hits, pid) == HitCount(st.hits, pid) + (if HitPick(candidates, thresholds, pid)(tick).Some? then 1 else 0)
      && (pid in after.hits <==> pid in st.hits || HitPick(candidates, thresholds, pid)(tick).Some?)
      && SeenOf(after.lastSeen, pid) == if TickSeen(candidates, tick, pid).Some? then TickSeen(candidates, tick, pid) else SeenOf(st.lastSeen, pid)
  {
    var snapshot := StartSnapshot(candidates, tick.start);
    ObservePidsAtPid(st, candidates, snapshot, tick.end, tick.comm, thresholds, pid);
    assert pid in candidates ==> PidSeen(pid, snapshot, tick.end, tick.comm) == PidSeen(pid, tick.start, tick.end, tick.comm);
  }

  /**
   * Per pid, the detector's maps follow the sustained rule: the hit count
   * is the number of ticks that were hits for the pid, the pid has a count
   * exactly when some tick was a hit, and its `last_seen` entry is that of
   * the latest tick that recorded deltas for it.
   */
  lemma {:induction false} RunTicksAtPid(candidates: seq<uint32>, ticks: seq<IoTick>, thresholds: Thresholds, pid: uint32)
    requires Distinct(candidates)
    ensures var final := RunTicks(candidates, ticks, thresholds);
      && HitCount(final.hits, pid) == Sustained.Hits(ticks, HitPick(candidates, thresholds, pid))
      && (pid in final.hits <==> Sustained.Hits(ticks, HitPick(candidates, thresholds, pid)) > 0)
      && SeenOf(final.lastSeen, pid) == Sustained.LastHit(ticks, SeenPick(candidates, pid))
  {
    if ticks != [] {
      var front := ticks[..|ticks| - 1];
      RunTicksAtPid(candidates, front, thresholds, pid);
      TickAtPid(RunTicks(candidates, front, thresholds), candidates, ticks[|ticks| - 1], thresholds, pid);
    }
  }

  /** A pid is counted only at ticks that also record its deltas in `last_seen`. */
  lemma HitsAtMostSeen(candidates: seq<uint32>, ticks: seq<IoTick>, thresholds: Thresholds, pid: uint32)
    requires Distinct(candidates)
    ensures HitCount(RunTicks(candidates, ticks, thresholds).hits, pid)
         <= Sustained.Hits(ticks, SeenPick(candidates, pid))
  {
    RunTicksAtPid(candidates, ticks, thresholds, pid);
    Sustained.HitsDominated(ticks, HitPick(candidates, thresholds, pid), SeenPick(candidates, pid));
  }

  /** Counts never exceed the number of ticks, for candidates listed once each. */
  lemma HitsNeverExceedTicks(candidates: seq<uint32>, ticks: seq<IoTick>, thresholds: Thresholds)
    requires Distinct(candidates)
    ensures forall pid :: pid in RunTicks(candidates, ticks, thresholds).hits ==>
              RunTicks(candidates, ticks, thresholds).hits[pid] <= |ticks|
  {
    forall pid | pid in RunTicks(candidates, ticks, thresholds).hits
      ensures RunTicks(candidates, ticks, thresholds).hits[pid] <= |ticks|
    {
      RunTicksAtPid(candidates, ticks, thresholds, pid);
    }
  }

  lemma {:induction false} ObservePidsKeepsHitsSeen(st: IoState, candidates: seq<uint32>, startValues: map<uint32, Counters>,
                                                    end: map<uint32, Counters>, comm: map<uint32, string>, thresholds: Thresholds)
    requires st.hits.Keys <= st.lastSeen.Keys
    ensures var after := ObservePids(st, candidates, startValues, end, comm, thresholds);
      after.hits.Keys <= after.lastSeen.Keys
  {
    if candidates != [] {
      ObservePidsKeepsHitsSeen(st, candidates[..|candidates| - 1], startValues, end, comm, thresholds);
    }
  }

  /** Every pid with a hit count also has a `last_seen` entry, so the final choice never misses one. */
  lemma {:induction false} HitsAreSeen(candidates: seq<uint32>, ticks: seq<IoTick>, thresholds: Thresholds)
    ensures RunTicks(candidates, ticks, thresholds).hits.Keys <= RunTicks(candidates, ticks, thresholds).lastSeen.Keys
  {
    if ticks != [] {
      var before := RunTicks(candidates, ticks[..|ticks| - 1], thresholds);
      var tick := ticks[|ticks| - 1];
      HitsAreSeen(candidates, ticks[..|ticks| - 1], thresholds);
      ObservePidsKeepsHitsSeen(before, candidates, StartSnapshot(candidates, tick.start), tick.end, tick.comm, thresholds);
    }
  }

  /** A tick in which neither counter of `pid` grew records nothing for it, whatever the thresholds, even zero ones. */
  lemma UnchangedCountersAreNoHit(candidates: seq<uint32>, tick: IoTick, thresholds: Thresholds, pid: uint32)
    requires pid in tick.start && pid in tick.end
    requires tick.end[pid].read <= tick.start[pid].read && tick.end[pid].write <= tick.start[pid].write
    ensures SeenPick(candidates, pid)(tick).None? && HitPick(candidates, thresholds, pid)(tick).None?
  {
    assert SatSub(tick.end[pid].read, tick.start[pid].read) == 0;
    assert SatSub(tick.end[pid].write, tick.start[pid].write) == 0;
  }

  // ---------------------------------------------------------------------------
  // Choice of the reported pid

  datatype IoSample = IoSample(pid: uint32, name: string, readBps: uint64, writeBps: uint64)

  /** A pid the final choice considers: enough hits, and a `last_seen` entry. */
  predicate Qualifies(st: IoState, pid: uint32, minHits: nat) {
    pid in st.hits && st.hits[pid] >= minHits && pid in st.lastSeen
  }

  /** The latest read plus write delta, as an unbounded number. */
  function Combined(seen: Seen): nat {
    seen.readDelta + seen.writeDelta
  }

  function Report(st: IoState, pid: uint32): IoSample
    requires pid in st.lastSeen
  {
    IoSample(pid, st.lastSeen[pid].name, st.lastSeen[pid].readDelta, st.lastSeen[pid].writeDelta)
  }

  /**
   * The final loop over the hit counts, visited in an order this model
   * leaves open (a hash map's): it keeps the first qualifying pid met with
   * the largest combined delta.
   */
  method PickBest(st: IoState, minHits: nat) returns (r: Option<IoSample>)
    ensures r.None? <==> forall pid :: !Qualifies(st, pid, minHits)
    ensures r.Some? ==> Qualifies(st, r.value.pid, minHits) && r.value == Report(st, r.value.pid)
    ensures r.Some? ==> forall pid :: Qualifies(st, pid, minHits) ==>
                          Combined(st.lastSeen[pid]) <= r.value.readBps + r.value.writeBps
  {
    r := None;
    var remaining := st.hits.Keys;
    ghost var visited: set<uint32> := {};
    while remaining != {}
      invariant remaining <= st.hits.Keys && visited == st.hits.Keys - remaining
      invariant r.None? <==> forall pid :: pid in visited ==> !Qualifies(st, pid, minHits)
      invariant r.Some? ==> r.value.pid in visited
      invariant r.Some? ==> Qualifies(st, r.value.pid, minHits) && r.value == Report(st, r.value.pid)
      invariant r.Some? ==> forall pid :: pid in visited && Qualifies(st, pid, minHits) ==>
                              Combined(st.lastSeen[pid]) <= r.value.readBps + r.value.writeBps
      decreases |remaining|
    {
      var pid :| pid in remaining;
      var count := st.hits[pid];
      if count >= minHits && pid in st.lastSeen {
        var seen := st.lastSeen[pid];
        if r.Some? && r.value.readBps + r.value.writeBps >= seen.readDelta + seen.writeDelta {
        } else {
          r := Some(IoSample(pid, seen.name, seen.readDelta, seen.writeDelta));
        }
      }
      remaining := remaining - {pid};
      visited := visited + {pid};
    }
    assert visited == st.hits.Keys;
  }

  /**
   * `detect_sustained_high_io`: the candidates, then one observed tick per
   * element of `ticks`, then the choice. The result is nothing exactly when
   * no pid qualifies; otherwise a qualifying pid with its latest deltas and
   * name, whose combined delta no qualifying pid exceeds.
   */
  method DetectSustainedHighIo(readThreshold: uint64, writeThreshold: uint64, pids: seq<uint32>,
                               scan: map<uint32, Counters>, fallbackPids: seq<uint32>, ticks: seq<IoTick>,
                               minHits: nat)
    returns (r: Option<IoSample>)
    ensures var final := RunTicks(Candidates(pids, scan, fallbackPids), ticks, Thresholds(readThreshold, writeThreshold));
      && (r.None? <==> forall pid :: !Qualifies(final, pid, minHits))
      && (r.Some? ==> Qualifies(final, r.value.pid, minHits) && r.value == Report(final, r.value.pid))
      && (r.Some? ==> forall pid :: Qualifies(final, pid, minHits) ==>
                        Combined(final.lastSeen[pid]) <= r.value.readBps + r.value.writeBps)
  {
    var thresholds := Thresholds(readThreshold, writeThreshold);
    var candidates := SelectCandidates(pids, scan, fallbackPids);
    var hits: map<uint32, nat> := map[];
    var lastSeen: map<uint32, Seen> := map[];
    var t := 0;
    while t < |ticks|
      invariant 0 <= t <= |ticks|
      invariant IoState(hits, lastSeen) == RunTicks(candidates, ticks[..t], thresholds)
    {
      assert ticks[..t + 1][..t] == ticks[..t];
      hits, lastSeen := ObserveTick(hits, lastSeen, candidates, ticks[t], thresholds);
      t := t + 1;
    }
    assert ticks[..t] == ticks;
    r := PickBest(IoState(hits, lastSeen), minHits);
  }

  /**
   * A pid qualifies exactly when the sustained rule over its hit ticks
   * would report it, and then its `last_seen` entry is its latest recorded
   * tick; in particular `minHits` above the number of ticks reports nothing.
   */
  lemma QualifiesBySustainedRule(candidates: seq<uint32>, ticks: seq<IoTick>, thresholds: Thresholds, pid: uint32, minHits: nat)
    requires Distinct(candidates)
    ensures var final := RunTicks(candidates, ticks, thresholds);
      && (Qualifies(final, pid, minHits) <==> Sustained.Verdict(ticks, HitPick(candidates, thresholds, pid), minHits).Some?)
      && (Qualifies(final, pid, minHits) ==> Some(final.lastSeen[pid]) == Sustained.LastHit(ticks, SeenPick(candidates, pid)))
      && (minHits > |ticks| ==> !Qualifies(final, pid, minHits))
  {
    RunTicksAtPid(candidates, ticks, thresholds, pid);
    HitsAreSeen(candidates, ticks, thresholds);
  }

  /** A tick in which `pid`'s counters did not grow can be dropped without changing whether `pid` qualifies or what it reports. */
  lemma UnchangedTickIsSkipped(candidates: seq<uint32>, before: seq<IoTick>, tick: IoTick, after: seq<IoTick>,
                               thresholds: Thresholds, pid: uint32, minHits: nat)
    requires Distinct(candidates)
    requires pid in tick.start && pid in tick.end
    requires tick.end[pid].read <= tick.start[pid].read && tick.end[pid].write <= tick.start[pid].write
    ensures var with := RunTicks(candidates, before + [tick] + after, thresholds);
      var without := RunTicks(candidates, before + after, thresholds);
      && (Qualifies(with, pid, minHits) <==> Qualifies(without, pid, minHits))
      && (Qualifies(with, pid, minHits) ==> with.lastSeen[pid] == without.lastSeen[pid])
  {
    UnchangedCountersAreNoHit(candidates, tick, thresholds, pid);
    QualifiesBySustainedRule(candidates, before + [tick] + after, thresholds, pid, minHits);
    QualifiesBySustainedRule(candidates, before + after, thresholds, pid, minHits);
    Sustained.MissedTickIsSkipped(before, tick, after, HitPick(candidates, thresholds, pid), minHits);
    Sustained.HitsOfAppend(before, [tick], SeenPick(candidates, pid));
    Sustained.HitsOfAppend(before + [tick], after, SeenPick(candidates, pid));
    Sustained.HitsOfAppend(before, after, SeenPick(candidates, pid));
    assert [tick][..0] == [];
  }
}
