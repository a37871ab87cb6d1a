/**
 * The CPU probe and detector of why-linux/src/cpu.rs.
 *
 * The probe reads the first data row of `ps -eo pid,comm,%cpu --sort=-%cpu`
 * (the busiest process) and, when that process is a browser helper named
 * "Web" or "GPU", attributes the load to its parent: the parent pid is the
 * fourth field of `/proc/<pid>/stat`, and the parent's row comes from
 * `ps -p <ppid> -o pid,comm,%cpu`. Spawning `ps` and reading `/proc` are
 * inputs here: a text, or None when the command or the read failed.
 */
module Cpu {
  import opened Wrappers
  import opened Text
  import opened PsOutput
  import Sustained

  datatype CpuSample = CpuSample(name: string, pid: uint32, cpu: real)

  /** The sample a `ps` row describes, if it is well formed. */
  function RowSample(line: string): Option<CpuSample> {
    match ParsePsRow(line)
    case None => None
    case Some(row) => Some(CpuSample(row.name, row.pid, row.value))
  }

  /** The sample of the first row after the header of a `ps` listing; later rows are never consulted. */
  function FirstRowSample(psOutput: string): Option<CpuSample> {
    var ls := Lines(psOutput);
    if |ls| < 2 then None else RowSample(ls[1])
  }

  lemma FirstRowSampleOfListing(header: string, row: string, rest: seq<string>)
    requires NoNewline(header) && NoNewline(row)
    requires forall k :: 0 <= k < |rest| ==> NoNewline(rest[k])
    ensures FirstRowSample(JoinLines([header, row] + rest)) == RowSample(row)
  {
    LinesAfterFirst(header, [row] + rest);
    assert [header] + ([row] + rest) == [header, row] + rest;
    FirstRowSampleOfLines(JoinLines([header, row] + rest), row, rest);
  }

  lemma FirstRowSampleOfLines(psOutput: string, row: string, rest: seq<string>)
    requires Lines(psOutput) != [] && Lines(psOutput)[1..] == [row] + rest
    ensures FirstRowSample(psOutput) == RowSample(row)
  {
    assert Lines(psOutput)[1] == Lines(psOutput)[1..][0] == row;
  }

  /** The parent pid recorded in a `/proc/<pid>/stat` text: its field at index 3. */
  function ParentPid(stat: string): (r: Option<uint32>)
    ensures r.Some? ==> |Words(stat)| >= 4 && ParseUint32(Words(stat)[3]) == r
  {
    var ws := Words(stat);
    if |ws| < 4 then None else ParseUint32(ws[3])
  }

  /**
   * The sample of the parent of `pid`. `statOf(p)` is the text of
   * `/proc/<p>/stat` and `psOf(p)` the output of `ps -p <p> -o pid,comm,%cpu`,
   * each None when the read or the command failed.
   */
  function ParentSample(pid: uint32, statOf: uint32 -> Option<string>, psOf: uint32 -> Option<string>): (r: Option<CpuSample>)
    ensures r.Some? ==>
      && statOf(pid).Some? && ParentPid(statOf(pid).value).Some?
      && psOf(ParentPid(statOf(pid).value).value).Some?
      && r == FirstRowSample(psOf(ParentPid(statOf(pid).value).value).value)
  {
    match statOf(pid)
    case None => None
    case Some(stat) =>
      match ParentPid(stat)
      case None => None
      case Some(ppid) =>
        match psOf(ppid)
        case None => None
        case Some(out) => FirstRowSample(out)
  }

  /**
   * The parent lookup succeeds on the kernel's stat layout: the parent pid
   * is read from field 3, and the parent's own `ps` row is returned.
   */
  lemma ParentSampleOfStat(pid: uint32, comm: string, state: string, ppid: uint32, header: string, name: string,
                           cpu: nat, statOf: uint32 -> Option<string>, psOf: uint32 -> Option<string>)
    requires comm != [] && NoWhitespace(comm) && state != [] && NoWhitespace(state)
    requires name != [] && NoWhitespace(name) && NoNewline(header)
    requires statOf(pid) == Some(JoinWords([NatToString(pid), comm, state, NatToString(ppid)]))
    requires psOf(ppid) == Some(JoinLines([header, FormatPsRow(ppid, name, cpu, [])]))
    ensures ParentSample(pid, statOf, psOf) == Some(CpuSample(name, ppid, cpu as real))
  {
    var fields := [NatToString(pid), comm, state, NatToString(ppid)];
    assert fields + [] == fields;
    ParentPidOfStat(pid, comm, state, ppid, []);
    var row := FormatPsRow(ppid, name, cpu, []);
    assert [header, row] + [] == [header, row];
    FormattedRowHasNoNewline(ppid, name, cpu);
    FirstRowSampleOfListing(header, row, []);
    ParsePsRowOfFormatted(ppid, name, cpu, []);
  }

  predicate IsBrowserHelper(name: string) {
    name == "Web" || name == "GPU"
  }

  /**
   * A helper named exactly "Web" or "GPU" is replaced by its parent when the
   * parent lookup succeeds and kept otherwise; no other name is replaced.
   */
  function Attribute(s: CpuSample, statOf: uint32 -> Option<string>, psOf: uint32 -> Option<string>): (r: CpuSample)
    ensures !IsBrowserHelper(s.name) ==> r == s
    ensures IsBrowserHelper(s.name) ==> r == ParentSample(s.pid, statOf, psOf).GetOr(s)
  {
    if IsBrowserHelper(s.name) then
      match ParentSample(s.pid, statOf, psOf)
      case Some(parent) => parent
      case None => s
    else s
  }

  /** A "Web" or "GPU" helper whose parent can be looked up is reported as that parent. */
  lemma HelperIsAttributedToParent(s: CpuSample, comm: string, state: string, ppid: uint32, header: string,
                                   name: string, cpu: nat, statOf: uint32 -> Option<string>,
                                   psOf: uint32 -> Option<string>)
    requires IsBrowserHelper(s.name)
    requires comm != [] && NoWhitespace(comm) && state != [] && NoWhitespace(state)
    requires name != [] && NoWhitespace(name) && NoNewline(header)
    requires statOf(s.pid) == Some(JoinWords([NatToString(s.pid), comm, state, NatToString(ppid)]))
    requires psOf(ppid) == Some(JoinLines([header, FormatPsRow(ppid, name, cpu, [])]))
    ensures Attribute(s, statOf, psOf) == CpuSample(name, ppid, cpu as real)
  {
    ParentSampleOfStat(s.pid, comm, state, ppid, header, name, cpu, statOf, psOf);
  }

  /**
   * The probe `get_top_cpu`: `psOutput` is the output of the sorted `ps`
   * listing (None when it could not be run). A missing or malformed first
   * row yields nothing, with no fallback to later rows.
   */
  function TopCpu(psOutput: Option<string>, statOf: uint32 -> Option<string>, psOf: uint32 -> Option<string>): (r: Option<CpuSample>)
    ensures r.Some? <==> psOutput.Some? && FirstRowSample(psOutput.value).Some?
    ensures r.Some? ==> r.value == Attribute(FirstRowSample(psOutput.value).value, statOf, psOf)
  {
    match psOutput
    case None => None
    case Some(out) =>
      match FirstRowSample(out)
      case None => None
      case Some(s) => Some(Attribute(s, statOf, psOf))
  }

  /** Rows after the first data row never change what the probe returns. */
  lemma TopCpuReadsOnlyFirstRow(header: string, row: string, rest: seq<string>,
                                statOf: uint32 -> Option<string>, psOf: uint32 -> Option<string>)
    requires NoNewline(header) && NoNewline(row)
    requires forall k :: 0 <= k < |rest| ==> NoNewline(rest[k])
    ensures TopCpu(Some(JoinLines([header, row] + rest)), statOf, psOf)
         == TopCpu(Some(JoinLines([header, row])), statOf, psOf)
  {
    FirstRowSampleOfListing(header, row, rest);
    FirstRowSampleOfListing(header, row, []);
    assert [header, row] + [] == [header, row];
  }

  /** The busiest process of a well-formed listing is reported as printed, unless it is a browser helper. */
  lemma TopCpuOfListing(header: string, pid: uint32, name: string, cpu: nat, rest: seq<string>,
                        statOf: uint32 -> Option<string>, psOf: uint32 -> Option<string>)
    requires NoNewline(header) && name != [] && NoWhitespace(name) && !IsBrowserHelper(name)
    requires forall k :: 0 <= k < |rest| ==> NoNewline(rest[k])
    ensures TopCpu(Some(JoinLines([header, FormatPsRow(pid, name, cpu, [])] + rest)), statOf, psOf)
         == Some(CpuSample(name, pid, cpu as real))
  {
    var row := FormatPsRow(pid, name, cpu, []);
    FormattedRowHasNoNewline(pid, name, cpu);
    FirstRowSampleOfListing(header, row, rest);
    ParsePsRowOfFormatted(pid, name, cpu, []);
    assert RowSample(row) == Some(CpuSample(name, pid, cpu as real));
  }

  /** With the `/proc/<pid>/stat` layout "pid (comm) state ppid ...", the parent pid is read back. */
  lemma ParentPidOfStat(pid: uint32, comm: string, state: string, ppid: uint32, rest: seq<string>)
    requires comm != [] && NoWhitespace(comm) && state != [] && NoWhitespace(state)
    requires forall k :: 0 <= k < |rest| ==> rest[k] != [] && NoWhitespace(rest[k])
    ensures ParentPid(JoinWords([NatToString(pid), comm, state, NatToString(ppid)] + rest)) == Some(ppid)
  {
    NatToStringIsWord(pid);
    NatToStringIsWord(ppid);
    WordsOfJoined([NatToString(pid), comm, state, NatToString(ppid)] + rest);
    ParseUnsignedOfNatToString(ppid, UINT32_LIMIT);
  }

  /**
   * A command name with a space ("(Web Content)") moves the state letter
   * into field 3, so no parent pid is found and the helper is kept.
   */
  lemma ParentPidOfSpacedComm(pid: uint32, comm1: string, comm2: string, state: string, ppid: uint32)
    requires comm1 != [] && NoWhitespace(comm1) && comm2 != [] && NoWhitespace(comm2)
    requires state != [] && NoWhitespace(state) && ParseUint32(state).None?
    ensures ParentPid(JoinWords([NatToString(pid), comm1, comm2, state, NatToString(ppid)])) == None
  {
    NatToStringIsWord(pid);
    NatToStringIsWord(ppid);
    WordsOfJoined([NatToString(pid), comm1, comm2, state, NatToString(ppid)]);
  }

  // ---------------------------------------------------------------------------
  // Detector

  /** A tick is a hit when the probe returned a sample whose cpu is strictly above the threshold. */
  function CpuPick(threshold: real): Option<CpuSample> -> Option<CpuSample> {
    (tick: Option<CpuSample>) => if tick.Some? && tick.value.cpu > threshold then tick else None
  }

  /**
   * `detect_sustained_high_cpu`: `ticks[i]` is what the probe returned at
   * tick `i` (the window has `|ticks|` samples; the one-second sleeps do not
   * affect the result).
   */
  method DetectSustainedHighCpu(threshold: real, ticks: seq<Option<CpuSample>>, minHits: nat)
    returns (r: Option<CpuSample>)
    ensures r == Sustained.Verdict(ticks, CpuPick(threshold), minHits)
    ensures r.Some? ==> r.value.cpu > threshold && r in ticks
  {
    ghost var pick := CpuPick(threshold);
    var hits := 0;
    var last: Option<CpuSample> := None;
    var i := 0;
    while i < |ticks|
      invariant 0 <= i <= |ticks|
      invariant hits == Sustained.Hits(ticks[..i], pick)
      invariant last == Sustained.LastHit(ticks[..i], pick)
    {
      Sustained.Step(ticks, pick, i);
      if ticks[i].Some? {
        var sample := ticks[i].value;
        if sample.cpu > threshold {
          hits := hits + 1;
          last := Some(sample);
        }
      }
      i := i + 1;
    }
    assert ticks[..i] == ticks;
    if hits >= minHits {
      r := last;
    } else {
      r := None;
    }
    if r.Some? {
      Sustained.LastHitIsLatest(ticks, pick);
    }
  }

  /** Scenario: cpu readings 10, 25, 30, 15, 40 against 20 with three hits required report the reading 40. */
  lemma ThreeOfFiveReportsLatest(a: CpuSample, b: CpuSample, c: CpuSample, d: CpuSample, e: CpuSample)
    requires a.cpu == 10.0 && b.cpu == 25.0 && c.cpu == 30.0 && d.cpu == 15.0 && e.cpu == 40.0
    ensures Sustained.Verdict([Some(a), Some(b), Some(c), Some(d), Some(e)], CpuPick(20.0), 3) == Some(e)
  {
    var pick := CpuPick(20.0);
    var t1 := [Some(a)];
    var t2 := t1 + [Some(b)];
    var t3 := t2 + [Some(c)];
    var t4 := t3 + [Some(d)];
    var t5 := t4 + [Some(e)];
    assert t1[..0] == [] && t2[..1] == t1 && t3[..2] == t2 && t4[..3] == t3 && t5[..4] == t4;
    assert Sustained.Hits(t1, pick) == 0;
    assert Sustained.Hits(t2, pick) == 1;
    assert Sustained.Hits(t3, pick) == 2;
    assert Sustained.Hits(t4, pick) == 2;
    assert Sustained.Hits(t5, pick) == 3;
    assert Sustained.LastHit(t5, pick) == Some(e);
    assert t5 == [Some(a), Some(b), Some(c), Some(d), Some(e)];
  }
}
