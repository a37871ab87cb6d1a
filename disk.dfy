/**
 * The disk probe and detector of why-linux/src/disk.rs.
 *
 * The probe reads the table printed by `df -P` (an input here, None when
 * the command failed): it skips the header line and every line with fewer
 * than six fields, reads the capacity column (index 4) without its trailing
 * '%' signs, and keeps the fullest mount, the earliest one on a tie.
 */
module Disk {
  import opened Wrappers
  import opened Text
  import Sustained

  datatype DiskSample = DiskSample(fs: string, mount: string, usedPercent: real)

  /** What one data line of the table contributes. */
  datatype RowReading = Skipped | Unparseable | Reading(sample: DiskSample)

  function ReadDfRow(line: string): RowReading {
    var ws := Words(line);
    if |ws| < 6 then Skipped
    else
      match ParseFloat(TrimEndMatches(ws[4], '%'))
      case None => Unparseable
      case Some(percent) => Reading(DiskSample(ws[0], ws[5], percent))
  }

  /** The running choice: the earlier sample stays unless the new one is strictly fuller. */
  function KeepFullest(best: Option<DiskSample>, s: DiskSample): Option<DiskSample> {
    if best.Some? && best.value.usedPercent >= s.usedPercent then best else Some(s)
  }

  /** The scan state: aborted by an unparseable capacity, or the fullest mount so far. */
  datatype DfScan = Aborted | Scanned(best: Option<DiskSample>)

  /** What each data row contributes, in order. */
  function ReadDfRows(rows: seq<string>): (readings: seq<RowReading>)
    ensures |readings| == |rows|
    ensures forall j :: 0 <= j < |rows| ==> readings[j] == ReadDfRow(rows[j])
  {
    seq(|rows|, j requires 0 <= j < |rows| => ReadDfRow(rows[j]))
  }

  /** The scan over the readings of the data rows, first to last. */
  function ScanReadings(readings: seq<RowReading>): DfScan {
    if readings == [] then Scanned(None)
    else
      match ScanReadings(readings[..|readings| - 1])
      case Aborted => Aborted
      case Scanned(best) =>
        match readings[|readings| - 1]
        case Skipped => Scanned(best)
        case Unparseable => Aborted
        case Reading(s) => Scanned(KeepFullest(best, s))
  }

  function TopMount(dfOutput: Option<string>): Option<DiskSample> {
    match dfOutput
    case None => None
    case Some(out) =>
      var ls := Lines(out);
      if ls == [] then None
      else
        match ScanReadings(ReadDfRows(ls[1..]))
        case Aborted => None
        case Scanned(best) => best
  }

  /**
   * `get_top_mount_usage`: walks the lines, skipping the header, and stops
   * with nothing at the first unparseable capacity.
   */
  method TopMountUsage(dfOutput: Option<string>) returns (r: Option<DiskSample>)
    ensures r == TopMount(dfOutput)
  {
    if dfOutput.None? {
      return None;
    }
    var lines := Lines(dfOutput.value);
    if lines == [] {
      return None;
    }
    ghost var readings := ReadDfRows(lines[1..]);
    ghost var scanned := 0;  // data rows scanned so far
    var best: Option<DiskSample> := None;
    assert readings[..0] == [];
    var i := 0;
    while i < |lines|
      invariant 0 <= i <= |lines|
      invariant scanned == if i == 0 then 0 else i - 1
      invariant ScanReadings(readings[..scanned]) == Scanned(best)
    {
      if i == 0 {
        i := i + 1;
        continue;
      }
      ScanStep(readings, scanned);
      var reading := ReadDfRow(lines[i]);
      assert lines[1..][scanned] == lines[i];
      assert readings[scanned] == reading;
      match reading {
        case Skipped =>
        case Unparseable =>
          AbortedScanStaysAborted(readings, scanned + 1);
          return None;
        case Reading(sample) =>
          if best.Some? && best.value.usedPercent >= sample.usedPercent {
          } else {
            best := Some(sample);
          }
      }
      scanned := scanned + 1;
      i := i + 1;
    }
    assert readings[..scanned] == readings;
    return best;
  }

  /** One more row of the scan. */
  lemma ScanStep(readings: seq<RowReading>, k: nat)
    requires k < |readings|
    ensures ScanReadings(readings[..k + 1]) == match ScanReadings(readings[..k])
      case Aborted => Aborted
      case Scanned(best) =>
        match readings[k]
        case Skipped => Scanned(best)
        case Unparseable => Aborted
        case Reading(s) => Scanned(KeepFullest(best, s))
  {
    assert readings[..k + 1][..k] == readings[..k];
  }

  lemma {:induction false} AbortedScanStaysAborted(readings: seq<RowReading>, k: nat)
    requires k <= |readings| && ScanReadings(readings[..k]) == Aborted
    ensures ScanReadings(readings) == Aborted
    decreases |readings| - k
  {
    if k < |readings| {
      assert readings[..k + 1][..k] == readings[..k];
      AbortedScanStaysAborted(readings, k + 1);
    } else {
      assert readings[..k] == readings;
    }
  }

  predicate IsReading(readings: seq<RowReading>, j: int) {
    0 <= j < |readings| && readings[j].Reading?
  }

  /** Reading `i` is the fullest accepted row, and every earlier accepted row is strictly less full. */
  ghost predicate IsFullest(readings: seq<RowReading>, i: int) {
    && IsReading(readings, i)
    && (forall j :: IsReading(readings, j) ==> readings[j].sample.usedPercent <= readings[i].sample.usedPercent)
    && (forall j :: j < i && IsReading(readings, j) ==> readings[j].sample.usedPercent < readings[i].sample.usedPercent)
  }

  /** The scan aborts exactly when some data row has an unparseable capacity. */
  lemma {:induction false} ScanAbortsOnUnparseable(readings: seq<RowReading>)
    ensures ScanReadings(readings).Aborted? <==> exists j :: 0 <= j < |readings| && readings[j].Unparseable?
  {
    if readings != [] {
      var n := |readings| - 1;
      var front := readings[..n];
      ScanAbortsOnUnparseable(front);
      assert forall j :: 0 <= j < n ==> readings[j] == front[j];
    }
  }

  /** The scan finds nothing (and does not abort) exactly when every data row was skipped. */
  lemma {:induction false} ScanEmptyWhenAllSkipped(readings: seq<RowReading>)
    ensures ScanReadings(readings) == Scanned(None) <==> forall j :: 0 <= j < |readings| ==> readings[j].Skipped?
  {
    if readings != [] {
      var n := |readings| - 1;
      var front := readings[..n];
      ScanEmptyWhenAllSkipped(front);
      assert forall j :: 0 <= j < n ==> readings[j] == front[j];
    }
  }

  lemma FullestSurvivesRow(front: seq<RowReading>, next: RowReading, i: int)
    requires IsFullest(front, i)
    requires next.Reading? ==> next.sample.usedPercent <= front[i].sample.usedPercent
    ensures IsFullest(front + [next], i)
  {
    var readings := front + [next];
    assert forall j :: 0 <= j < |front| ==> readings[j] == front[j];
  }

  lemma NewRowIsFullest(front: seq<RowReading>, next: RowReading)
    requires next.Reading?
    requires forall j :: IsReading(front, j) ==> front[j].sample.usedPercent < next.sample.usedPercent
    ensures IsFullest(front + [next], |front|)
  {
    var readings := front + [next];
    assert forall j :: 0 <= j < |front| ==> readings[j] == front[j];
  }

  /** When the scan finds a mount, it is the fullest accepted row, the earliest on a tie. */
  lemma {:induction false} ScanFindsFullest(readings: seq<RowReading>)
    requires ScanReadings(readings).Scanned? && ScanReadings(readings).best.Some?
    ensures exists i :: IsFullest(readings, i) && readings[i].sample == ScanReadings(readings).best.value
  {
    var n := |readings| - 1;
    var front, next := readings[..n], readings[n];
    assert readings == front + [next];
    var best := ScanReadings(front).best;
    match next {
      case Skipped =>
        ScanFindsFullest(front);
        var i :| IsFullest(front, i) && front[i].sample == best.value;
        FullestSurvivesRow(front, next, i);
      case Reading(s) =>
        if best.Some? {
          ScanFindsFullest(front);
          var i :| IsFullest(front, i) && front[i].sample == best.value;
          if best.value.usedPercent >= s.usedPercent {
            FullestSurvivesRow(front, next, i);
          } else {
            NewRowIsFullest(front, next);
          }
        } else {
          ScanEmptyWhenAllSkipped(front);
          NewRowIsFullest(front, next);
        }
    }
  }

  /** The first line of the table is a header and never contributes, whatever it holds. */
  lemma HeaderIsIgnored(header1: string, header2: string, rows: seq<string>)
    requires NoNewline(header1) && NoNewline(header2)
    requires forall k :: 0 <= k < |rows| ==> NoNewline(rows[k])
    ensures TopMount(Some(JoinLines([header1] + rows))) == TopMount(Some(JoinLines([header2] + rows)))
  {
    LinesAfterFirst(header1, rows);
    LinesAfterFirst(header2, rows);
    SameDataRows(JoinLines([header1] + rows), JoinLines([header2] + rows));
  }

  lemma SameDataRows(out1: string, out2: string)
    requires Lines(out1) != [] && Lines(out2) != [] && Lines(out1)[1..] == Lines(out2)[1..]
    ensures TopMount(Some(out1)) == TopMount(Some(out2))
  {
  }

  /**
   * The probe reports nothing exactly when `df` failed, printed nothing, some
   * data row had an unparseable capacity, or no data row had six fields; when
   * it reports a mount, that is the fullest data row, the earliest on a tie.
   */
  lemma TopMountMeaning(dfOutput: Option<string>)
    ensures TopMount(dfOutput).None? <==>
      || dfOutput.None?
      || Lines(dfOutput.value) == []
      || (exists j :: 0 <= j < |ReadDfRows(Lines(dfOutput.value)[1..])| && ReadDfRows(Lines(dfOutput.value)[1..])[j].Unparseable?)
      || (forall j :: 0 <= j < |ReadDfRows(Lines(dfOutput.value)[1..])| ==> ReadDfRows(Lines(dfOutput.value)[1..])[j].Skipped?)
    ensures TopMount(dfOutput).Some? ==>
      exists i :: IsFullest(ReadDfRows(Lines(dfOutput.value)[1..]), i)
               && ReadDfRows(Lines(dfOutput.value)[1..])[i].sample == TopMount(dfOutput).value
  {
    if dfOutput.Some? && Lines(dfOutput.value) != [] {
      var readings := ReadDfRows(Lines(dfOutput.value)[1..]);
      ScanAbortsOnUnparseable(readings);
      ScanEmptyWhenAllSkipped(readings);
      if TopMount(dfOutput).Some? {
        ScanFindsFullest(readings);
      }
    }
  }

  /** A table row as `df -P` prints it, with a whole-number capacity. */
  function FormatDfRow(fs: string, blocks: nat, used: nat, available: nat, capacity: nat, mount: string): string {
    JoinWords([fs, NatToString(blocks), NatToString(used), NatToString(available), NatToString(capacity) + "%", mount])
  }

  lemma TrimPercentOfNumeral(n: nat)
    ensures TrimEndMatches(NatToString(n) + "%", '%') == NatToString(n)
  {
    var s := NatToString(n);
    assert (s + "%")[..|s + "%"| - 1] == s;
    assert IsDigit(s[|s| - 1]);
  }

  /** A printed row is read back as its file system, mount point and capacity. */
  lemma ReadDfRowOfFormatted(fs: string, blocks: nat, used: nat, available: nat, capacity: nat, mount: string)
    requires fs != [] && NoWhitespace(fs) && mount != [] && NoWhitespace(mount)
    ensures ReadDfRow(FormatDfRow(fs, blocks, used, available, capacity, mount))
         == Reading(DiskSample(fs, mount, capacity as real))
  {
    var cap := NatToString(capacity) + "%";
    NatToStringIsWord(blocks);
    NatToStringIsWord(used);
    NatToStringIsWord(available);
    NatToStringIsWord(capacity);
    assert NoWhitespace(cap) by {
      forall i | 0 <= i < |cap| ensures !IsWhitespace(cap[i]) {
        if i < |cap| - 1 {
          assert cap[i] == NatToString(capacity)[i];
        }
      }
    }
    var ws := [fs, NatToString(blocks), NatToString(used), NatToString(available), cap, mount];
    WordsOfJoined(ws);
    TrimPercentOfNumeral(capacity);
    ParseFloatOfNatToString(capacity);
  }

  // ---------------------------------------------------------------------------
  // Detector

  /** A tick is a hit when the probe returned a mount strictly fuller than the threshold. */
  function DiskPick(threshold: real): Option<DiskSample> -> Option<DiskSample> {
    (tick: Option<DiskSample>) => if tick.Some? && tick.value.usedPercent > threshold then tick else None
  }

  /** `detect_sustained_high_disk`: `ticks[i]` is what the probe returned at tick `i`. */
  method DetectSustainedHighDisk(threshold: real, ticks: seq<Option<DiskSample>>, minHits: nat)
    returns (r: Option<DiskSample>)
    ensures r == Sustained.Verdict(ticks, DiskPick(threshold), minHits)
    ensures r.Some? ==> r.value.usedPercent > threshold && r in ticks
  {
    ghost var pick := DiskPick(threshold);
    var hits := 0;
    var last: Option<DiskSample> := None;
    var i := 0;
    while i < |ticks|
      invariant 0 <= i <= |ticks|
      invariant hits == Sustained.Hits(ticks[..i], pick)
      invariant last == Sustained.LastHit(ticks[..i], pick)
    {
      Sustained.Step(ticks, pick, i);
      if ticks[i].Some? {
        var sample := ticks[i].value;
        if sample.usedPercent > threshold {
          hits := hits + 1;
          last := Some(sample);
        }
      }
      i := i + 1;
    }
    assert ticks[..i] == ticks;
    if hits >= minHits {
      r := last;
    } else {
      r := None;
    }
    if r.Some? {
      Sustained.LastHitIsLatest(ticks, pick);
    }
  }
}
