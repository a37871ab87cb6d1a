# why-linux: sustained-usage detectors, modelled in Dafny

why-linux watches a Linux machine for a while and reports the process
behind sustained high CPU, memory, disk or I/O usage, with a short
explanation for some well-known process names. This project models its
detection core:

- the probes that read `ps`, `df`, `/proc/meminfo`, `/proc/<pid>/stat` and
  `/proc/<pid>/io` output;
- the four detectors that sample a probe once per tick and keep the last
  qualifying sample;
- the I/O detector's candidate selection, per-tick delta bookkeeping and
  final choice;
- the explanation lookup.

Layout (one module per file):

- `wrappers.dfy`: `Option`.
- `text.dfy`: the parts of Rust's `str` the probes use. These are
  `lines`, `split_whitespace`, `trim`, `trim_end_matches`, `strip_prefix`,
  `starts_with`, and `parse` for `u32`, `u64` and `f32`. Formatting
  functions come with round-trip lemmas.
- `sustained.dfy`: the rule shared by the detectors. Given a sequence of
  ticks and a per-tick pick, it counts the hits, finds the latest hit,
  and reports that hit when there were at least `min_hits` hits.
- `ps.dfy`: the `pid comm value` row of `ps` output, shared by the CPU and
  memory probes.
- `cpu.dfy`, `mem.dfy`, `disk.dfy`, `io.dfy`, `explain.dfy`: one file per
  source file.

Operating-system access becomes input:

- a command's output or a file's text is an `Option<string>`, where `None`
  means spawning the command or reading the file failed;
- the results of a probe over a window of `samples` ticks are a sequence
  with one element per tick;
- the parent lookup of the CPU probe takes functions from a pid to the
  text of its `stat` file and to the output of `ps -p`;
- the I/O detector takes the pid listings as sequences. The counters
  `read_proc_io` returned at each reading are maps from pid, and so are
  the `comm` texts. A pid for which the read failed is absent.

Each detector method is a loop. Each is proved equal to a specification
function, and properties are proved about those functions. The CPU, memory
and disk detectors are proved equal to `Sustained.Verdict`. The I/O
detector's per-pid hit counts and `last_seen` entries are proved to follow
the same rule (`Io.RunTicksAtPid`).

## Model

| member | source | states |
|---|---|---|
| Sustained.Hits | why-linux/src/cpu.rs:76-85 | The hit count of a window never exceeds the number of samples. |
| Sustained.LastHit | why-linux/src/cpu.rs:74-81 | A last sample exists exactly when at least one tick was a hit. |
| Sustained.Verdict | why-linux/src/cpu.rs:87-91 | A sample is reported iff hits >= min_hits and at least one hit occurred, so min_hits = 0 with no hit reports nothing. min_hits above the number of samples never reports. |
| Sustained.HitsCountsHitTicks | why-linux/src/cpu.rs:76-85 | The counter equals the number of tick positions that were hits. |
| Sustained.LastHitIsLatest | why-linux/src/cpu.rs:78-81 | The reported sample is a hit after which no tick was a hit. |
| Sustained.LatestHitIsReported | why-linux/src/cpu.rs:78-81 | Conversely, the hit after which no tick was a hit is the one reported, never an earlier one. |
| Sustained.HitsOfAppend | why-linux/src/cpu.rs:76-85 | Hit count and last hit of two consecutive stretches of ticks compose: counts add, and the later stretch's last hit wins. |
| Sustained.MissedTickIsSkipped | why-linux/src/cpu.rs:77-82 | A tick that is not a hit (no sample, or not above the threshold) can be removed without changing the verdict: it is skipped, not fatal. |
| Sustained.HitsDominated | why-linux/src/io.rs:104-110 | A pick that is a hit wherever another is counts at least as many hits. |
| Text.LinesOfJoined | why-linux/src/disk.rs:18 | `lines()` gives back the lines of a newline-terminated text. |
| Text.WordsOfJoined | why-linux/src/disk.rs:23 | `split_whitespace()` gives back the words of a single-spaced text. |
| Text.ParseUnsignedOfNatToString | why-linux/src/cpu.rs:25 | An integer parse of a printed number gives back the number when it fits the type. |
| Text.ParseFloatOfNatToString | why-linux/src/cpu.rs:27 | The `f32` parse of a printed whole number gives back the number. |
| PsOutput.ParsePsRow | why-linux/src/cpu.rs:23-27 | A row parses iff it has at least three fields, the first a `u32` and the third an `f32`. The sample is then those values with the second field as name. |
| PsOutput.ParsePsRowOfFormatted | why-linux/src/cpu.rs:23-27 | A `ps` row printed as pid, name, value and any further fields is read back as that pid, name and value. |
| PsOutput.SpacedNameIsRejected | why-linux/src/cpu.rs:25-27 | A command name containing a space pushes a non-number into the value field, and the whole row is rejected. |
| Cpu.FirstRowSampleOfListing | why-linux/src/cpu.rs:19-27 | The probe's sample comes from the second line of the listing: the header is skipped and later rows are ignored. |
| Cpu.TopCpuReadsOnlyFirstRow | why-linux/src/cpu.rs:19-22 | Rows after the first data row never change the probe's result. |
| Cpu.TopCpuOfListing | why-linux/src/cpu.rs:12-38 | The busiest process of a well-formed listing is reported with its pid, name and cpu, unless it is a browser helper. |
| Cpu.TopCpu | why-linux/src/cpu.rs:12-39 | The probe returns a sample exactly when `ps` ran and its first data row parses, with no fallback to later rows. That sample is the row after browser-helper attribution. |
| Cpu.Attribute | why-linux/src/cpu.rs:31-36 | A sample named exactly "Web" or "GPU" becomes its parent's sample when the lookup succeeds and stays unchanged otherwise. No other name is replaced. |
| Cpu.HelperIsAttributedToParent | why-linux/src/cpu.rs:31-36 | A "Web" or "GPU" helper whose stat names a parent, and whose parent has a `ps` row, is reported as the parent's pid, name and cpu. |
| Cpu.ParentPid | why-linux/src/cpu.rs:44-47 | A parent pid exists only when the stat text has at least four fields and field 3 parses as `u32`, and then it is that value. |
| Cpu.ParentPidOfStat | why-linux/src/cpu.rs:44-47 | For the stat layout "pid (comm) state ppid …" the parent pid is read back. |
| Cpu.ParentPidOfSpacedComm | why-linux/src/cpu.rs:44-47 | A comm with a space shifts the state letter into field 3, so there is no parent pid. |
| Cpu.ParentSample | why-linux/src/cpu.rs:41-66 | A parent sample exists only when the stat file was read, its field 3 gives a parent pid, and `ps` for that pid ran. It is then the first data row of that listing. |
| Cpu.ParentSampleOfStat | why-linux/src/cpu.rs:41-66 | With the kernel's stat layout and a well-formed `ps` listing for the parent, the lookup returns that parent's pid, name and cpu. |
| Cpu.DetectSustainedHighCpu | why-linux/src/cpu.rs:68-92 | The loop computes the sustained verdict with hits = cpu strictly above the threshold. A reported sample is above the threshold and is one of the probe's results. |
| Cpu.ThreeOfFiveReportsLatest | why-linux/src/main.rs:11-15 | With main's settings (threshold 20, 5 samples, 3 hits), readings 10, 25, 30, 15, 40 report the reading 40. |
| Mem.SystemMemFigures | why-linux/src/mem.rs:15-31 | The meminfo loop computes the key scan. An unreadable file gives nothing. |
| Mem.AbortedScanStaysAborted | why-linux/src/mem.rs:22-26 | Once a key line without a value has aborted the scan, later lines do not matter. |
| Mem.KeysAreExclusive | why-linux/src/mem.rs:21-24 | No line starts with both keys, so the `else if` never hides a key. |
| Mem.ScanMatchesLastKeys | why-linux/src/mem.rs:20-28 | The scan aborts iff some key line has no second field. Otherwise each figure is the value on the last line with its key, a later unparseable value included. |
| Mem.FiguresNeedBothKeys | why-linux/src/mem.rs:30-31 | Figures are returned only when both `MemTotal:` and `MemAvailable:` were found with parseable values, and they are those values. |
| Mem.KeyLineFields | why-linux/src/mem.rs:21-23 | A kernel-style line "Key: n kB" starts with its key and carries n in field 1. |
| Mem.FiguresOfKeyLines | why-linux/src/mem.rs:20-31 | A text made of a total line and an available line yields their two values. |
| Mem.FiguresOfMemInfo | why-linux/src/mem.rs:15-31 | "MemTotal: t kB" and "MemAvailable: a kB" yield (t, a). |
| Mem.TopMemExcluding | why-linux/src/mem.rs:38-70 | The row loop returns the first data row whose pid is not the excluded one. The result is never the excluded pid. Its used percent is the system figure, or the row's own mem when that figure is missing. |
| Mem.FirstNotExcludedIsFirst | why-linux/src/mem.rs:48-66 | The reported row is preceded only by well-formed rows carrying the excluded pid. |
| Mem.MalformedRowAbortsScan | why-linux/src/mem.rs:50-52 | A malformed row met before any non-excluded row ends the scan with nothing instead of being skipped. |
| Mem.FirstNotExcludedFinds | why-linux/src/mem.rs:48-66 | A well-formed row with another pid, preceded only by well-formed excluded rows, is the row reported, with its name, pid and mem. |
| Mem.AllExcludedGivesNothing | why-linux/src/mem.rs:48-69 | A listing whose every row is well-formed and carries the excluded pid reports nothing. |
| Mem.DetectSustainedHighMem | why-linux/src/mem.rs:72-100 | The loop computes the sustained verdict. A hit needs a system figure strictly above the threshold and a sample from the probe. A reported sample comes from such a tick. |
| Mem.ReportedTickIsHigh | why-linux/src/mem.rs:83-88 | A reported sample is the probe's result at a tick whose system figure was available and strictly above the threshold. |
| Mem.NothingBelowThreshold | why-linux/src/mem.rs:83-84 | If the system figure is never available above the threshold, nothing is reported, whatever min_hits is. |
| Disk.TopMountUsage | why-linux/src/disk.rs:13-48 | The df loop computes the scan of the data rows. The header is skipped, and the first unparseable capacity returns nothing. |
| Disk.AbortedScanStaysAborted | why-linux/src/disk.rs:33 | After an unparseable capacity the scan's result no longer depends on later rows. |
| Disk.ScanAbortsOnUnparseable | why-linux/src/disk.rs:30-33 | The scan aborts exactly when some data row with six fields has a capacity that does not parse after its trailing '%' signs are stripped. |
| Disk.ScanEmptyWhenAllSkipped | why-linux/src/disk.rs:16-47 | The scan finds nothing and does not abort exactly when every data row has fewer than six fields. |
| Disk.FullestSurvivesRow | why-linux/src/disk.rs:41-44 | A row that is not strictly fuller leaves the fullest row in place. |
| Disk.NewRowIsFullest | why-linux/src/disk.rs:41-44 | A row strictly fuller than all before it becomes the fullest. |
| Disk.ScanFindsFullest | why-linux/src/disk.rs:41-44 | A found mount is the fullest accepted row, and every earlier accepted row is strictly less full, so ties keep the earliest row. |
| Disk.HeaderIsIgnored | why-linux/src/disk.rs:18-21 | Line 0 never contributes, whatever it holds. |
| Disk.TopMountMeaning | why-linux/src/disk.rs:13-48 | The probe reports nothing exactly when df failed, printed nothing, a capacity was unparseable, or no data row had six fields. Otherwise it reports the fullest row, earliest on a tie. |
| Disk.TrimPercentOfNumeral | why-linux/src/disk.rs:33 | `trim_end_matches('%')` removes the percent sign of a printed capacity. |
| Disk.ReadDfRowOfFormatted | why-linux/src/disk.rs:23-39 | A `df -P` row is read as file system (field 0), mount (field 5) and capacity (field 4 without '%'). |
| Disk.DetectSustainedHighDisk | why-linux/src/disk.rs:50-70 | The loop computes the sustained verdict with hits = used percent strictly above the threshold. A reported sample is above it and is one of the probe's results. |
| Io.ReadProcIo | why-linux/src/io.rs:15-30 | The loop computes the key scan. Counters are returned only when both keys have a value. An unreadable file gives nothing. |
| Io.KeysAreExclusive | why-linux/src/io.rs:22-24 | No line starts with both `read_bytes:` and `write_bytes:`. |
| Io.ScanMatchesLastKeys | why-linux/src/io.rs:21-27 | Each counter is the trimmed `u64` after the last line with its key. A later line overrides an earlier one, even when its value does not parse. |
| Io.ProcIoCountersMeaning | why-linux/src/io.rs:29 | Counters exist iff the last line of both keys carries a `u64`, and they are those values. |
| Io.LaterUnparseableValueResets | why-linux/src/io.rs:22-25 | A final key line with an unparseable value leaves the process without counters, whatever came before. |
| Io.ScanOfKeyLines | why-linux/src/io.rs:21-27 | Lines ending in a read key line, a write key line and one other line yield the values of those two key lines. |
| Io.ProcIoCountersOfText | why-linux/src/io.rs:15-30 | The kernel's seven-line io text gives back its `read_bytes` and `write_bytes` counts. |
| Io.NameOf | why-linux/src/io.rs:46-50 | The name is the trimmed `comm` text, or "?" when that file cannot be read. |
| Io.NameOfCommFile | why-linux/src/io.rs:46-50 | A `comm` file holding one word and a newline gives that word. |
| Io.SatAdd | why-linux/src/io.rs:71 | The sum is at least each operand and at most their true sum. It equals the true sum exactly when that fits in `u64`. |
| Io.Totals | why-linux/src/io.rs:69-73 | Every pushed total belongs to a listed pid whose counters were read, and is the saturating sum of its two counters. |
| Io.TotalsCoverScannedPids | why-linux/src/io.rs:69-73 | Every listed pid whose counters were read has its total pushed. |
| Io.TotalsHaveDistinctPids | why-linux/src/io.rs:69-73 | A listing without repeated pids pushes no pid twice. |
| Io.InsertByTotal | why-linux/src/io.rs:76 | Inserting keeps every entry and adds exactly one. |
| Io.InsertKeepsSorted | why-linux/src/io.rs:76 | Inserting into a descending sequence keeps it descending. |
| Io.SortByTotal | why-linux/src/io.rs:76 | The sort is a permutation of the totals and is in descending order of total. |
| Io.InsertKeepsPidsDistinct | why-linux/src/io.rs:76 | Inserting a new pid keeps the pids distinct. |
| Io.SortKeepsPidsDistinct | why-linux/src/io.rs:76 | Sorting keeps the pids distinct. |
| Io.TopPids | why-linux/src/io.rs:77-79 | At most 64 pids are taken (all of them when there are fewer), in sorted order. |
| Io.ScanTotals | why-linux/src/io.rs:67-73 | The scan loop pushes exactly the totals. |
| Io.SelectCandidates | why-linux/src/io.rs:66-84 | Candidate selection computes the top totals, or the second listing when none was pushed. |
| Io.CandidatesFallBack | why-linux/src/io.rs:81-84 | The second listing is used when no listed pid had its counters read. Otherwise the candidates are 1 to 64 pids from the sorted totals. |
| Io.SortedEntriesAreTotals | why-linux/src/io.rs:76 | Each sorted entry is the total of a listed pid whose counters were read. |
| Io.LeftOutPidIsLater | why-linux/src/io.rs:76-79 | A scanned pid left out sits at position 64 or later of the sorted totals. |
| Io.CandidatesAreTop | why-linux/src/io.rs:75-79 | Candidates taken from the scan are listed pids with counters, in descending total, and no pid left out has a larger total than any candidate. |
| Io.CandidatesAreDistinct | why-linux/src/io.rs:66-84 | Listings without repeated pids give candidates without repeated pids. |
| Io.StartSnapshot | why-linux/src/io.rs:88-93 | The start snapshot holds exactly the candidates read at the start of this tick, with this tick's counters. |
| Io.TakeStartSnapshot | why-linux/src/io.rs:87-93 | The clear-and-fill loop builds that snapshot. |
| Io.ObserveTick | why-linux/src/io.rs:86-113 | One tick of the loop (snapshot, then deltas, `last_seen` and hits) computes the tick's new maps. |
| Io.ObservePidsAtPid | why-linux/src/io.rs:97-113 | For distinct candidates, the end pass changes a pid's count by one exactly on a hit, and replaces its `last_seen` entry exactly when a delta is non-zero. |
| Io.TickAtPid | why-linux/src/io.rs:86-113 | A tick changes a pid's entries only from counters read at both ends of that same tick. A non-zero saturating delta is recorded, and it is also one hit when it reaches a threshold. |
| Io.SatSub | why-linux/src/io.rs:101-102 | A delta never exceeds the new counter. It is non-zero iff the counter grew, and then it is the exact growth. |
| Io.RunTicksAtPid | why-linux/src/io.rs:86-114 | Per pid, the count is the number of hit ticks, and the pid has a count iff some tick was a hit. Its `last_seen` entry is from its latest tick with non-zero deltas. |
| Io.HitsNeverExceedTicks | why-linux/src/io.rs:86-114 | No count exceeds the number of samples. |
| Io.ObservePidsKeepsHitsSeen | why-linux/src/io.rs:104-110 | The end pass keeps every counted pid in `last_seen`. |
| Io.HitsAreSeen | why-linux/src/io.rs:104-110 | Every pid in `hits` has a `last_seen` entry. |
| Io.HitsAtMostSeen | why-linux/src/io.rs:104-110 | A pid's hit count is at most the number of ticks that recorded its deltas in `last_seen`. |
| Io.UnchangedCountersAreNoHit | why-linux/src/io.rs:101-110 | Counters that did not grow give zero saturating deltas, which are neither recorded nor a hit, even with zero thresholds. |
| Io.PickBest | why-linux/src/io.rs:116-135 | Nothing is reported iff no pid has enough hits and a `last_seen` entry. Otherwise the report is such a pid, with its latest deltas and name, and no qualifying pid has a larger read + write. |
| Io.DetectSustainedHighIo | why-linux/src/io.rs:52-136 | The whole detector: candidates, ticks and choice, with the result characterised as for the choice over the final maps. |
| Io.QualifiesBySustainedRule | why-linux/src/io.rs:116-128 | A pid qualifies iff the sustained rule over its hit ticks would report it, and its reported deltas are its latest recorded ones. min_hits above the number of samples reports nothing. |
| Io.UnchangedTickIsSkipped | why-linux/src/io.rs:98-110 | Dropping a tick in which a pid's counters did not grow changes neither whether it qualifies nor what it reports. |
| Explain.ExplainProcess | why-linux/src/explain.rs:1-27 | Each text is returned for exactly its names: "firefox"; "chromium" or "chrome"; "kworker"; the default text for every other name. |
| Explain.MatchIsExact | why-linux/src/explain.rs:2-25 | Matching is exact. "Firefox", "firefox ", "Chrome", "kworker/0:1", "disk" and "io" all get the default text. |

## Left out

- Running `ps` and `df`, reading `/proc` files and listing `/proc` (`all_pids`) are not modelled. Their results are inputs. So are the per-tick results of the probes the detectors call.
- The one-second sleeps (and the memory detector's `interval_secs`) do not affect any result and are not modelled.
- `f32` arithmetic is not modelled. Percentages are exact reals.
- `Text.ParseFloat` accepts a sign and plain decimal notation only. Exponents, "inf", "nan" and rounding to `f32` are not modelled.
- Mem.SystemMemFigures: stops at the two meminfo figures. The floating-point division `(total - available) / total * 100` is left out, so the detector takes each tick's used percentage as input.
- Io.PickBest: compares `read + write` as unbounded numbers. The `u64` addition in the source can overflow for deltas near 2^64, which panics in debug builds and wraps in release builds.
- Io.DetectSustainedHighIo: the same overflow applies here too.
- Io.PickBest: visits pids in an order the model leaves open, because the source uses hash-map order. The contract promises some maximal qualifying pid, not which one among equal sums.
- Io.HitsNeverExceedTicks, Io.RunTicksAtPid, Io.TickAtPid, Io.ObservePidsAtPid and Io.QualifiesBySustainedRule assume candidates listed once each, as a directory listing of `/proc` is. A pid listed twice would be counted twice per tick.
- Io.SortByTotal: stability (entries with equal totals keep scan order) holds by how the insertion is defined. No lemma states it.
- Rust's `lines()` also drops a '\r' before each '\n'. The model splits at '\n' only. Every consumer splits on whitespace, trims, or tests a prefix that does not start with '\r', so the outcome does not change.
- `report.rs` (HTML and JSON output, timestamps) and `main.rs` (printing) are output plumbing, not part of this model. main's detector settings appear in Cpu.ThreeOfFiveReportsLatest.
- The explanation table has no entries for "disk" or "io" in the source. Those names get the default text (Explain.MatchIsExact).
