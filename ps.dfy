/**
 * Rows of `ps -eo pid,comm,<metric>` output, as the CPU and memory probes
 * read them: the first three whitespace-separated fields are the pid (a
 * `u32`), the command name and the metric (an `f32`); later fields are
 * ignored.
 */
module PsOutput {
  import opened Wrappers
  import opened Text

  datatype PsRow = PsRow(pid: uint32, name: string, value: real)

  /** The row's fields, or nothing when a field is missing or does not parse. */
  function ParsePsRow(line: string): (r: Option<PsRow>)
    ensures r.Some? <==> |Words(line)| >= 3 && ParseUint32(Words(line)[0]).Some? && ParseFloat(Words(line)[2]).Some?
    ensures r.Some? ==> && ParseUint32(Words(line)[0]) == Some(r.value.pid)
                        && r.value.name == Words(line)[1]
                        && ParseFloat(Words(line)[2]) == Some(r.value.value)
  {
    var ws := Words(line);
    if |ws| < 3 then None
    else
      match ParseUint32(ws[0])
      case None => None
      case Some(pid) =>
        match ParseFloat(ws[2])
        case None => None
        case Some(value) => Some(PsRow(pid, ws[1], value))
  }

  /** A row as `ps` prints it, for a whole-number metric, followed by `extra` fields. */
  function FormatPsRow(pid: uint32, name: string, value: nat, extra: seq<string>): string {
    JoinWords([NatToString(pid), name, NatToString(value)] + extra)
  }

  /** Parsing a printed row gives back its pid, name and metric, whatever fields follow. */
  lemma ParsePsRowOfFormatted(pid: uint32, name: string, value: nat, extra: seq<string>)
    requires name != [] && NoWhitespace(name)
    requires forall k :: 0 <= k < |extra| ==> extra[k] != [] && NoWhitespace(extra[k])
    ensures ParsePsRow(FormatPsRow(pid, name, value, extra)) == Some(PsRow(pid, name, value as real))
  {
    var ws := [NatToString(pid), name, NatToString(value)] + extra;
    NatToStringIsWord(pid);
    NatToStringIsWord(value);
    WordsOfJoined(ws);
    ParseUnsignedOfNatToString(pid, UINT32_LIMIT);
    ParseFloatOfNatToString(value);
  }

  /** A printed row is a single line. */
  lemma FormattedRowHasNoNewline(pid: uint32, name: string, value: nat)
    requires NoWhitespace(name)
    ensures NoNewline(FormatPsRow(pid, name, value, []))
  {
    var ws := [NatToString(pid), name, NatToString(value)];
    NatToStringIsWord(pid);
    NatToStringIsWord(value);
    assert ws + [] == ws;
    JoinedWordsHaveNoNewline(ws);
  }

  /**
   * A command name that contains a space (`ps` prints "Web Content" for
   * Firefox's content processes) shifts the metric out of the third field,
   * so the whole row is rejected.
   */
  lemma SpacedNameIsRejected(pid: uint32, first: string, second: string, value: nat)
    requires first != [] && NoWhitespace(first)
    requires second != [] && NoWhitespace(second) && ParseFloat(second).None?
    ensures ParsePsRow(JoinWords([NatToString(pid), first, second, NatToString(value)])) == None
  {
    NatToStringIsWord(pid);
    NatToStringIsWord(value);
    WordsOfJoined([NatToString(pid), first, second, NatToString(value)]);
  }
}
