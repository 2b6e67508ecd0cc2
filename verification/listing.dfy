/** `ServiceManager.get_services`: run `systemctl list-units --type=service
    --all --no-pager`, drop the first line of its output and turn every later
    line that splits into at least five whitespace-separated fields into a
    (name, description, status) record. */
module ServiceManagerLogic {
  import opened PyStr
  import opened Process

  /** The tuple `(service_name, description, status)` get_services appends. */
  datatype Service = Service(name: string, description: string, status: string)

  /** The record one line of the listing yields: `parts = line.split(maxsplit=4)`;
      a line with fewer than 5 parts is skipped; otherwise the name is part 0,
      the status part 3 and the description part 4 (the `""` fallback for a
      missing part 4 is kept, although it can never be taken). */
  function ParseLine(line: string): (r: Option<Service>)
    ensures r.Some? ==> |r.value.name| > 0 && |r.value.status| > 0 && |r.value.description| > 0
  {
    var parts := Split(line, 4);
    if |parts| < 5 then None
    else Some(Service(parts[0], if |parts| > 4 then parts[4] else "", parts[3]))
  }

  /** What one line adds to the list: its record, or nothing when it is skipped. */
  function Yield(line: string): (added: seq<Service>)
    ensures |added| <= 1
  {
    match ParseLine(line)
    case None => []
    case Some(s) => [s]
  }

  /** The records of a sequence of lines, in line order; skipped lines
      contribute nothing. */
  function ParseLines(lines: seq<string>): (services: seq<Service>)
    ensures |services| <= |lines|
  {
    if |lines| == 0 then [] else Yield(lines[0]) + ParseLines(lines[1..])
  }

  /** Python's `lines[1:]`: every line but the first (no line at all for an empty list). */
  function DropFirst(lines: seq<string>): (rest: seq<string>)
    ensures |rest| == if |lines| == 0 then 0 else |lines| - 1
    ensures forall i :: 0 <= i < |rest| ==> rest[i] == lines[i + 1]
  {
    if |lines| == 0 then [] else lines[1..]
  }

  /** The records get_services returns for a listing that exited with code 0. */
  function ServiceList(stdout: string): (services: seq<Service>) {
    ParseLines(DropFirst(SplitLines(stdout)))
  }

  /** `get_services()`: the listing command is run with check=True, so a
      non-zero exit raises CalledProcessError (and a listing command that cannot
      be started raises OSError) instead of returning an empty list. */
  method GetServices(outcome: Outcome) returns (r: Result<seq<Service>, Error>)
    ensures r.Success? <==> outcome.Exited? && outcome.returncode == 0
    ensures r.Success? ==> r.value == ServiceList(outcome.stdout)
    ensures r.Failure? ==> r == Failure(Run(ListUnits, outcome).error)
  {
    var result := Run(ListUnits, outcome);
    if result.Failure? {
      return Failure(result.error);
    }
    var services: seq<Service> := [];
    var lines := SplitLines(result.value.stdout);
    var rest := DropFirst(lines);
    for k := 0 to |rest|
      invariant services == ParseLines(rest[..k])
    {
      var line := rest[k];
      ParseLinesStep(rest, k);
      var parts := Split(line, 4);
      if |parts| < 5 {
        assert Yield(line) == [];
        continue;
      }
      var serviceName := parts[0];
      var status := parts[3];
      var description := if |parts| > 4 then parts[4] else "";
      assert Yield(line) == [Service(serviceName, description, status)];
      services := services + [Service(serviceName, description, status)];
    }
    assert rest[..|rest|] == rest;
    return Success(services);
  }

  /** A line yields a record exactly when `line.split()` finds at least five
      words; blank and short lines are skipped. */
  lemma ParseLineExactly(line: string)
    ensures ParseLine(line).Some? <==> |Tokens(line)| >= 5
  {
    SplitLengthFrom(line, 0, 4);
  }

  /** The fields of a record: the name is the first word of the line and the
      status the fourth, neither holding whitespace; the description is the
      rest of the line after the whitespace that follows the fourth word, kept
      verbatim (so never empty), and its words are the line's words from the
      fifth on. */
  lemma ParseLineFields(line: string)
    requires ParseLine(line).Some?
    ensures var s := ParseLine(line).value; var ws := Tokens(line);
      && |ws| >= 5
      && s.name == ws[0] && s.status == ws[3]
      && NoSpace(s.name) && NoSpace(s.status)
    ensures var d := ParseLine(line).value.description; var k := |line| - |d|;
      && 0 < k < |line| && d == line[k..]
      && IsSpace(line[k - 1]) && !IsSpace(d[0])
      && Tokens(d) == Tokens(line)[4..]
  {
    SplitLengthFrom(line, 0, 4);
    SplitFieldFrom(line, 0, 4, 0);
    SplitFieldFrom(line, 0, 4, 3);
    var k := SplitRemainderFrom(line, 0, 4);
    TokensSuffix(line, k);
  }

  /** Parsing distributes over concatenation: records come out in the order of
      their lines, one per qualifying line, with no merging or reordering. */
  lemma {:induction false} ParseLinesAppend(a: seq<string>, b: seq<string>)
    ensures ParseLines(a + b) == ParseLines(a) + ParseLines(b)
  {
    if |a| == 0 {
      assert a + b == b;
    } else {
      assert (a + b)[0] == a[0];
      assert (a + b)[1..] == a[1..] + b;
      ParseLinesAppend(a[1..], b);
      var y, pa, pb := Yield(a[0]), ParseLines(a[1..]), ParseLines(b);
      assert ParseLines(a + b) == y + (pa + pb);
      assert y + (pa + pb) == (y + pa) + pb;
    }
  }

  /** One more line adds its own record, or nothing, after the earlier records. */
  lemma ParseLinesStep(lines: seq<string>, k: nat)
    requires k < |lines|
    ensures ParseLines(lines[..k + 1]) == ParseLines(lines[..k]) + Yield(lines[k])
  {
    assert lines[..k + 1] == lines[..k] + [lines[k]];
    ParseLinesAppend(lines[..k], [lines[k]]);
    assert [lines[k]][1..] == [];
  }

  /** A single line contributes its own record, or nothing when it is skipped. */
  lemma ParseLinesOne(line: string)
    ensures ParseLines([line]) == match ParseLine(line) case None => [] case Some(s) => [s]
  {
    assert [line][1..] == [];
  }

  /** The first line of the output never yields a record, whatever it holds:
      the records are those of the lines after it. */
  lemma HeaderNeverYields(header: string, body: string)
    requires NoLineBreak(header)
    ensures ServiceList(header + "\n" + body) == ParseLines(SplitLines(body))
  {
    SplitLinesFirst(header, body);
  }

  /** For output made of a header line and listing lines, each ended by a
      line feed, the records are those of the listing lines, in order. */
  lemma ServiceListOfLines(header: string, lines: seq<string>)
    requires NoLineBreak(header)
    requires forall i :: 0 <= i < |lines| ==> NoLineBreak(lines[i])
    ensures ServiceList(header + "\n" + JoinLines(lines)) == ParseLines(lines)
  {
    HeaderNeverYields(header, JoinLines(lines));
    SplitJoinLines(lines);
  }

  /** Empty output, and output holding only a header line, yield no records. */
  lemma HeaderOnlyYieldsNothing(header: string)
    requires NoLineBreak(header)
    ensures ServiceList("") == []
    ensures ServiceList(header) == []
    ensures ServiceList(header + "\n") == []
  {
    SplitLinesOneLine(header);
  }

  /** There are at most as many records as lines after the first. */
  lemma ServiceCount(stdout: string)
    ensures |ServiceList(stdout)| <= if |stdout| == 0 then 0 else |SplitLines(stdout)| - 1
  {
  }

  /** A line laid out as systemctl prints it: indentation (possibly none),
      the UNIT, LOAD, ACTIVE and SUB columns each followed by padding, then
      the DESCRIPTION. */
  function ListingLine(indent: string, columns: seq<string>, gaps: seq<string>, description: string): string
    requires |columns| == 4 && |gaps| == 4
  {
    indent + JoinFields(columns, gaps, description)
  }

  /** Parsing undoes the layout: a laid-out line yields the UNIT column as the
      name, the SUB column as the status and the description verbatim,
      whatever the padding. */
  lemma ParseListingLine(indent: string, columns: seq<string>, gaps: seq<string>, description: string)
    requires forall q :: 0 <= q < |indent| ==> IsSpace(indent[q])
    requires |columns| == 4 && |gaps| == 4
    requires forall i :: 0 <= i < 4 ==> IsWord(columns[i]) && IsGap(gaps[i])
    requires |description| > 0 && !IsSpace(description[0])
    ensures ParseLine(ListingLine(indent, columns, gaps, description))
      == Some(Service(columns[0], description, columns[3]))
  {
    SplitSkipsSpace(indent, JoinFields(columns, gaps, description), 4);
    SplitJoinFields(columns, gaps, description);
  }
}
