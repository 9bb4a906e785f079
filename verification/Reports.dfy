/** Whole reports: what Tiller prints, formatted and read, yields exactly what its tables say. */
module Reports {
  import opened Outcomes
  import opened Text
  import opened Elastic
  import opened Columns
  import opened StatusReport
  import opened Tables

  const RESOURCE_PREFIX := "==> "

  // ---------- one table ----------

  function Sum(tallies: seq<Tally>): Tally {
    if tallies == [] then NOTHING else Add(tallies[0], Sum(tallies[1..]))
  }

  /** Rows read under fixed registers add up. */
  lemma {:induction false} RowsAddUp(lines: seq<string>, r: Registers, tallies: seq<Tally>)
    requires |lines| == |tallies|
    requires forall i :: 0 <= i < |lines| ==> ReadLine(r, lines[i]) == Return(State(r, tallies[i]))
    ensures Run(lines, State(r, NOTHING)) == Return(State(r, Sum(tallies)))
  {
    if lines != [] {
      AddNothing(tallies[0]);
      RowsAddUp(lines[1..], r, tallies[1..]);
      RunFrame(lines[1..], r, tallies[0]);
    }
  }

  lemma RunPast(line: string, rest: seq<string>, r: Registers, s: Registers)
    requires ReadLine(r, line) == Return(State(s, NOTHING))
    ensures Run([line] + rest, State(r, NOTHING)) == Run(rest, State(s, NOTHING))
  {
    AddNothing(NOTHING);
    assert ([line] + rest)[1..] == rest;
  }

  /** A title line, a header line that sets the registers, and rows. */
  lemma SectionAddsUp(lines: seq<string>, r: Registers, tallies: seq<Tally>)
    requires |lines| == |tallies| + 2
    requires ReadLine(RESET, lines[0]) == Return(State(RESET, NOTHING))
    requires ReadLine(RESET, lines[1]) == Return(State(r, NOTHING))
    requires forall i :: 0 <= i < |tallies| ==> ReadLine(r, lines[i + 2]) == Return(State(r, tallies[i]))
    ensures ReadSection(lines) == Return(Sum(tallies))
  {
    RowsAddUp(lines[2..], r, tallies);
    RunPast(lines[1], lines[2..], RESET, r);
    RunPast(lines[0], [lines[1]] + lines[2..], RESET, RESET);
    assert lines == [lines[0]] + ([lines[1]] + lines[2..]);
  }

  /** A title, a header of the kind, and rows that fit it and are no headers. */
  predicate IsTable(kind: Kind, g: Grid) {
    && |g| >= 2 && |g[0]| == 1 && RowLine(g[0][0]) && IsHeader(kind, g[1])
    && forall i :: 2 <= i < |g| ==> BodyRow(kind, g[1], g[i])
  }

  predicate BodyRow(kind: Kind, header: seq<string>, row: seq<string>) {
    RowFits(kind, header, row) && Plain(row)
  }

  /** What the rows say, one by one. */
  function RowsOf(kind: Kind, g: Grid): (tallies: seq<Tally>)
    requires IsTable(kind, g)
    ensures |tallies| == |g| - 2
  {
    seq(|g| - 2, i requires 0 <= i < |g| - 2 => RowBelow(kind, g, i))
  }

  function RowBelow(kind: Kind, g: Grid, i: nat): Tally
    requires IsTable(kind, g) && i < |g| - 2
  {
    assert BodyRow(kind, g[1], g[i + 2]);
    RowTally(kind, g[1], g[i + 2])
  }

  /** Row `i` fits the header, all lines from the header to it reach far enough, and it is no header. */
  lemma RowIsReadable(kind: Kind, g: Grid, i: nat)
    requires IsTable(kind, g) && 2 <= i < |g|
    ensures RowFits(kind, g[1], g[i]) && RowLine(Align(g)[i])
    ensures ReachOf(kind, g[1]) >= 0 && Reach(g, 1, i + 1, ReachOf(kind, g[1]))
  {
    assert BodyRow(kind, g[1], g[i]);
    HeaderHasColumns(kind, g[1]);
    HeaderKinds(g[i], Widths(g, i));
    forall k | 1 <= k < i + 1
      ensures |g[k]| > ReachOf(kind, g[1])
    {
      assert k == 1 || BodyRow(kind, g[1], g[k]);
    }
  }

  lemma TableRowReads(kind: Kind, g: Grid, i: nat, r: Registers)
    requires IsTable(kind, g) && HasColumns(kind, g[1]) && i < |g| - 2
    requires r == RegistersOf(kind, g[1], Widths(g, 1))
    ensures ReadLine(r, Align(g)[i + 2]) == Return(State(r, RowBelow(kind, g, i)))
  {
    RowIsReadable(kind, g, i + 2);
    RowRead(kind, g, 1, i + 2);
  }

  lemma KindTableReads(kind: Kind, g: Grid)
    requires IsTable(kind, g)
    ensures ReadSection(Align(g)) == Return(Sum(RowsOf(kind, g)))
  {
    HeaderHasColumns(kind, g[1]);
    PlainLine(g[0][0]);
    HeaderSets(kind, g[1], Widths(g, 1));
    var r := RegistersOf(kind, g[1], Widths(g, 1));
    forall i | 0 <= i < |g| - 2
      ensures ReadLine(r, Align(g)[i + 2]) == Return(State(r, RowsOf(kind, g)[i]))
    {
      TableRowReads(kind, g, i, r);
    }
    SectionAddsUp(Align(g), r, RowsOf(kind, g));
  }

  /** Titles and rows of tables the reader does not care for. */
  predicate OtherTable(g: Grid) {
    && |g| >= 1 && |g[0]| == 1 && RowLine(g[0][0])
    && forall i :: 1 <= i < |g| ==> TidyRow(g[i]) && Plain(g[i])
  }

  lemma {:induction false} PlainLinesRead(lines: seq<string>)
    requires forall i :: 0 <= i < |lines| ==> RowLine(lines[i])
    ensures Run(lines, INITIAL) == Return(INITIAL)
  {
    if lines != [] {
      PlainLine(lines[0]);
      AddNothing(NOTHING);
      PlainLinesRead(lines[1..]);
    }
  }

  lemma OtherTableReads(g: Grid)
    requires OtherTable(g)
    ensures ReadSection(Align(g)) == Return(NOTHING)
  {
    forall i | 0 <= i < |g|
      ensures RowLine(Align(g)[i])
    {
      if i > 0 {
        HeaderKinds(g[i], Widths(g, i));
      }
    }
    PlainLinesRead(Align(g));
  }

  predicate ValidTable(g: Grid) {
    (exists kind :: IsTable(kind, g)) || OtherTable(g)
  }

  /** No header is of two kinds. */
  lemma OneKind(a: Kind, b: Kind, g: Grid)
    requires IsTable(a, g) && IsTable(b, g)
    ensures a == b
  {
  }

  /** What the rows of a table say. */
  function TableRows(g: Grid): seq<Tally>
    requires ValidTable(g)
  {
    if IsTable(Workloads, g) then RowsOf(Workloads, g)
    else if IsTable(Ingresses, g) then RowsOf(Ingresses, g)
    else if IsTable(Services, g) then RowsOf(Services, g)
    else []
  }

  lemma TableRowsOf(kind: Kind, g: Grid)
    requires IsTable(kind, g)
    ensures ValidTable(g) && TableRows(g) == RowsOf(kind, g)
  {
    if IsTable(Workloads, g) {
      OneKind(kind, Workloads, g);
    } else if IsTable(Ingresses, g) {
      OneKind(kind, Ingresses, g);
    }
  }

  /** A section holding an aligned table is read without a run-time error, as what its cells say. */
  lemma TableReads(g: Grid)
    requires ValidTable(g)
    ensures ReadSection(Align(g)) == Return(Sum(TableRows(g)))
  {
    if kind :| IsTable(kind, g) {
      TableRowsOf(kind, g);
      KindTableReads(kind, g);
    } else {
      OtherTableReads(g);
    }
  }

  // ---------- printed reports ----------

  datatype Printed = Printed(cells: seq<string>, gaps: seq<nat>)

  /** A table as Tiller prints it, for one kind of resource. */
  datatype Table = Table(title: string, lines: seq<Printed>)

  predicate WellPrinted(t: Table) {
    && Tidy(RESOURCE_PREFIX + t.title)
    && forall p :: p in t.lines ==> Printable(p.cells, p.gaps)
  }

  function TableLines(t: Table): (lines: seq<string>)
    requires WellPrinted(t)
    ensures |lines| == |t.lines| + 1
  {
    [RESOURCE_PREFIX + t.title]
    + seq(|t.lines|, i requires 0 <= i < |t.lines| => PrintRow(t.lines[i].cells, t.lines[i].gaps))
  }

  /** The non-empty cells of each line. */
  function GridOf(t: Table): (g: Grid)
    requires WellPrinted(t)
    ensures |g| == |t.lines| + 1 && g[0] == [RESOURCE_PREFIX + t.title]
  {
    [[RESOURCE_PREFIX + t.title]]
    + seq(|t.lines|, i requires 0 <= i < |t.lines| =>
        SqueezeRow(t.lines[i].cells, t.lines[i].gaps); NonEmpty(t.lines[i].cells))
  }

  lemma GridLine(t: Table, i: nat, cells: seq<string>)
    requires WellPrinted(t) && i < |t.lines| && t.lines[i].cells == cells
    ensures GridOf(t)[i + 1] == NonEmpty(cells)
  {
  }

  function ReportLines(ts: seq<Table>): seq<string>
    requires forall t :: t in ts ==> WellPrinted(t)
  {
    if ts == [] then [] else TableLines(ts[0]) + [""] + ReportLines(ts[1..])
  }

  function ReportGrid(ts: seq<Table>): (g: Grid)
    requires forall t :: t in ts ==> WellPrinted(t)
    ensures ts != [] ==> g != [] && |g[0]| == 1
    ensures ts == [] ==> g == []
  {
    if ts == [] then [] else GridOf(ts[0]) + [[""]] + ReportGrid(ts[1..])
  }

  function PrintReport(ts: seq<Table>): string
    requires forall t :: t in ts ==> WellPrinted(t)
  {
    Unlines(ReportLines(ts))
  }

  predicate ValidReport(ts: seq<Table>) {
    forall t :: t in ts ==> WellPrinted(t) && ValidTable(GridOf(t))
  }

  /** What the rows of all tables say, in order. */
  function ReportRows(ts: seq<Table>): seq<Tally>
    requires ValidReport(ts)
  {
    if ts == [] then [] else TableRows(GridOf(ts[0])) + ReportRows(ts[1..])
  }

  lemma {:induction false} SumAcross(a: seq<Tally>, b: seq<Tally>)
    ensures Sum(a + b) == Add(Sum(a), Sum(b))
  {
    if a == [] {
      assert a + b == b;
      AddNothing(Sum(b));
    } else {
      assert (a + b)[1..] == a[1..] + b;
      SumAcross(a[1..], b);
      AddAssociates(a[0], Sum(a[1..]), Sum(b));
    }
  }

  /** No line break and no carriage return. */
  predicate OneLine(s: string) {
    '\n' !in s && '\r' !in s
  }

  predicate OneLineRow(row: Row) {
    forall k :: 0 <= k < |row| ==> OneLine(row[k])
  }

  lemma {:induction false} SqueezeAlphabet(s: string)
    ensures forall c :: c in Squeeze(s) ==> c in s || c == '\t'
    decreases |s|
  {
    if s != "" {
      if |s| >= 2 && s[0] == ' ' && s[1] == ' ' {
        SkipSpacesAlphabet(s[2..]);
        SqueezeAlphabet(SkipSpaces(s[2..]));
      } else {
        SqueezeAlphabet(s[1..]);
      }
    }
  }

  lemma {:induction false} SkipSpacesAlphabet(s: string)
    ensures forall c :: c in SkipSpaces(s) ==> c in s
  {
    if s != "" && s[0] == ' ' {
      SkipSpacesAlphabet(s[1..]);
    }
  }

  lemma {:induction false} RenderOneLine(row: Row, widths: seq<nat>, leading: bool)
    requires Fit(row, widths) && OneLineRow(row)
    ensures OneLine(RenderFrom(row, widths, leading))
    decreases |row|
  {
    if |row| > 1 {
      RenderOneLine(row[1..], widths[1..], leading && row[0] == "");
    }
  }

  lemma {:induction false} JoinIsUnlines(lines: seq<string>)
    ensures Join(lines + [""], '\n') == Unlines(lines)
  {
    if lines != [] {
      JoinIsUnlines(lines[1..]);
      assert (lines + [""])[1..] == lines[1..] + [""];
    }
  }

  lemma TitleCells(title: string)
    requires Tidy(title)
    ensures Squeeze(title) == title && Split(Squeeze(title), '\t') == [title] && OneLine(title)
  {
    SqueezePlain(title, "");
    assert title + "" == title;
    SplitWithoutSeparator(title, '\t');
  }

  lemma TidyIsOneLine(cell: string)
    requires Tidy(cell)
    ensures OneLine(cell)
  {
    assert '\n' in SPACES && '\r' in SPACES;
  }

  /** The cells of the lines that `FormatResources` aligns. */
  function SqueezedCells(lines: seq<string>): (g: Grid)
    ensures |g| == |lines|
  {
    Cells(SqueezeAll(lines))
  }

  lemma SqueezedCellsAcross(a: seq<string>, b: seq<string>)
    ensures SqueezedCells(a + b) == SqueezedCells(a) + SqueezedCells(b)
  {
  }

  lemma PrintedCells(p: Printed)
    requires Printable(p.cells, p.gaps)
    ensures Split(Squeeze(PrintRow(p.cells, p.gaps)), '\t') == NonEmpty(p.cells)
    ensures '\n' !in PrintRow(p.cells, p.gaps)
    ensures NonEmpty(p.cells) != [] && OneLineRow(NonEmpty(p.cells))
  {
    SqueezeRow(p.cells, p.gaps);
    NonEmptyMembers(p.cells);
    var row := NonEmpty(p.cells);
    forall k | 0 <= k < |row|
      ensures OneLine(row[k])
    {
      assert row[k] in row;
      TidyIsOneLine(row[k]);
    }
  }

  predicate NoNewlines(lines: seq<string>) {
    forall i :: 0 <= i < |lines| ==> '\n' !in lines[i]
  }

  predicate OneLineGrid(g: Grid) {
    forall i :: 0 <= i < |g| ==> OneLineRow(g[i])
  }

  lemma TableLine(t: Table, i: nat)
    requires WellPrinted(t) && i < |t.lines|
    ensures Printable(t.lines[i].cells, t.lines[i].gaps)
    ensures TableLines(t)[i + 1] == PrintRow(t.lines[i].cells, t.lines[i].gaps)
  {
  }

  lemma LineCells(t: Table, i: nat)
    requires WellPrinted(t) && i <= |t.lines|
    ensures Split(Squeeze(TableLines(t)[i]), '\t') == GridOf(t)[i]
    ensures '\n' !in TableLines(t)[i] && OneLineRow(GridOf(t)[i])
  {
    if i == 0 {
      TitleCells(RESOURCE_PREFIX + t.title);
      assert TableLines(t)[0] == RESOURCE_PREFIX + t.title && GridOf(t)[0] == [RESOURCE_PREFIX + t.title];
    } else {
      TableLine(t, i - 1);
      GridLine(t, i - 1, t.lines[i - 1].cells);
      PrintedCells(t.lines[i - 1]);
    }
  }

  lemma TableCells(t: Table)
    requires WellPrinted(t)
    ensures SqueezedCells(TableLines(t)) == GridOf(t)
    ensures NoNewlines(TableLines(t)) && OneLineGrid(GridOf(t))
  {
    forall i | 0 <= i <= |t.lines|
      ensures Split(Squeeze(TableLines(t)[i]), '\t') == GridOf(t)[i]
      ensures '\n' !in TableLines(t)[i] && OneLineRow(GridOf(t)[i])
    {
      LineCells(t, i);
    }
  }

  lemma {:induction false} ReportCells(ts: seq<Table>)
    requires forall t :: t in ts ==> WellPrinted(t)
    ensures SqueezedCells(ReportLines(ts)) == ReportGrid(ts)
    ensures NoNewlines(ReportLines(ts)) && OneLineGrid(ReportGrid(ts))
  {
    if ts != [] {
      TableCells(ts[0]);
      ReportCells(ts[1..]);
      var a, b := TableLines(ts[0]), ReportLines(ts[1..]);
      SqueezedCellsAcross(a + [""], b);
      SqueezedCellsAcross(a, [""]);
      assert SqueezedCells([""]) == [[""]];
    }
  }

  lemma SqueezedNoNewlines(lines: seq<string>)
    requires NoNewlines(lines)
    ensures forall l :: l in SqueezeAll(lines) ==> '\n' !in l
  {
    forall i | 0 <= i < |lines|
      ensures '\n' !in SqueezeAll(lines)[i]
    {
      SqueezeAlphabet(lines[i]);
    }
  }

  lemma AlignedOneLine(g: Grid)
    requires OneLineGrid(g)
    ensures forall l :: l in Align(g) ==> OneLine(l)
  {
    forall i | 0 <= i < |g|
      ensures OneLine(Align(g)[i])
    {
      RenderOneLine(g[i], Widths(g, i), true);
    }
  }

  lemma TerminatedCells(lines: seq<string>)
    ensures CloseLast(Cells(lines + [""])) == Cells(lines) + [[""]]
  {
    assert Cells(lines + [""]) == Cells(lines) + [[""]];
  }

  lemma AlignTerminated(g: Grid)
    ensures Join(Align(g + [[""]]), '\n') == Unlines(Align(g))
  {
    AlignAcross(g, [[""]]);
    assert Align([[""]]) == [""];
    JoinIsUnlines(Align(g));
  }

  /** `formatResources` on newline-terminated lines aligns their cells. */
  lemma FormatLines(lines: seq<string>)
    requires NoNewlines(lines)
    ensures FormatResources(Unlines(lines)) == Unlines(Align(SqueezedCells(lines)))
  {
    SqueezeUnlines(lines);
    SqueezedNoNewlines(lines);
    SplitUnlines(SqueezeAll(lines));
    TerminatedCells(SqueezeAll(lines));
    AlignTerminated(SqueezedCells(lines));
  }

  /** The lines the reader sees are the aligned lines of the report's cells. */
  lemma FormattedLines(ts: seq<Table>)
    requires forall t :: t in ts ==> WellPrinted(t)
    ensures ScanLines(FormatResources(PrintReport(ts))) == Align(ReportGrid(ts))
  {
    ReportCells(ts);
    FormatLines(ReportLines(ts));
    AlignedOneLine(ReportGrid(ts));
    ScanUnlines(Align(ReportGrid(ts)));
  }

  /** The blank lines keep the alignment of neighbouring tables apart. */
  lemma AlignTables(a: Grid, b: Grid)
    requires b == [] || |b[0]| == 1
    ensures Align(a + [[""]] + b) == Align(a) + [""] + Align(b)
  {
    assert a + [[""]] + b == a + ([[""]] + b);
    AlignAcross(a, [[""]] + b);
    assert Align([[""]]) == [""];
    if b == [] {
      assert [[""]] + b == [[""]];
    } else {
      AlignAcross([[""]], b);
    }
  }

  lemma {:induction false} AlignedReportReads(ts: seq<Table>)
    requires ValidReport(ts)
    ensures ReadSection(Align(ReportGrid(ts))) == Return(Sum(ReportRows(ts)))
  {
    if ts != [] {
      var a, b := GridOf(ts[0]), ReportGrid(ts[1..]);
      AlignTables(a, b);
      TableReads(a);
      AlignedReportReads(ts[1..]);
      ParseAcrossBlank(Align(a), Align(b));
      SumAcross(TableRows(a), ReportRows(ts[1..]));
    }
  }

  /** Printing a report of well-formed tables, formatting it and reading it recovers what the rows
      say, with every access in range. */
  lemma ReportReadsBack(ts: seq<Table>)
    requires ValidReport(ts)
    ensures ReadSection(ScanLines(FormatResources(PrintReport(ts)))) == Return(Sum(ReportRows(ts)))
  {
    FormattedLines(ts);
    AlignedReportReads(ts);
  }

  /** A report formatted and read, section by section. */
  function Reading(resources: string): Outcome<Tally> {
    ReadSections(Sections(ScanLines(FormatResources(resources))))
  }

  /** The status that a reply of Tiller is turned into. */
  function StatusOf(name: string, namespace: string, lastDeployment: int, timeout: int, now: int, code: Code,
                    resources: string): Outcome<Status>
  {
    var tally :- Reading(resources);
    Return(Finish(name, namespace, tally, lastDeployment, timeout, now, code))
  }

  /** Reading a printed well-formed report gives what its rows say. */
  lemma PrintedReading(ts: seq<Table>)
    requires ValidReport(ts)
    ensures Reading(PrintReport(ts)) == Return(Sum(ReportRows(ts)))
  {
    ReportReadsBack(ts);
    StreamingIsSectionwise(ScanLines(FormatResources(PrintReport(ts))));
  }

  /** The status of a printed well-formed report holds what its rows say. */
  lemma PrintedStatus(ts: seq<Table>, name: string, namespace: string, lastDeployment: int, timeout: int,
                      now: int, code: Code)
    requires ValidReport(ts)
    ensures StatusOf(name, namespace, lastDeployment, timeout, now, code, PrintReport(ts)) ==
            Return(Finish(name, namespace, Sum(ReportRows(ts)), lastDeployment, timeout, now, code))
  {
    PrintedReading(ts);
  }

  /** `Client.GetStatus`, from the reply of Tiller on. */
  method GetStatus(name: string, namespace: string, lastDeployment: int, timeout: int, now: int,
                   code: Code, resources: string) returns (r: Outcome<Status>)
    ensures r == StatusOf(name, namespace, lastDeployment, timeout, now, code, resources)
    ensures r.Return? <==> Reading(resources).Return?
    ensures r.Return? ==> Records(r.value, name, namespace, Reading(resources).value)
    ensures r.Return? ==> Flagged(r.value, now > lastDeployment + timeout, code)
    ensures forall ts :: ValidReport(ts) && resources == PrintReport(ts) ==>
              r.Return? && Records(r.value, name, namespace, Sum(ReportRows(ts)))
  {
    var formatted := FormatResources(resources);
    r := ConvertByteToStatus(name, namespace, lastDeployment, timeout, now, code, formatted);
    forall ts | ValidReport(ts) && resources == PrintReport(ts)
      ensures r.Return? && Records(r.value, name, namespace, Sum(ReportRows(ts)))
    {
      PrintedReading(ts);
    }
  }
}
