/** The section Tiller appends for resources it cannot find: it has its own tabs and empty cells, and the
    reader passes over it. */
module MissingResources {
  import opened Outcomes
  import opened Text
  import opened Elastic
  import opened StatusReport
  import opened Tables
  import opened Reports

  const MISSING_TITLE := "==> MISSING"
  const MISSING_HEADER := "KIND\t\tNAME"

  datatype Resource = Resource(kind: string, name: string)

  function ResourceLine(r: Resource): string {
    r.kind + "\t\t" + r.name
  }

  function MissingLines(rs: seq<Resource>): (lines: seq<string>)
    ensures |lines| == |rs| + 2
  {
    [MISSING_TITLE, MISSING_HEADER] + seq(|rs|, i requires 0 <= i < |rs| => ResourceLine(rs[i]))
  }

  // ---------- lines that the reader passes over ----------

  /** Characters that occur in no label of a header, by way of one capital of each kind, and break no line. */
  predicate Passable(c: char) {
    c !in {'R', 'H', 'Y', '\n', '\r'}
  }

  predicate PassableText(s: string) {
    forall i :: 0 <= i < |s| ==> Passable(s[i])
  }

  predicate SingleSpaced(s: string) {
    forall i :: 0 <= i < |s| - 1 ==> s[i] != ' ' || s[i + 1] != ' '
  }

  /** A line of the section: it starts with a character that is no space and no tab. */
  predicate PassableLine(s: string) {
    s != "" && s[0] != '\t' && PassableText(s) && SingleSpaced(s)
  }

  predicate PassableRow(row: Row) {
    row[0] != "" && forall k :: 0 <= k < |row| ==> PassableText(row[k])
  }

  lemma PassableRowLine(s: string)
    requires s != "" && PassableText(s)
    ensures RowLine(s) && OneLine(s)
  {
    IndexNeedsEveryChar(s, DESIRED, 'R');
    IndexNeedsEveryChar(s, INGRESS_HOSTS, 'H');
    IndexNeedsEveryChar(s, TYPE, 'Y');
  }

  lemma {:induction false} RenderPassable(row: Row, widths: seq<nat>, leading: bool)
    requires Fit(row, widths) && forall k :: 0 <= k < |row| ==> PassableText(row[k])
    ensures PassableText(RenderFrom(row, widths, leading))
    ensures row[0] != "" ==> RenderFrom(row, widths, leading) != ""
    decreases |row|
  {
    if |row| > 1 {
      RenderPassable(row[1..], widths[1..], leading && row[0] == "");
    }
  }

  lemma LinePassable(line: string)
    requires PassableLine(line)
    ensures Squeeze(line) == line && PassableRow(Split(Squeeze(line), '\t')) && '\n' !in line
  {
    SqueezePlain(line, "");
    assert line + "" == line;
    PartsPassable(line);
    var rest := Split(line[1..], '\t');
    assert Split(line, '\t')[0] == [line[0]] + rest[0];
  }

  lemma {:induction false} PartsPassable(s: string)
    requires PassableText(s)
    ensures forall k :: 0 <= k < |Split(s, '\t')| ==> PassableText(Split(s, '\t')[k])
  {
    if s != "" {
      PartsPassable(s[1..]);
    }
  }

  predicate PassableGrid(g: Grid) {
    forall i :: 0 <= i < |g| ==> PassableRow(g[i])
  }

  lemma PassableGridReads(g: Grid)
    requires PassableGrid(g)
    ensures ReadSection(Align(g)) == Return(NOTHING)
    ensures forall l :: l in Align(g) ==> OneLine(l)
  {
    forall i | 0 <= i < |g|
      ensures RowLine(Align(g)[i]) && OneLine(Align(g)[i])
    {
      RenderPassable(g[i], Widths(g, i), true);
      PassableRowLine(Align(g)[i]);
    }
    PlainLinesRead(Align(g));
  }

  // ---------- the section ----------

  predicate Listable(r: Resource) {
    PassableLine(ResourceLine(r))
  }

  lemma HeadLinesPassable()
    ensures PassableLine(MISSING_TITLE) && '\t' !in MISSING_TITLE && PassableLine(MISSING_HEADER)
  {
  }

  lemma MissingGrid(rs: seq<Resource>)
    requires forall i :: 0 <= i < |rs| ==> Listable(rs[i])
    ensures var g := SqueezedCells(MissingLines(rs)); PassableGrid(g) && |g[0]| == 1
    ensures NoNewlines(MissingLines(rs))
  {
    HeadLinesPassable();
    var lines := MissingLines(rs);
    forall i | 0 <= i < |lines|
      ensures PassableRow(SqueezedCells(lines)[i]) && '\n' !in lines[i]
    {
      assert i < 2 || lines[i] == ResourceLine(rs[i - 2]);
      LinePassable(lines[i]);
    }
    LinePassable(MISSING_TITLE);
    SplitWithoutSeparator(MISSING_TITLE, '\t');
  }

  /** Reading goes on after a report of tables as if the rest stood alone. */
  lemma {:induction false} ReadsOn(ts: seq<Table>, rest: seq<string>)
    requires ValidReport(ts)
    ensures ReadSection(Align(ReportGrid(ts)) + rest) == Combine(Return(Sum(ReportRows(ts))), ReadSection(rest))
  {
    if ts == [] {
      assert Align(ReportGrid(ts)) + rest == rest;
      if ReadSection(rest).Return? {
        AddNothing(ReadSection(rest).value);
      }
    } else {
      var a, b := GridOf(ts[0]), ReportGrid(ts[1..]);
      AlignTables(a, b);
      assert Align(ReportGrid(ts)) + rest == Align(a) + [""] + (Align(b) + rest);
      TableReads(a);
      ReadsOn(ts[1..], rest);
      ParseAcrossBlank(Align(a), Align(b) + rest);
      SumAcross(TableRows(a), ReportRows(ts[1..]));
      if ReadSection(rest).Return? {
        AddAssociates(Sum(TableRows(a)), Sum(ReportRows(ts[1..])), ReadSection(rest).value);
      }
    }
  }

  lemma {:induction false} UnlinesAcross(a: seq<string>, b: seq<string>)
    ensures Unlines(a + b) == Unlines(a) + Unlines(b)
  {
    if a == [] {
      assert a + b == b;
    } else {
      assert (a + b)[1..] == a[1..] + b;
      UnlinesAcross(a[1..], b);
    }
  }

  /** The lines the reader sees: the aligned tables, and then the aligned section. */
  lemma LinesWithMissing(ts: seq<Table>, rs: seq<Resource>)
    requires ValidReport(ts) && forall i :: 0 <= i < |rs| ==> Listable(rs[i])
    ensures ScanLines(FormatResources(PrintReport(ts) + Unlines(MissingLines(rs))))
            == Align(ReportGrid(ts)) + Align(SqueezedCells(MissingLines(rs)))
  {
    var a, b := ReportLines(ts), MissingLines(rs);
    var g, m := ReportGrid(ts), SqueezedCells(b);
    ReportCells(ts);
    MissingGrid(rs);
    UnlinesAcross(a, b);
    FormatLines(a + b);
    SqueezedCellsAcross(a, b);
    AlignAcross(g, m);
    AlignedOneLine(g);
    PassableGridReads(m);
    ScanUnlines(Align(g) + Align(m));
  }

  /** A report that ends with missing resources is read as if they were not mentioned. */
  lemma MissingResourcesIgnored(ts: seq<Table>, rs: seq<Resource>)
    requires ValidReport(ts) && forall i :: 0 <= i < |rs| ==> Listable(rs[i])
    ensures Reading(PrintReport(ts) + Unlines(MissingLines(rs))) == Return(Sum(ReportRows(ts)))
  {
    var m := SqueezedCells(MissingLines(rs));
    LinesWithMissing(ts, rs);
    MissingGrid(rs);
    PassableGridReads(m);
    ReadsOn(ts, Align(m));
    AddNothing(Sum(ReportRows(ts)));
    StreamingIsSectionwise(Align(ReportGrid(ts)) + Align(m));
  }
}
