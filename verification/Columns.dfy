/** What alignment guarantees about columns: where each cell starts, and where a label is found. */
module Columns {
  import opened Text
  import opened Elastic

  // ---------- cell positions ----------

  /** The offset of cell `j` on a line rendered with `widths`. */
  function Offset(widths: seq<nat>, j: nat): nat
    requires j <= |widths|
  {
    if j == 0 then 0 else widths[0] + Offset(widths[1..], j - 1)
  }

  predicate Filled(row: Row) {
    forall k :: 0 <= k < |row| ==> row[k] != ""
  }

  lemma {:induction false} OffsetStep(widths: seq<nat>, j: nat)
    requires j < |widths|
    ensures Offset(widths, j + 1) == Offset(widths, j) + widths[j]
  {
    if j > 0 {
      OffsetStep(widths[1..], j - 1);
    }
  }

  lemma {:induction false} OffsetIncreases(widths: seq<nat>, i: nat, j: nat)
    requires i <= j <= |widths|
    ensures Offset(widths, i) <= Offset(widths, j)
  {
    if i < j {
      OffsetIncreases(widths, i, j - 1);
      OffsetStep(widths, j - 1);
    }
  }

  /** On a line whose first cell is not empty, the text from a column's offset on is that cell and the rest. */
  lemma {:induction false} TextFromColumn(row: Row, widths: seq<nat>, leading: bool, j: nat)
    requires Fit(row, widths) && (row[0] != "" || !leading) && j < |row|
    ensures Offset(widths, j) <= |RenderFrom(row, widths, leading)|
    ensures RenderFrom(row, widths, leading)[Offset(widths, j)..]
            == RenderFrom(row[j..], widths[j..], leading && j == 0)
  {
    if j == 0 {
      assert row[0..] == row && widths[0..] == widths;
    } else {
      var rest := RenderFrom(row[1..], widths[1..], false);
      var first := row[0] + Spaces(widths[0] - |row[0]|);
      assert RenderFrom(row, widths, leading) == first + rest;
      TextFromColumn(row[1..], widths[1..], false, j - 1);
      assert row[1..][j - 1..] == row[j..] && widths[1..][j - 1..] == widths[j..];
      assert (first + rest)[Offset(widths, j)..] == rest[Offset(widths[1..], j - 1)..];
    }
  }

  /** The text between the offsets of two neighbouring columns is the cell, padded. */
  lemma TextOfColumn(row: Row, widths: seq<nat>, j: nat)
    requires Fit(row, widths) && row[0] != "" && j < |widths|
    ensures Offset(widths, j) <= Offset(widths, j + 1) <= |Render(row, widths)|
    ensures Render(row, widths)[Offset(widths, j)..Offset(widths, j + 1)]
            == row[j] + Spaces(widths[j] - |row[j]|)
  {
    var line := Render(row, widths);
    var lo, hi := Offset(widths, j), Offset(widths, j + 1);
    TextFromColumn(row, widths, true, j);
    TextFromColumn(row, widths, true, j + 1);
    OffsetStep(widths, j);
    var cell := row[j] + Spaces(widths[j] - |row[j]|);
    assert line[lo..] == cell + RenderFrom(row[j..][1..], widths[j..][1..], false);
    assert line[lo..hi] == line[lo..][..hi - lo] == cell;
  }

  /** The words read from a column's offset on begin with the words of its cell. */
  lemma WordsFromColumn(row: Row, widths: seq<nat>, j: nat)
    requires Fit(row, widths) && Filled(row) && j < |row|
    ensures Offset(widths, j) <= |Render(row, widths)|
    ensures Fields(row[j]) <= Fields(Render(row, widths)[Offset(widths, j)..])
  {
    TextFromColumn(row, widths, true, j);
    if j < |widths| {
      var n := widths[j] - |row[j]|;
      var rest := RenderFrom(row[j..][1..], widths[j..][1..], false);
      assert Render(row, widths)[Offset(widths, j)..] == row[j] + [' '] + (Spaces(n - 1) + rest);
      FieldsAcross(row[j], ' ', Spaces(n - 1) + rest, SPACES);
    }
  }

  lemma {:induction false} RenderLength(row: Row, widths: seq<nat>, leading: bool)
    requires Fit(row, widths) && Filled(row)
    ensures |RenderFrom(row, widths, leading)| > 0
  {
  }

  // ---------- one offset per column ----------

  /** Lines `lo..hi` all reach column `j`. */
  predicate Reach(g: Grid, lo: nat, hi: nat, j: nat) {
    lo <= hi <= |g| && forall i :: lo <= i < hi ==> |g[i]| > j
  }

  lemma {:induction false} OffsetShared(g: Grid, i: nat, j: nat)
    requires i + 1 < |g| && |g[i]| > j && |g[i + 1]| > j
    ensures Offset(Widths(g, i), j) == Offset(Widths(g, i + 1), j)
  {
    if j > 0 {
      OffsetShared(g, i, j - 1);
      OffsetStep(Widths(g, i), j - 1);
      OffsetStep(Widths(g, i + 1), j - 1);
      WidthShared(g, i, j - 1);
    }
  }

  /** A column starts at one and the same offset on all consecutive lines that reach it. */
  lemma {:induction false} ColumnsAligned(g: Grid, lo: nat, i: nat, j: nat)
    requires lo <= i && Reach(g, lo, i + 1, j)
    ensures Offset(Widths(g, i), j) == Offset(Widths(g, lo), j)
  {
    if lo < i {
      ColumnsAligned(g, lo, i - 1, j);
      OffsetShared(g, i - 1, j);
    }
  }

  // ---------- finding a label ----------

  /** The first cell that contains the label, or -1. */
  function ColumnOf(row: seq<string>, pat: string): (j: int)
    ensures -1 <= j < |row|
  {
    if row == [] then
      -1
    else if Contains(row[0], pat) then
      0
    else
      var j := ColumnOf(row[1..], pat);
      if j < 0 then -1 else j + 1
  }

  lemma {:induction false} ColumnOfIsFirst(row: seq<string>, pat: string)
    ensures var j := ColumnOf(row, pat);
            && (j >= 0 ==> Contains(row[j], pat))
            && forall k :: 0 <= k < |row| && (k < j || j == -1) ==> !Contains(row[k], pat)
  {
    if row != [] && !Contains(row[0], pat) {
      ColumnOfIsFirst(row[1..], pat);
    }
  }

  lemma {:induction false} IndexPastSpaces(n: nat, b: string, pat: string)
    requires pat != "" && ' ' !in pat
    ensures Index(Spaces(n) + b, pat) == if Index(b, pat) >= 0 then n + Index(b, pat) else -1
  {
    if n == 0 {
      assert Spaces(0) + b == b;
    } else {
      assert Spaces(n) + b == "" + [' '] + (Spaces(n - 1) + b);
      IndexPastSpaces(n - 1, b, pat);
      IndexAcross("", ' ', Spaces(n - 1) + b, pat);
    }
  }

  /** Where a label appears on a rendered line, from its column; -1 if no cell contains it. */
  function Position(row: Row, widths: seq<nat>, pat: string): int
    requires |row| == |widths| + 1
  {
    var j := ColumnOf(row, pat);
    if j == -1 then -1 else Offset(widths, j) + Index(row[j], pat)
  }

  lemma PositionStep(row: Row, widths: seq<nat>, pat: string)
    requires |row| == |widths| + 1 && widths != []
    ensures Position(row, widths, pat) ==
            if Contains(row[0], pat) then Index(row[0], pat)
            else if Position(row[1..], widths[1..], pat) >= 0 then
              widths[0] + Position(row[1..], widths[1..], pat)
            else -1
    ensures Position(row, widths, pat) >= -1
  {
    ColumnOfIsFirst(row[1..], pat);
  }

  lemma IndexAcrossGap(a: string, n: nat, b: string, pat: string)
    requires n > 0 && pat != "" && ' ' !in pat
    ensures Index(a + Spaces(n) + b, pat) ==
            if Contains(a, pat) then Index(a, pat)
            else if Contains(b, pat) then |a| + n + Index(b, pat)
            else -1
  {
    assert a + Spaces(n) + b == a + [' '] + (Spaces(n - 1) + b);
    IndexAcross(a, ' ', Spaces(n - 1) + b, pat);
    IndexPastSpaces(n - 1, b, pat);
  }

  /** strings.Index on a rendered line finds a space-free label inside the first cell that holds it. */
  lemma {:induction false} IndexInLine(row: Row, widths: seq<nat>, leading: bool, pat: string)
    requires Fit(row, widths) && Filled(row)
    requires pat != "" && ' ' !in pat
    ensures Index(RenderFrom(row, widths, leading), pat) == Position(row, widths, pat)
    decreases |row|
  {
    var line := RenderFrom(row, widths, leading);
    if |row| == 1 {
      PositionLast(row, widths, pat);
    } else {
      var n := widths[0] - |row[0]|;
      var rest := RenderFrom(row[1..], widths[1..], false);
      IndexInLine(row[1..], widths[1..], false, pat);
      IndexAcrossGap(row[0], n, rest, pat);
      PositionStep(row, widths, pat);
      assert line == row[0] + Spaces(n) + rest;
    }
  }

  lemma PositionLast(row: Row, widths: seq<nat>, pat: string)
    requires |row| == 1 && widths == []
    ensures Position(row, widths, pat) == Index(row[0], pat)
  {
  }

  /** A header cell that starts with its label, and no earlier cell contains the label. */
  predicate Labels(header: seq<string>, j: int, name: string) {
    && 0 <= j < |header|
    && ColumnOf(header, name) == j
    && HasPrefix(header[j], name)
  }

  // ---------- printing and squeezing ----------

  /** A printed line: `gaps[k]` spaces after cell `k`; cells may be empty. */
  function PrintRow(cells: seq<string>, gaps: seq<nat>): string
    requires |cells| == |gaps| + 1
  {
    if |cells| == 1 then cells[0] else cells[0] + Spaces(gaps[0]) + PrintRow(cells[1..], gaps[1..])
  }

  /** Cells are empty or tidy, the first and last are not empty, and at least two spaces separate
      them. */
  predicate Printable(cells: seq<string>, gaps: seq<nat>) {
    && |cells| == |gaps| + 1
    && cells[0] != "" && cells[|cells| - 1] != ""
    && (forall k :: 0 <= k < |cells| ==> cells[k] == "" || Tidy(cells[k]))
    && (forall k :: 0 <= k < |gaps| ==> gaps[k] >= 2)
  }

  function NonEmpty(cells: seq<string>): seq<string> {
    if cells == [] then
      []
    else if cells[0] == "" then
      NonEmpty(cells[1..])
    else
      [cells[0]] + NonEmpty(cells[1..])
  }

  lemma {:induction false} NonEmptyMembers(cells: seq<string>)
    ensures forall c :: c in NonEmpty(cells) <==> c in cells && c != ""
  {
    if cells != [] {
      NonEmptyMembers(cells[1..]);
    }
  }

  lemma {:induction false} NonEmptyOfFilled(cells: seq<string>)
    requires forall k :: 0 <= k < |cells| ==> cells[k] != ""
    ensures NonEmpty(cells) == cells
  {
    if cells != [] {
      NonEmptyOfFilled(cells[1..]);
    }
  }

  /** Squeezing turns the gaps into tabs. An empty cell disappears: its two gaps become one tab. */
  lemma {:induction false} SqueezeRow(cells: seq<string>, gaps: seq<nat>)
    requires Printable(cells, gaps)
    ensures Squeeze(PrintRow(cells, gaps)) == Join(NonEmpty(cells), '\t')
    ensures Split(Squeeze(PrintRow(cells, gaps)), '\t') == NonEmpty(cells)
    ensures NonEmpty(cells) != []
    ensures '\n' !in PrintRow(cells, gaps)
    decreases |cells|
  {
    SqueezeCells(cells, gaps);
    PrintRowAlphabet(cells, gaps);
    NonEmptyMembers(cells);
    SplitJoin(NonEmpty(cells), '\t');
  }

  lemma {:induction false} PrintRowAlphabet(cells: seq<string>, gaps: seq<nat>)
    requires |cells| == |gaps| + 1
    requires forall k :: 0 <= k < |cells| ==> cells[k] == "" || Tidy(cells[k])
    ensures forall c :: c in PrintRow(cells, gaps) && c in SPACES ==> c == ' '
  {
    if |cells| > 1 {
      PrintRowAlphabet(cells[1..], gaps[1..]);
    }
  }

  lemma {:induction false} SqueezeCells(cells: seq<string>, gaps: seq<nat>)
    requires Printable(cells, gaps)
    ensures Squeeze(PrintRow(cells, gaps)) == Join(NonEmpty(cells), '\t')
    ensures PrintRow(cells, gaps) != "" && PrintRow(cells, gaps)[0] != ' '
    ensures NonEmpty(cells) != []
    decreases |cells|, 1
  {
    if |cells| == 1 {
      SqueezePlain(cells[0], "");
      assert cells[0] + "" == cells[0];
    } else {
      var rest := Spaces(gaps[0]) + PrintRow(cells[1..], gaps[1..]);
      assert PrintRow(cells, gaps) == cells[0] + rest;
      SqueezePlain(cells[0], rest);
      SqueezeTail(gaps[0], cells[1..], gaps[1..]);
      var tail := NonEmpty(cells[1..]);
      assert NonEmpty(cells)[1..] == tail;
      assert cells[0] + ("\t" + Join(tail, '\t')) == cells[0] + ['\t'] + Join(tail, '\t');
    }
  }

  /** After a gap of `n` spaces, empty cells only widen the gap. */
  lemma {:induction false} SqueezeTail(n: nat, cells: seq<string>, gaps: seq<nat>)
    requires n >= 2
    requires |cells| == |gaps| + 1 && cells[|cells| - 1] != ""
    requires forall k :: 0 <= k < |cells| ==> cells[k] == "" || Tidy(cells[k])
    requires forall k :: 0 <= k < |gaps| ==> gaps[k] >= 2
    ensures Squeeze(Spaces(n) + PrintRow(cells, gaps)) == "\t" + Join(NonEmpty(cells), '\t')
    ensures NonEmpty(cells) != []
    decreases |cells|, 2
  {
    if cells[0] != "" {
      SqueezeCells(cells, gaps);
      SqueezeGap(n, PrintRow(cells, gaps));
    } else {
      assert Spaces(n) + PrintRow(cells, gaps) == Spaces(n + gaps[0]) + PrintRow(cells[1..], gaps[1..]);
      SqueezeTail(n + gaps[0], cells[1..], gaps[1..]);
    }
  }
}
