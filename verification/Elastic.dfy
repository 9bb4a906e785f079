/** `formatResources`: runs of two or more spaces become tabs, then elastic tab stops re-align the
    text (`text/tabwriter` with minimal width 0, tab width 0, padding 2 and TabIndent). */
module Elastic {
  import opened Text

  const PADDING := 2

  // ---------- squeezing ----------

  function SkipSpaces(s: string): (r: string)
    ensures |r| <= |s|
    ensures r != "" ==> r[0] != ' '
  {
    if s != "" && s[0] == ' ' then SkipSpaces(s[1..]) else s
  }

  /** Replacing every match of the pattern "two or more spaces" by a tab. */
  function Squeeze(s: string): string
    decreases |s|
  {
    if s == "" then
      ""
    else if |s| >= 2 && s[0] == ' ' && s[1] == ' ' then
      "\t" + Squeeze(SkipSpaces(s[2..]))
    else
      [s[0]] + Squeeze(s[1..])
  }

  /** A cell as a table printer writes it: no leading, trailing or double space, no control space. */
  predicate Tidy(cell: string) {
    && cell != ""
    && cell[0] != ' ' && cell[|cell| - 1] != ' '
    && (forall i :: 0 <= i < |cell| - 1 ==> cell[i] != ' ' || cell[i + 1] != ' ')
    && (forall c :: c in cell && c in SPACES ==> c == ' ')
  }

  lemma {:induction false} SkipSpacesOf(n: nat, s: string)
    requires s != "" ==> s[0] != ' '
    ensures SkipSpaces(Spaces(n) + s) == s
  {
    if n == 0 {
      assert Spaces(0) + s == s;
    } else {
      assert (Spaces(n) + s)[1..] == Spaces(n - 1) + s;
      SkipSpacesOf(n - 1, s);
    }
  }

  /** The squeezing automaton passes through text without double spaces. */
  lemma {:induction false} SqueezePlain(a: string, b: string)
    requires forall i :: 0 <= i < |a| - 1 ==> a[i] != ' ' || a[i + 1] != ' '
    requires a != "" && a[|a| - 1] == ' ' ==> b == "" || b[0] != ' '
    ensures Squeeze(a + b) == a + Squeeze(b)
    decreases |a|
  {
    if a == "" {
      assert a + b == b;
    } else {
      var s := a + b;
      assert s[1..] == a[1..] + b;
      assert |s| < 2 || s[0] != ' ' || s[1] != ' ';
      assert Squeeze(s) == [a[0]] + Squeeze(s[1..]);
      SqueezePlain(a[1..], b);
      assert [a[0]] + (a[1..] + Squeeze(b)) == a + Squeeze(b);
    }
  }

  lemma SqueezeGap(n: nat, s: string)
    requires n >= 2
    requires s != "" ==> s[0] != ' '
    ensures Squeeze(Spaces(n) + s) == "\t" + Squeeze(s)
  {
    assert (Spaces(n) + s)[2..] == Spaces(n - 2) + s;
    SkipSpacesOf(n - 2, s);
  }

  /** The two texts do not share a run of spaces. */
  predicate Apart(a: string, b: string) {
    b == "" || b[0] != ' ' || (a != "" && a[|a| - 1] != ' ')
  }

  lemma {:induction false} SkipSpacesApart(a: string, b: string)
    requires Apart(a, b)
    ensures SkipSpaces(a + b) == SkipSpaces(a) + b && Apart(SkipSpaces(a), b)
  {
    if a == "" {
      assert a + b == b;
    } else if a[0] == ' ' {
      assert (a + b)[1..] == a[1..] + b;
      SkipSpacesApart(a[1..], b);
    }
  }

  lemma SqueezeTwo(s: string)
    requires |s| >= 2 && s[0] == ' ' && s[1] == ' '
    ensures Squeeze(s) == "\t" + Squeeze(SkipSpaces(s[2..]))
  {
  }

  lemma SqueezeOne(s: string)
    requires s != "" && !(|s| >= 2 && s[0] == ' ' && s[1] == ' ')
    ensures Squeeze(s) == [s[0]] + Squeeze(s[1..])
  {
  }

  /** Such texts are squeezed independently. */
  lemma {:induction false} SqueezeApart(a: string, b: string)
    requires Apart(a, b)
    ensures Squeeze(a + b) == Squeeze(a) + Squeeze(b)
    decreases |a|
  {
    var s := a + b;
    if a == "" {
      assert s == b;
    } else if |a| == 1 {
      assert s[1..] == b && a[1..] == "";
      SqueezeOne(s);
    } else if a[0] == ' ' && a[1] == ' ' {
      assert s[2..] == a[2..] + b;
      SkipSpacesApart(a[2..], b);
      SqueezeApart(SkipSpaces(a[2..]), b);
      SqueezeTwo(s);
      SqueezeTwo(a);
    } else {
      assert s[1..] == a[1..] + b;
      SqueezeApart(a[1..], b);
      SqueezeOne(s);
      SqueezeOne(a);
    }
  }

  /** Squeezing works line by line. */
  lemma SqueezeAcrossNewline(a: string, b: string)
    ensures Squeeze(a + "\n" + b) == Squeeze(a) + "\n" + Squeeze(b)
  {
    var tail := "\n" + b;
    assert a + "\n" + b == a + tail && tail[1..] == b;
    SqueezeApart(a, tail);
    SqueezeOne(tail);
  }

  lemma {:induction false} SqueezeUnlines(lines: seq<string>)
    ensures Squeeze(Unlines(lines)) == Unlines(SqueezeAll(lines))
  {
    if lines != [] {
      SqueezeAcrossNewline(lines[0], Unlines(lines[1..]));
      SqueezeUnlines(lines[1..]);
      assert SqueezeAll(lines)[1..] == SqueezeAll(lines[1..]);
    }
  }

  function SqueezeAll(lines: seq<string>): (r: seq<string>)
    ensures |r| == |lines|
  {
    seq(|lines|, i requires 0 <= i < |lines| => Squeeze(lines[i]))
  }

  // ---------- aligning ----------

  type Row = cells: seq<string> | cells != [] witness [""]

  type Grid = seq<Row>

  /** Cell `k` belongs to a column only if a tab terminates it: the last cell of a line does not. */
  predicate HasColumn(row: Row, k: nat) {
    k + 1 < |row|
  }

  function Max(a: nat, b: nat): nat {
    if a < b then b else a
  }

  /** The widest cell of column `k` on line `i` and the unbroken run of lines before it. */
  function WidestAbove(g: Grid, i: int, k: nat): nat
    requires i < |g|
    decreases i
  {
    if i < 0 || !HasColumn(g[i], k) then 0 else Max(|g[i][k]|, WidestAbove(g, i - 1, k))
  }

  /** The widest cell of column `k` on line `i` and the unbroken run of lines after it. */
  function WidestBelow(g: Grid, i: nat, k: nat): nat
    decreases |g| - i
  {
    if i >= |g| || !HasColumn(g[i], k) then 0 else Max(|g[i][k]|, WidestBelow(g, i + 1, k))
  }

  /** The width of column `k` in the column block around line `i`. */
  function Width(g: Grid, i: nat, k: nat): (w: nat)
    requires i < |g| && HasColumn(g[i], k)
    ensures w >= |g[i][k]| + PADDING
  {
    Max(WidestAbove(g, i, k), WidestBelow(g, i, k)) + PADDING
  }

  function Widths(g: Grid, i: nat): (ws: seq<nat>)
    requires i < |g|
    ensures Fit(g[i], ws)
  {
    seq(|g[i]| - 1, k requires 0 <= k < |g[i]| - 1 => Width(g, i, k))
  }

  predicate Fit(row: Row, widths: seq<nat>) {
    && |widths| + 1 == |row|
    && forall k :: 0 <= k < |widths| ==> widths[k] >= |row[k]| + PADDING
  }

  /** One output line. TabIndent pads leading empty cells with tabs, which have no width here. */
  function RenderFrom(row: Row, widths: seq<nat>, leading: bool): string
    requires Fit(row, widths)
    decreases |row|
  {
    if |row| == 1 then
      row[0]
    else if leading && row[0] == "" then
      RenderFrom(row[1..], widths[1..], true)
    else
      row[0] + Spaces(widths[0] - |row[0]|) + RenderFrom(row[1..], widths[1..], false)
  }

  function Render(row: Row, widths: seq<nat>): string
    requires Fit(row, widths)
  {
    RenderFrom(row, widths, true)
  }

  function Align(g: Grid): (lines: seq<string>)
    ensures |lines| == |g|
  {
    seq(|g|, i requires 0 <= i < |g| => Render(g[i], Widths(g, i)))
  }

  function Cells(lines: seq<string>): (g: Grid)
    ensures |g| == |lines|
  {
    seq(|lines|, i requires 0 <= i < |lines| => Split(lines[i], '\t'))
  }

  /** Text after the last newline that ends in a tab has no further, empty cell: only a newline or more text
      would terminate it. */
  function CloseRow(row: Row): Row {
    if |row| > 1 && row[|row| - 1] == "" then row[..|row| - 1] else row
  }

  function CloseLast(g: Grid): (r: Grid)
    ensures |r| == |g|
  {
    if g == [] then g else g[|g| - 1 := CloseRow(g[|g| - 1])]
  }

  function FormatResources(resources: string): string {
    Join(Align(CloseLast(Cells(Split(Squeeze(resources), '\n')))), '\n')
  }

  /** Empty cells at the start of a line are padded with tabs and leave no trace. */
  lemma {:induction false} LeadingEmptyCells(row: Row, widths: seq<nat>, n: nat)
    requires Fit(row, widths) && n < |row| && forall k :: 0 <= k < n ==> row[k] == ""
    ensures Render(row, widths) == Render(row[n..], widths[n..])
    decreases n
  {
    if n == 0 {
      assert row[0..] == row && widths[0..] == widths;
    } else {
      LeadingEmptyCells(row[1..], widths[1..], n - 1);
      assert row[1..][n - 1..] == row[n..] && widths[1..][n - 1..] == widths[n..];
    }
  }

  lemma {:induction false} SkipSpacesEnd(s: string)
    requires s != "" && s[|s| - 1] != ' '
    ensures SkipSpaces(s) != "" && SkipSpaces(s)[|SkipSpaces(s)| - 1] == s[|s| - 1]
  {
    if s[0] == ' ' {
      SkipSpacesEnd(s[1..]);
    }
  }

  lemma {:induction false} SqueezeEnd(s: string)
    requires s != "" && s[|s| - 1] != ' '
    ensures Squeeze(s) != "" && Squeeze(s)[|Squeeze(s)| - 1] == s[|s| - 1]
    decreases |s|
  {
    if |s| == 1 {
      assert s[1..] == "";
    } else if s[0] == ' ' && s[1] == ' ' {
      SkipSpacesEnd(s[2..]);
      SqueezeEnd(SkipSpaces(s[2..]));
    } else {
      SqueezeEnd(s[1..]);
    }
  }

  lemma HeadAcross(x: string, parts: seq<string>, more: seq<string>)
    requires parts != []
    ensures [x + (parts + more)[0]] + (parts + more)[1..] == [x + parts[0]] + parts[1..] + more
  {
  }

  lemma {:induction false} SplitAcross(a: string, c: char, b: string)
    ensures Split(a + [c] + b, c) == Split(a, c) + Split(b, c)
  {
    if a == "" {
      assert a + [c] + b == [c] + b;
    } else {
      assert (a + [c] + b)[1..] == a[1..] + [c] + b;
      SplitAcross(a[1..], c, b);
      HeadAcross([a[0]], Split(a[1..], c), Split(b, c));
    }
  }

  lemma {:induction false} LastCut(s: string, c: char) returns (n: nat)
    ensures n <= |s| && c !in s[n..] && (n > 0 ==> s[n - 1] == c)
  {
    n := |s|;
    if s != "" && s[|s| - 1] != c {
      n := LastCut(s[..|s| - 1], c);
      assert s[n..] == s[..|s| - 1][n..] + [s[|s| - 1]];
    }
  }

  lemma SplitBeforeLast(front: string, last: string, c: char)
    requires c !in last
    ensures Split(front + [c] + last, c) == Split(front, c) + [last]
  {
    SplitAcross(front, c, last);
    SplitWithoutSeparator(last, c);
  }

  /** Where the last line of a text starts does not depend on what follows it on that line. */
  lemma LastLine(s: string, x: string, c: char) returns (front: seq<string>, last: string)
    requires s != "" && s[|s| - 1] != c && c !in x
    ensures last != "" && last[|last| - 1] == s[|s| - 1]
    ensures Split(s, c) == front + [last] && Split(s + x, c) == front + [last + x]
  {
    var n := LastCut(s, c);
    last := s[n..];
    if n == 0 {
      front := [];
      SplitWithoutSeparator(s, c);
      SplitWithoutSeparator(s + x, c);
    } else {
      var before := s[..n - 1];
      front := Split(before, c);
      assert s == before + [c] + last && s + x == before + [c] + (last + x);
      SplitBeforeLast(before, last, c);
      SplitBeforeLast(before, last + x, c);
    }
  }

  lemma CloseAppended(line: string)
    requires line != "" && line[|line| - 1] != '\t'
    ensures CloseRow(Split(line + "\t", '\t')) == CloseRow(Split(line, '\t'))
  {
    var front, last := LastLine(line, "", '\t');
    assert line + "" == line && line + "\t" == line + ['\t'] + "";
    SplitAcross(line, '\t', "");
  }

  lemma CloseLastOf(front: seq<string>, line: string)
    ensures CloseLast(Cells(front + [line])) == Cells(front) + [CloseRow(Split(line, '\t'))]
  {
  }

  lemma CloseLastTab(front: seq<string>, last: string)
    requires last != "" && last[|last| - 1] != '\t'
    ensures CloseLast(Cells(front + [last + "\t"])) == CloseLast(Cells(front + [last]))
  {
    CloseAppended(last);
    CloseLastOf(front, last);
    CloseLastOf(front, last + "\t");
  }

  /** A text that does not end in a newline may end in spaces: if two or more, they are dropped. */
  lemma TrailingSpacesDropped(a: string, n: nat)
    requires a != "" && a[|a| - 1] != ' ' && a[|a| - 1] != '\t' && a[|a| - 1] != '\n' && n >= 2
    ensures FormatResources(a + Spaces(n)) == FormatResources(a)
  {
    assert Squeeze(a + Spaces(n)) == Squeeze(a) + "\t" by {
      SqueezeApart(a, Spaces(n));
      SqueezeGap(n, "");
      assert Spaces(n) + "" == Spaces(n);
    }
    SqueezeEnd(a);
    var front, last := LastLine(Squeeze(a), "\t", '\n');
    CloseLastTab(front, last);
  }

  // ---------- columns are blocks of equal width ----------

  /** Adjacent lines with the column share its width. */
  lemma WidthShared(g: Grid, i: nat, k: nat)
    requires i + 1 < |g| && HasColumn(g[i], k) && HasColumn(g[i + 1], k)
    ensures Width(g, i, k) == Width(g, i + 1, k)
  {
  }

  /** Lines of one block: `lo..hi` all have the column and the block extends no further. */
  predicate IsBlock(g: Grid, lo: nat, hi: nat, k: nat) {
    && lo < hi <= |g|
    && (forall i :: lo <= i < hi ==> HasColumn(g[i], k))
    && (lo == 0 || !HasColumn(g[lo - 1], k))
    && (hi == |g| || !HasColumn(g[hi], k))
  }

  /** A column is exactly as wide as its widest tab-terminated cell plus the padding. */
  lemma WidthIsWidestCell(g: Grid, lo: nat, hi: nat, k: nat, i: nat)
    requires IsBlock(g, lo, hi, k) && lo <= i < hi
    ensures forall j :: lo <= j < hi ==> |g[j][k]| + 2 <= Width(g, i, k)
    ensures exists j :: lo <= j < hi && |g[j][k]| + 2 == Width(g, i, k)
  {
    var a := AboveAttained(g, lo, hi, k, i);
    var b := BelowAttained(g, lo, hi, k, i);
    assert |g[a][k]| + PADDING == Width(g, i, k) || |g[b][k]| + PADDING == Width(g, i, k);
  }

  lemma {:induction false} AboveAttained(g: Grid, lo: nat, hi: nat, k: nat, i: nat) returns (a: nat)
    requires IsBlock(g, lo, hi, k) && lo <= i < hi
    ensures lo <= a <= i && |g[a][k]| == WidestAbove(g, i, k)
    ensures forall j :: lo <= j <= i ==> |g[j][k]| <= WidestAbove(g, i, k)
  {
    a := i;
    if i > lo {
      var a' := AboveAttained(g, lo, hi, k, i - 1);
      a := if |g[a'][k]| > |g[i][k]| then a' else i;
    }
  }

  lemma {:induction false} BelowAttained(g: Grid, lo: nat, hi: nat, k: nat, i: nat) returns (b: nat)
    requires IsBlock(g, lo, hi, k) && lo <= i < hi
    ensures i <= b < hi && |g[b][k]| == WidestBelow(g, i, k)
    ensures forall j :: i <= j < hi ==> |g[j][k]| <= WidestBelow(g, i, k)
    decreases hi - i
  {
    b := i;
    if i + 1 < hi {
      var b' := BelowAttained(g, lo, hi, k, i + 1);
      b := if |g[b'][k]| > |g[i][k]| then b' else i;
    }
  }

  // ---------- a one-cell line cuts the text into independent pieces ----------

  lemma {:induction false} BelowShift(a: Grid, b: Grid, i: nat, k: nat)
    requires i <= |b|
    ensures WidestBelow(a + b, |a| + i, k) == WidestBelow(b, i, k)
    decreases |b| - i
  {
    if i < |b| {
      BelowShift(a, b, i + 1, k);
    }
  }

  lemma {:induction false} BelowLocal(a: Grid, b: Grid, i: nat, k: nat)
    requires i <= |a|
    requires b == [] || !HasColumn(b[0], k)
    ensures WidestBelow(a + b, i, k) == WidestBelow(a, i, k)
    decreases |a| - i
  {
    if i < |a| {
      BelowLocal(a, b, i + 1, k);
    }
  }

  lemma {:induction false} AbovePrefix(a: Grid, b: Grid, i: int, k: nat)
    requires i < |a|
    ensures WidestAbove(a + b, i, k) == WidestAbove(a, i, k)
    decreases i
  {
    if i >= 0 {
      AbovePrefix(a, b, i - 1, k);
    }
  }

  /** Alignment of two texts put together is their separate alignment, if the second one starts
      with a line of a single cell. */
  lemma AlignAcross(a: Grid, b: Grid)
    requires b != [] && |b[0]| == 1
    ensures Align(a + b) == Align(a) + Align(b)
  {
    var g := a + b;
    forall i | 0 <= i < |a|
      ensures Align(g)[i] == Align(a)[i]
    {
      forall k: nat | HasColumn(a[i], k)
        ensures Width(g, i, k) == Width(a, i, k)
      {
        AbovePrefix(a, b, i, k);
        BelowLocal(a, b, i, k);
      }
      assert Widths(g, i) == Widths(a, i);
    }
    forall i | 0 <= i < |b|
      ensures Align(g)[|a| + i] == Align(b)[i]
    {
      forall k: nat | HasColumn(b[i], k)
        ensures Width(g, |a| + i, k) == Width(b, i, k)
      {
        BelowShift(a, b, i, k);
        AboveWithin(a, b, i, k);
      }
      assert Widths(g, |a| + i) == Widths(b, i);
    }
  }

  lemma {:induction false} AboveWithin(a: Grid, b: Grid, i: nat, k: nat)
    requires i < |b| && |b[0]| == 1
    ensures WidestAbove(a + b, |a| + i, k) == WidestAbove(b, i, k)
  {
    if i > 0 {
      AboveWithin(a, b, i - 1, k);
    }
  }
}
