/** The parts of Go's `strings` package the broker relies on, over ASCII text. */
module Text {

  // unicode.IsSpace restricted to ASCII.
  const SPACES: set<char> := {' ', '\t', '\n', '\r', '\U{0B}', '\U{0C}'}

  predicate HasPrefix(s: string, prefix: string) {
    prefix <= s
  }

  predicate MatchAt(s: string, pat: string, i: int) {
    0 <= i && i + |pat| <= |s| && s[i..i + |pat|] == pat
  }

  /** strings.Index: the offset of the first occurrence, or -1. */
  function Index(s: string, pat: string): (r: int)
    ensures r >= -1
  {
    if HasPrefix(s, pat) then
      0
    else if s == "" then
      -1
    else
      var r := Index(s[1..], pat);
      if r < 0 then -1 else r + 1
  }

  lemma MatchShift(s: string, pat: string, i: int)
    requires s != "" && i > 0
    ensures MatchAt(s, pat, i) <==> MatchAt(s[1..], pat, i - 1)
  {
    if i + |pat| <= |s| {
      assert s[1..][i - 1..i - 1 + |pat|] == s[i..i + |pat|];
    }
  }

  /** Index finds an occurrence if there is one, and the first. */
  lemma {:induction false} IndexIsFirstMatch(s: string, pat: string)
    ensures var r := Index(s, pat);
            && (r == -1 || MatchAt(s, pat, r))
            && forall i :: MatchAt(s, pat, i) ==> 0 <= r <= i
  {
    if !HasPrefix(s, pat) && s != "" {
      IndexIsFirstMatch(s[1..], pat);
      var r := Index(s[1..], pat);
      if r >= 0 {
        MatchShift(s, pat, r + 1);
      }
      forall i | MatchAt(s, pat, i)
        ensures 0 <= r <= i - 1
      {
        MatchShift(s, pat, i);
      }
    }
  }

  predicate Contains(s: string, pat: string) {
    Index(s, pat) >= 0
  }

  /** A pattern without `c` is found either before the first separator `c` or after it. */
  lemma {:induction false} IndexAcross(a: string, c: char, b: string, pat: string)
    requires pat != "" && c !in pat
    ensures Index(a + [c] + b, pat) ==
            if Index(a, pat) >= 0 then Index(a, pat)
            else if Index(b, pat) >= 0 then |a| + 1 + Index(b, pat)
            else -1
  {
    var s := a + [c] + b;
    PrefixAcross(a, c, b, pat);
    if a == "" {
      assert s[1..] == b;
    } else if !HasPrefix(a, pat) {
      assert s[1..] == a[1..] + [c] + b;
      IndexAcross(a[1..], c, b, pat);
    }
  }

  lemma PrefixAcross(a: string, c: char, b: string, pat: string)
    requires c !in pat
    ensures HasPrefix(a + [c] + b, pat) <==> HasPrefix(a, pat)
  {
    var s := a + [c] + b;
    assert s[|a|] == c;
    assert |pat| <= |a| ==> s[..|pat|] == a[..|pat|];
  }

  /** A text that lacks some character of the pattern has no occurrence of it. */
  lemma IndexNeedsEveryChar(s: string, pat: string, c: char)
    requires c in pat
    ensures Contains(s, pat) ==> c in s
  {
    if Contains(s, pat) {
      var r := Index(s, pat);
      IndexIsFirstMatch(s, pat);
      var k :| 0 <= k < |pat| && pat[k] == c;
      assert s[r..r + |pat|][k] == s[r + k];
    }
  }

  lemma IndexOfPrefix(s: string, pat: string)
    requires HasPrefix(s, pat)
    ensures Index(s, pat) == 0
  {
  }

  lemma ContainsInfix(a: string, pat: string, b: string)
    ensures Contains(a + pat + b, pat)
  {
    var s := a + pat + b;
    IndexIsFirstMatch(s, pat);
    assert s[|a|..|a| + |pat|] == pat;
    assert MatchAt(s, pat, |a|);
  }

  /** strings.Split with a one-character separator: always at least one part. */
  function Split(s: string, c: char): (parts: seq<string>)
    ensures parts != []
    ensures forall p :: p in parts ==> c !in p
    ensures Join(parts, c) == s
  {
    if s == "" then
      [""]
    else
      var rest := Split(s[1..], c);
      if s[0] == c then
        [""] + rest
      else
        assert ([[s[0]] + rest[0]] + rest[1..])[1..] == rest[1..];
        [[s[0]] + rest[0]] + rest[1..]
  }

  /** strings.Join with a one-character separator. */
  function Join(parts: seq<string>, c: char): string {
    if parts == [] then
      ""
    else if |parts| == 1 then
      parts[0]
    else
      parts[0] + [c] + Join(parts[1..], c)
  }

  lemma {:induction false} SplitAtSeparator(a: string, c: char, b: string)
    requires c !in a
    ensures Split(a + [c] + b, c) == [a] + Split(b, c)
  {
    if a == "" {
      assert a + [c] + b == [c] + b;
    } else {
      assert (a + [c] + b)[1..] == a[1..] + [c] + b;
      SplitAtSeparator(a[1..], c, b);
      assert [a[0]] + a[1..] == a;
    }
  }

  lemma {:induction false} SplitWithoutSeparator(s: string, c: char)
    requires c !in s
    ensures Split(s, c) == [s]
  {
    if s != "" {
      SplitWithoutSeparator(s[1..], c);
      assert [s[0]] + s[1..] == s;
    }
  }

  /** Splitting undoes joining when no part holds the separator. */
  lemma {:induction false} SplitJoin(parts: seq<string>, c: char)
    requires parts != []
    requires forall p :: p in parts ==> c !in p
    ensures Split(Join(parts, c), c) == parts
  {
    if |parts| == 1 {
      SplitWithoutSeparator(parts[0], c);
    } else {
      SplitJoin(parts[1..], c);
      SplitAtSeparator(parts[0], c, Join(parts[1..], c));
      assert [parts[0]] + parts[1..] == parts;
    }
  }

  /** The number of leading characters outside `seps`. */
  function WordLength(s: string, seps: set<char>): (n: nat)
    ensures n <= |s|
    ensures forall i :: 0 <= i < n ==> s[i] !in seps
    ensures n < |s| ==> s[n] in seps
  {
    if s == "" || s[0] in seps then 0 else 1 + WordLength(s[1..], seps)
  }

  /** strings.FieldsFunc: the maximal non-empty runs of characters outside `seps`. */
  function FieldsBy(s: string, seps: set<char>): (fields: seq<string>)
    ensures forall f :: f in fields ==> f != "" && forall c :: c in f ==> c !in seps
    decreases |s|
  {
    if s == "" then
      []
    else if s[0] in seps then
      FieldsBy(s[1..], seps)
    else
      var n := WordLength(s, seps);
      [s[..n]] + FieldsBy(s[n..], seps)
  }

  /** strings.Fields. */
  function Fields(s: string): seq<string> {
    FieldsBy(s, SPACES)
  }

  lemma {:induction false} FieldsAcross(a: string, c: char, b: string, seps: set<char>)
    requires c in seps
    ensures FieldsBy(a + [c] + b, seps) == FieldsBy(a, seps) + FieldsBy(b, seps)
    decreases |a|
  {
    var s := a + [c] + b;
    if a == "" {
      assert s[1..] == b;
    } else if a[0] in seps {
      assert s[1..] == a[1..] + [c] + b;
      FieldsAcross(a[1..], c, b, seps);
    } else {
      var n := WordLength(a, seps);
      WordLengthAcross(a, c, b, seps);
      assert s[..n] == a[..n];
      assert s[n..] == a[n..] + [c] + b;
      FieldsAcross(a[n..], c, b, seps);
    }
  }

  lemma {:induction false} WordLengthAcross(a: string, c: char, b: string, seps: set<char>)
    requires c in seps
    ensures WordLength(a + [c] + b, seps) == WordLength(a, seps)
  {
    if a != "" && a[0] !in seps {
      assert (a + [c] + b)[1..] == a[1..] + [c] + b;
      WordLengthAcross(a[1..], c, b, seps);
    }
  }

  lemma {:induction false} WordLengthPast(a: string, b: string, seps: set<char>)
    requires forall c :: c in a ==> c !in seps
    ensures WordLength(a + b, seps) == |a| + WordLength(b, seps)
  {
    if a == "" {
      assert a + b == b;
    } else {
      assert (a + b)[1..] == a[1..] + b;
      WordLengthPast(a[1..], b, seps);
    }
  }

  lemma FieldsOfWord(s: string, seps: set<char>)
    requires s != "" && forall c :: c in s ==> c !in seps
    ensures FieldsBy(s, seps) == [s]
  {
    assert WordLength(s, seps) == |s|;
    assert s[..|s|] == s && s[|s|..] == "";
  }

  function Spaces(n: nat): (s: string)
    ensures |s| == n && forall c :: c in s ==> c == ' '
  {
    seq(n, _ => ' ')
  }

  lemma {:induction false} FieldsOfSpaces(n: nat)
    ensures Fields(Spaces(n)) == []
  {
    if n > 0 {
      assert Spaces(n)[1..] == Spaces(n - 1);
      FieldsOfSpaces(n - 1);
    }
  }

  /** Padding after a text leaves its fields as they are. */
  lemma FieldsPadded(s: string, n: nat)
    ensures Fields(s + Spaces(n)) == Fields(s)
  {
    if n == 0 {
      assert s + Spaces(0) == s;
    } else {
      assert s + Spaces(n) == s + [' '] + Spaces(n - 1);
      FieldsAcross(s, ' ', Spaces(n - 1), SPACES);
      FieldsOfSpaces(n - 1);
    }
  }

  function LowerChar(c: char): char {
    if 'A' <= c <= 'Z' then (c as int + 32) as char else c
  }

  /** strings.ToLower. */
  function ToLower(s: string): (r: string)
    ensures |r| == |s|
  {
    seq(|s|, i requires 0 <= i < |s| => LowerChar(s[i]))
  }

  /** strings.EqualFold. */
  predicate EqualFold(a: string, b: string) {
    ToLower(a) == ToLower(b)
  }

  const CAPITALS := "ABCDEFGHIJKLMNOPQRSTUVWXYZ"
  const SMALLS := "abcdefghijklmnopqrstuvwxyz"

  lemma Alphabets()
    ensures |CAPITALS| == |SMALLS| == 26
    ensures forall i :: 0 <= i < 26 ==> CAPITALS[i] as int == 'A' as int + i && SMALLS[i] as int == 'a' as int + i
  {
  }

  lemma LetterExactly(c: char)
    ensures c in CAPITALS <==> 'A' <= c <= 'Z'
    ensures c in SMALLS <==> 'a' <= c <= 'z'
  {
    Alphabets();
    assert 'A' <= c <= 'Z' ==> CAPITALS[c as int - 'A' as int] == c;
    assert 'a' <= c <= 'z' ==> SMALLS[c as int - 'a' as int] == c;
  }

  /** Lowering turns the i-th capital into the i-th small letter and leaves every other character. */
  lemma LowerPairs()
    ensures |CAPITALS| == |SMALLS| == 26
    ensures forall i :: 0 <= i < 26 ==> LowerChar(CAPITALS[i]) == SMALLS[i]
    ensures forall c :: c !in CAPITALS ==> LowerChar(c) == c
  {
    Alphabets();
  }

  /** The two cases of one letter. */
  predicate CasePair(capital: char, small: char) {
    exists i :: 0 <= i < |CAPITALS| && i < |SMALLS| && CAPITALS[i] == capital && SMALLS[i] == small
  }

  /** The same character, or the two cases of one letter. */
  predicate SameLetter(a: char, b: char) {
    a == b || CasePair(a, b) || CasePair(b, a)
  }

  lemma CasePairExactly(capital: char, small: char)
    ensures CasePair(capital, small) <==> 'A' <= capital <= 'Z' && small as int == capital as int + 32
  {
    Alphabets();
    if 'A' <= capital <= 'Z' && small as int == capital as int + 32 {
      var i := capital as int - 'A' as int;
      assert CAPITALS[i] == capital && SMALLS[i] == small;
    }
  }

  lemma SameLetterFolds(a: char, b: char)
    ensures SameLetter(a, b) <==> LowerChar(a) == LowerChar(b)
  {
    CasePairExactly(a, b);
    CasePairExactly(b, a);
  }

  /** Two texts agree up to case exactly if they are equally long and their characters pair up. */
  lemma EqualFoldExactly(a: string, b: string)
    ensures EqualFold(a, b) <==> |a| == |b| && forall k :: 0 <= k < |a| ==> SameLetter(a[k], b[k])
  {
    if EqualFold(a, b) {
      forall k | 0 <= k < |a|
        ensures SameLetter(a[k], b[k])
      {
        assert ToLower(a)[k] == ToLower(b)[k];
        SameLetterFolds(a[k], b[k]);
      }
    }
    if |a| == |b| && forall k :: 0 <= k < |a| ==> SameLetter(a[k], b[k]) {
      forall k | 0 <= k < |a|
        ensures ToLower(a)[k] == ToLower(b)[k]
      {
        SameLetterFolds(a[k], b[k]);
      }
    }
  }

  /** bufio.ScanLines: lines end at '\n', a trailing '\r' is dropped, and text after the last '\n'
      is a line only if it is non-empty. */
  function ScanLines(s: string): seq<string> {
    var parts := Split(s, '\n');
    var lines := if parts[|parts| - 1] == "" then parts[..|parts| - 1] else parts;
    seq(|lines|, i requires 0 <= i < |lines| => DropReturn(lines[i]))
  }

  function DropReturn(line: string): string {
    if line != "" && line[|line| - 1] == '\r' then line[..|line| - 1] else line
  }

  /** Every line followed by a newline. */
  function Unlines(lines: seq<string>): string {
    if lines == [] then "" else lines[0] + "\n" + Unlines(lines[1..])
  }

  lemma {:induction false} SplitUnlines(lines: seq<string>)
    requires forall l :: l in lines ==> '\n' !in l
    ensures Split(Unlines(lines), '\n') == lines + [""]
  {
    if lines != [] {
      SplitUnlines(lines[1..]);
      SplitAtSeparator(lines[0], '\n', Unlines(lines[1..]));
      assert [lines[0]] + (lines[1..] + [""]) == lines + [""];
    }
  }

  lemma {:induction false} SplitLoose(lines: seq<string>, last: string)
    requires (forall l :: l in lines ==> '\n' !in l) && '\n' !in last
    ensures Split(Unlines(lines) + last, '\n') == lines + [last]
  {
    if lines == [] {
      assert Unlines(lines) + last == last;
      SplitWithoutSeparator(last, '\n');
    } else {
      var first, rest := lines[0], Unlines(lines[1..]) + last;
      assert Unlines(lines) + last == first + ['\n'] + rest;
      SplitLoose(lines[1..], last);
      SplitAtSeparator(first, '\n', rest);
      LinesAcross(lines, last);
    }
  }

  lemma LinesAcross(lines: seq<string>, last: string)
    requires lines != []
    ensures [lines[0]] + (lines[1..] + [last]) == lines + [last]
  {
  }

  function Returns(lines: seq<string>): (r: seq<string>)
    ensures |r| == |lines|
  {
    seq(|lines|, i requires 0 <= i < |lines| => lines[i] + "\r")
  }

  lemma ReturnsDropped(lines: seq<string>)
    requires forall l :: l in lines ==> '\r' !in l && '\n' !in l
    ensures forall i :: 0 <= i < |lines| ==>
              DropReturn(lines[i]) == lines[i] && DropReturn(Returns(lines)[i]) == lines[i]
    ensures forall l :: l in Returns(lines) ==> '\n' !in l
  {
    forall i | 0 <= i < |lines|
      ensures DropReturn(lines[i]) == lines[i] && DropReturn(Returns(lines)[i]) == lines[i]
    {
      assert lines[i] in lines;
    }
  }

  lemma ScanParts(s: string, lines: seq<string>, last: string)
    requires Split(s, '\n') == lines + [last]
    ensures |ScanLines(s)| == |lines| + (if last == "" then 0 else 1)
    ensures forall i :: 0 <= i < |lines| ==> ScanLines(s)[i] == DropReturn(lines[i])
    ensures last != "" ==> ScanLines(s)[|lines|] == DropReturn(last)
  {
    assert (lines + [last])[..|lines|] == lines;
  }

  /** A line may end in a carriage return, which is dropped, and the last one need not end at all. */
  lemma ScanLooseLines(lines: seq<string>, last: string, returned: bool)
    requires forall l :: l in lines ==> '\n' !in l && '\r' !in l
    requires '\n' !in last && '\r' !in last
    ensures ScanLines(Unlines(if returned then Returns(lines) else lines) + last)
            == lines + (if last == "" then [] else [last])
  {
    var printed := if returned then Returns(lines) else lines;
    ReturnsDropped(lines);
    SplitLoose(printed, last);
    ScanParts(Unlines(printed) + last, printed, last);
    assert last != "" ==> last[|last| - 1] in last;
  }

  /** Scanning undoes writing newline-terminated lines. */
  lemma ScanUnlines(lines: seq<string>)
    requires forall l :: l in lines ==> '\n' !in l && '\r' !in l
    ensures ScanLines(Unlines(lines)) == lines
  {
    SplitUnlines(lines);
    var parts := Split(Unlines(lines), '\n');
    assert parts[..|parts| - 1] == lines;
    forall i | 0 <= i < |lines|
      ensures DropReturn(lines[i]) == lines[i]
    {
      assert lines[i] in lines;
    }
  }
}
