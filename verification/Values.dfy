/** Chart values: merging template, plan and user values, and folding dotted keys into a nested tree
    (`strvals.ParseInto`), over maps that are iterated in an arbitrary order. */
module Values {
  import opened Outcomes
  import opened Text
  import opened Decimal
  import opened Unordered

  // ---------- merging ----------

  /** A loop that overrides entries one by one. */
  method Override(base: map<string, string>, values: map<string, string>) returns (r: map<string, string>)
    ensures r == base + values
  {
    r := base;
    var keys := values.Keys;
    while keys != {}
      invariant keys <= values.Keys
      invariant r == base + (values - keys)
    {
      var key := PickKey(keys);
      r := r[key := values[key]];
      keys := keys - {key};
    }
  }

  /** `Service.ChartValues` on a rendered template: plan values override template values. */
  method ChartValues(rendered: map<string, string>, plan: map<string, string>) returns (r: map<string, string>)
    ensures r == rendered + plan
  {
    r := Override(rendered, plan);
  }

  /** `getChartValues`: in every iteration order of every loop, user parameters override plan values,
      which override template values, and no other key appears. */
  method GetChartValues(rendered: map<string, string>, plan: map<string, string>,
                        parameters: map<string, string>) returns (r: map<string, string>)
    ensures r.Keys == rendered.Keys + plan.Keys + parameters.Keys
    ensures forall k :: k in r ==>
              r[k] == if k in parameters then parameters[k] else if k in plan then plan[k] else rendered[k]
  {
    var chartValues := ChartValues(rendered, plan);
    var templates := Override(map[], chartValues);
    r := Override(templates, parameters);
  }

  /** The values `Install` hands to Tiller: a template that cannot be rendered is only logged, and the
      release is installed with no values at all, not even the user's. */
  method InstallValues(rendered: Option<map<string, string>>, plan: map<string, string>,
                       parameters: map<string, string>) returns (r: map<string, string>)
    ensures r == if rendered.Some? then rendered.value + plan + parameters else map[]
  {
    r := map[];
    if rendered.Some? {
      r := GetChartValues(rendered.value, plan, parameters);
    }
  }

  // ---------- trees ----------

  datatype Scalar = Flag(flag: bool) | Number(number: Int) | Words(words: string)

  datatype Tree = Leaf(value: Scalar) | Branch(children: map<string, Tree>)

  const EMPTY := Branch(map[])

  /** The typed value of a text: booleans, numbers that do not start with '0', or the text itself. */
  function Typed(s: string): Scalar {
    if EqualFold(s, "true") then Flag(true)
    else if EqualFold(s, "false") then Flag(false)
    else if s != "" && s[0] != '0' && Atoi(s).Some? then Number(Atoi(s).value)
    else Words(s)
  }

  /** The characters of `word`, each in either case. */
  ghost predicate Spells(s: string, word: string) {
    |s| == |word| && forall k :: 0 <= k < |s| ==> SameLetter(s[k], word[k])
  }

  /** The scalar a text stands for, character by character. */
  ghost predicate Denotes(s: string, v: Scalar) {
    match v
    case Flag(flag) => Spells(s, if flag then "true" else "false")
    case Number(n) => Numeral(s, n) && !HasPrefix(s, "0")
    case Words(words) => words == s && !Spells(s, "true") && !Spells(s, "false") && (HasPrefix(s, "0") || NoNumber(s))
  }

  lemma SpellsExactly(s: string, word: string)
    ensures Spells(s, word) <==> EqualFold(s, word)
  {
    EqualFoldExactly(s, word);
  }

  /** No text spells both words, and none that spells one is a number. */
  lemma SpelledApart(s: string)
    ensures !(EqualFold(s, "true") && EqualFold(s, "false"))
    ensures EqualFold(s, "true") || EqualFold(s, "false") ==> Atoi(s).None?
  {
    if EqualFold(s, "true") {
      LetterFirst(s, "true");
    }
    if EqualFold(s, "false") {
      LetterFirst(s, "false");
    }
  }

  lemma LetterFirst(s: string, word: string)
    requires EqualFold(s, word) && word != "" && 'a' <= word[0] <= 'z'
    ensures |s| == |word| && Atoi(s).None?
  {
    assert |ToLower(s)| == |ToLower(word)|;
    assert ToLower(s)[0] == ToLower(word)[0];
  }

  /** The scalar of a text: `true` and `false` for their own letters in any case, the number for a numeral
      in 64 bits that does not start with '0', and the text itself for every other one. */
  lemma TypedExactly(s: string, v: Scalar)
    ensures Typed(s) == v <==> Denotes(s, v)
  {
    SpellsExactly(s, "true");
    SpellsExactly(s, "false");
    NoNumberExactly(s);
    SpelledApart(s);
    if v.Number? {
      AtoiExactly(s, v.number);
    }
  }

  /** Every written number but 0 is read as itself. */
  lemma TypedItoa(n: int)
    requires IsInt(n) && n != 0
    ensures Typed(Itoa(n)) == Number(n)
  {
    AtoiItoa(n);
    SpelledApart(Itoa(n));
    NoLeadingZero(if n < 0 then -n else n);
  }

  /** Walking down a path to a scalar. */
  function Lookup(t: Tree, path: seq<string>): Option<Scalar>
    decreases |path|
  {
    if path == [] then
      if t.Leaf? then Some(t.value) else None
    else if t.Branch? && path[0] in t.children then
      Lookup(t.children[path[0]], path[1..])
    else
      None
  }

  /** Every branch below the root has children. */
  predicate Trimmed(t: Tree) {
    t.Branch? ==>
      forall k :: k in t.children ==>
        (t.children[k].Branch? ==> t.children[k].children.Keys != {}) && Trimmed(t.children[k])
  }

  /** A trimmed branch that is not empty has a scalar below it. */
  lemma {:induction false} ScalarBelow(t: Tree) returns (path: seq<string>)
    requires Trimmed(t) && (t.Branch? ==> t.children.Keys != {})
    ensures Lookup(t, path).Some?
  {
    path := [];
    if t.Branch? {
      var k := SomeKey(t.children.Keys);
      var rest := ScalarBelow(t.children[k]);
      path := [k] + rest;
    }
  }

  /** Trimmed trees with the same scalars on all paths are equal. */
  lemma {:induction false} TreesEqual(a: Tree, b: Tree)
    requires a.Branch? && b.Branch? && Trimmed(a) && Trimmed(b)
    requires forall path :: Lookup(a, path) == Lookup(b, path)
    ensures a == b
  {
    SameKeys(a, b);
    SameKeys(b, a);
    forall k | k in a.children
      ensures a.children[k] == b.children[k]
    {
      var x, y := a.children[k], b.children[k];
      forall path
        ensures Lookup(x, path) == Lookup(y, path)
      {
        assert ([k] + path)[1..] == path;
        assert Lookup(a, [k] + path) == Lookup(b, [k] + path);
      }
      assert Lookup(x, []) == Lookup(y, []);
      if x.Branch? && y.Branch? {
        TreesEqual(x, y);
      }
    }
  }

  lemma SameKeys(a: Tree, b: Tree)
    requires a.Branch? && b.Branch? && Trimmed(a)
    requires forall path :: Lookup(a, path) == Lookup(b, path)
    ensures a.children.Keys <= b.children.Keys
  {
    forall k | k in a.children
      ensures k in b.children
    {
      var path := ScalarBelow(a.children[k]);
      assert ([k] + path)[1..] == path;
      assert Lookup(a, [k] + path).Some?;
    }
  }

  // ---------- setting one value ----------

  /** Setting the scalar on a path. A scalar in the way of the path fails a type assertion. */
  function Insert(t: Tree, path: seq<string>, x: Scalar): (r: Outcome<Tree>)
    requires t.Branch? && path != []
    ensures r.Return? ==> r.value.Branch? && path[0] in r.value.children
    decreases |path|
  {
    var k := path[0];
    if |path| == 1 then
      Return(Branch(t.children[k := Leaf(x)]))
    else if k in t.children && t.children[k].Leaf? then
      Panic
    else
      var inner :- Insert(if k in t.children then t.children[k] else EMPTY, path[1..], x);
      Return(Branch(t.children[k := inner]))
  }

  /** Setting fails exactly if a proper prefix of the path holds a scalar. */
  lemma {:induction false} InsertFails(t: Tree, path: seq<string>, x: Scalar)
    requires t.Branch? && path != []
    ensures Insert(t, path, x).Panic? <==> exists n :: 0 <= n < |path| && Lookup(t, path[..n]).Some?
    decreases |path|
  {
    var k := path[0];
    assert forall n :: 0 < n <= |path| ==> path[..n][0] == k && path[..n][1..] == path[1..][..n - 1];
    if |path| > 1 && !(k in t.children && t.children[k].Leaf?) {
      var inner := if k in t.children then t.children[k] else EMPTY;
      InsertFails(inner, path[1..], x);
      assert forall n :: 0 < n <= |path| ==> Lookup(t, path[..n]) == Lookup(inner, path[1..][..n - 1]);
      if Insert(inner, path[1..], x).Panic? {
        var n :| 0 <= n < |path[1..]| && Lookup(inner, path[1..][..n]).Some?;
        assert Lookup(t, path[..n + 1]).Some?;
      }
      if exists n :: 0 <= n < |path| && Lookup(t, path[..n]).Some? {
        var n :| 0 <= n < |path| && Lookup(t, path[..n]).Some?;
        assert Lookup(inner, path[1..][..n - 1]).Some?;
      }
    } else if |path| > 1 {
      assert Lookup(t, path[..1]).Some?;
    }
  }

  /** After setting a path, it holds the new scalar, everything below it is gone, and every other path
      is unchanged. */
  lemma {:induction false} InsertLookup(t: Tree, path: seq<string>, x: Scalar, other: seq<string>)
    requires t.Branch? && path != [] && Insert(t, path, x).Return?
    ensures Lookup(Insert(t, path, x).value, other) ==
            if other == path then Some(x) else if path < other then None else Lookup(t, other)
    decreases |path|
  {
    if other != [] && other[0] == path[0] {
      if |path| > 1 {
        var inner := if path[0] in t.children then t.children[path[0]] else EMPTY;
        InsertLookup(inner, path[1..], x, other[1..]);
        assert path == [path[0]] + path[1..] && other == [other[0]] + other[1..];
        assert path[1..] < other[1..] <==> path < other;
      } else {
        assert other == path <==> other[1..] == [];
      }
    }
  }

  lemma {:induction false} InsertTrimmed(t: Tree, path: seq<string>, x: Scalar)
    requires t.Branch? && path != [] && Trimmed(t)
    ensures Insert(t, path, x).Return? ==> Trimmed(Insert(t, path, x).value)
    decreases |path|
  {
    if |path| > 1 && !(path[0] in t.children && t.children[path[0]].Leaf?) {
      InsertTrimmed(if path[0] in t.children then t.children[path[0]] else EMPTY, path[1..], x);
    }
  }

  // ---------- reading "name=value" ----------

  /** What reading one assignment, or a whole text of them, comes to. */
  datatype Reading =
    | More(tree: Tree, rest: string)  // an assignment was read; go on with the rest
    | Done(tree: Tree)                // the text is used up
    | Malformed                       // an error is reported
    | Mismatch                        // a type assertion fails
    | ListSyntax                      // list syntax, which is not part of this model

  const KEY_STOPS: set<char> := {'=', '[', ',', '.'}

  datatype Token = Token(text: string, stop: Option<char>, rest: string)

  /** The text up to a stop character, with backslash escapes resolved. */
  function Until(s: string, stops: set<char>): (r: Token)
    ensures r.stop.Some? ==> |r.rest| < |s|
  {
    if s == "" then
      Token("", None, "")
    else if s[0] in stops then
      Token("", Some(s[0]), s[1..])
    else if s[0] == '\\' then
      if |s| == 1 then
        Token("", None, "")
      else
        var t := Until(s[2..], stops);
        t.(text := [s[1]] + t.text)
    else
      var t := Until(s[1..], stops);
      t.(text := [s[0]] + t.text)
  }

  /** Setting a child; an empty name is silently ignored. */
  function Put(t: Tree, name: string, child: Tree): Tree
    requires t.Branch?
  {
    if name == "" then t else Branch(t.children[name := child])
  }

  function ReadValue(t: Tree, name: string, s: string): (r: Reading)
    requires t.Branch?
    ensures r.More? ==> r.tree.Branch? && |r.rest| < |s|
    ensures r.Done? ==> r.tree.Branch?
  {
    if s == "" then
      Done(Put(t, name, Leaf(Words(""))))
    else if s[0] == '{' then
      ListSyntax
    else
      var token := Until(s, {','});
      var t' := Put(t, name, Leaf(Typed(token.text)));
      if token.stop.Some? then More(t', token.rest) else Done(t')
  }

  function ReadKey(t: Tree, s: string): (r: Reading)
    requires t.Branch?
    ensures r.More? ==> r.tree.Branch? && |r.rest| < |s|
    ensures r.Done? ==> r.tree.Branch?
    decreases |s|
  {
    var token := Until(s, KEY_STOPS);
    var k := token.text;
    if token.stop.None? then
      if k == "" then Done(t) else Malformed
    else if token.stop.value == '[' then
      ListSyntax
    else if token.stop.value == '=' then
      ReadValue(t, k, token.rest)
    else if token.stop.value == ',' then
      Malformed
    else if k in t.children && t.children[k].Leaf? then
      Mismatch
    else
      match ReadKey(if k in t.children then t.children[k] else EMPTY, token.rest)
      case More(inner, rest) =>
        if inner.children.Keys == {} then Malformed else More(Put(t, k, inner), rest)
      case Done(inner) =>
        if inner.children.Keys == {} then Malformed else Done(Put(t, k, inner))
      case other => other
  }

  /** `strvals.ParseInto`. */
  function ParseInto(s: string, t: Tree): (r: Reading)
    requires t.Branch?
    ensures !r.More?
    ensures r.Done? ==> r.tree.Branch?
    decreases |s|
  {
    match ReadKey(t, s)
    case More(t', rest) => ParseInto(rest, t')
    case other => other
  }

  // ---------- plain keys and values ----------

  function PathOf(key: string): seq<string> {
    Split(key, '.')
  }

  /** Non-empty components without special characters. */
  predicate PlainPath(path: seq<string>) {
    path != [] && forall i :: 0 <= i < |path| ==> PlainComponent(path[i])
  }

  predicate PlainComponent(c: string) {
    c != "" && forall x :: x in c ==> x !in KEY_STOPS && x != '\\'
  }

  predicate PlainValue(v: string) {
    (v != "" ==> v[0] != '{') && forall x :: x in v ==> x != ',' && x != '\\'
  }

  lemma {:induction false} UntilPlain(a: string, stops: set<char>, c: char, rest: string)
    requires forall x :: x in a ==> x !in stops && x != '\\'
    requires c in stops
    ensures Until(a + [c] + rest, stops) == Token(a, Some(c), rest)
  {
    if a == "" {
      assert (a + [c] + rest)[1..] == rest;
    } else {
      assert (a + [c] + rest)[1..] == a[1..] + [c] + rest;
      UntilPlain(a[1..], stops, c, rest);
    }
  }

  lemma {:induction false} UntilEnd(a: string, stops: set<char>)
    requires forall x :: x in a ==> x !in stops && x != '\\'
    ensures Until(a, stops) == Token(a, None, "")
  {
    if a != "" {
      UntilEnd(a[1..], stops);
    }
  }

  lemma {:induction false} ReadTyped(t: Tree, path: seq<string>, v: string)
    requires t.Branch? && PlainPath(path) && PlainValue(v)
    ensures ReadKey(t, Join(path, '.') + "=" + v) ==
            match Insert(t, path, Typed(v))
            case Panic => Mismatch
            case Return(t') => Done(t')
    decreases |path|
  {
    var k := path[0];
    assert PlainComponent(k);
    if |path| == 1 {
      assert Join(path, '.') + "=" + v == k + ['='] + v;
      UntilPlain(k, KEY_STOPS, '=', v);
      UntilEnd(v, {','});
    } else {
      var rest := Join(path[1..], '.') + "=" + v;
      assert Join(path, '.') + "=" + v == k + ['.'] + rest;
      UntilPlain(k, KEY_STOPS, '.', rest);
      if !(k in t.children && t.children[k].Leaf?) {
        ReadTyped(if k in t.children then t.children[k] else EMPTY, path[1..], v);
      }
    }
  }

  /** Reading "path=value" sets the scalar that the value denotes on the path. */
  lemma ReadPlain(t: Tree, path: seq<string>, v: string, x: Scalar)
    requires t.Branch? && PlainPath(path) && PlainValue(v) && Denotes(v, x)
    ensures ReadKey(t, Join(path, '.') + "=" + v) ==
            match Insert(t, path, x)
            case Panic => Mismatch
            case Return(t') => Done(t')
  {
    TypedExactly(v, x);
    ReadTyped(t, path, v);
  }

  // ---------- any keys and values, written with backslashes ----------

  const MARKS: set<char> := {'=', '[', ',', '.', '{', '\\'}

  function Escaped(s: string): string {
    if s == "" then "" else if s[0] in MARKS then ['\\', s[0]] + Escaped(s[1..]) else [s[0]] + Escaped(s[1..])
  }

  lemma {:induction false} UntilEscaped(s: string, stops: set<char>, tail: string)
    requires '\\' !in stops && stops <= MARKS && (tail != "" ==> tail[0] in stops)
    ensures Until(Escaped(s) + tail, stops) ==
            if tail == "" then Token(s, None, "") else Token(s, Some(tail[0]), tail[1..])
  {
    var written := Escaped(s) + tail;
    if s == "" {
      assert written == tail;
    } else {
      assert [s[0]] + s[1..] == s;
      UntilEscaped(s[1..], stops, tail);
      if s[0] in MARKS {
        assert written[2..] == Escaped(s[1..]) + tail;
      } else {
        assert written[1..] == Escaped(s[1..]) + tail;
      }
    }
  }

  datatype Setting = Setting(path: seq<string>, value: string)

  function Assignment(path: seq<string>, value: string): string
    requires path != []
  {
    Escaped(path[0]) + if |path| == 1 then "=" + Escaped(value) else "." + Assignment(path[1..], value)
  }

  ghost predicate Named(path: seq<string>) {
    path != [] && forall i :: 0 <= i < |path| ==> path[i] != ""
  }

  lemma ReadEscapedKey(t: Tree, k: string, stop: char, rest: string)
    requires t.Branch? && (stop == '.' || stop == '=')
    ensures var s := Escaped(k) + [stop] + rest;
            && Until(s, KEY_STOPS) == Token(k, Some(stop), rest)
            && (stop == '=' ==> ReadKey(t, s) == ReadValue(t, k, rest))
  {
    var tail := [stop] + rest;
    assert Escaped(k) + [stop] + rest == Escaped(k) + tail && tail[1..] == rest;
    UntilEscaped(k, KEY_STOPS, tail);
  }

  lemma ReadEscapedValue(t: Tree, name: string, v: string, tail: string)
    requires t.Branch? && name != "" && (tail != "" ==> tail[0] == ',')
    ensures var t' := Branch(t.children[name := Leaf(Typed(v))]);
            ReadValue(t, name, Escaped(v) + tail) == if tail == "" then Done(t') else More(t', tail[1..])
  {
    UntilEscaped(v, {','}, tail);
    assert v != "" ==> (Escaped(v) + tail)[0] == Escaped(v)[0] != '{';
    assert Typed("") == Words("") by {
      assert ToLower("") == "";
    }
  }

  /** An escaped assignment sets the typed value on the path, whatever the characters of either, and what
      follows a comma is left for the next assignment. */
  lemma {:induction false} ReadEscaped(t: Tree, path: seq<string>, v: string, tail: string)
    requires t.Branch? && Named(path) && (tail != "" ==> tail[0] == ',')
    ensures ReadKey(t, Assignment(path, v) + tail) ==
            match Insert(t, path, Typed(v))
            case Panic => Mismatch
            case Return(t') => if tail == "" then Done(t') else More(t', tail[1..])
    decreases |path|
  {
    var k := path[0];
    if |path| == 1 {
      assert Assignment(path, v) + tail == Escaped(k) + ['='] + (Escaped(v) + tail);
      ReadEscapedKey(t, k, '=', Escaped(v) + tail);
      ReadEscapedValue(t, k, v, tail);
    } else {
      var rest := Assignment(path[1..], v) + tail;
      assert Assignment(path, v) + tail == Escaped(k) + ['.'] + rest;
      ReadEscapedKey(t, k, '.', rest);
      if !(k in t.children && t.children[k].Leaf?) {
        ReadEscaped(if k in t.children then t.children[k] else EMPTY, path[1..], v, tail);
      }
    }
  }

  /** Assignments separated by commas. */
  ghost function Assignments(settings: seq<Setting>): string
    requires forall i :: 0 <= i < |settings| ==> Named(settings[i].path)
  {
    if settings == [] then
      ""
    else
      assert Named(settings[0].path);
      Assignment(settings[0].path, settings[0].value)
      + if |settings| == 1 then "" else "," + Assignments(settings[1..])
  }

  /** Setting one after the other, up to the first scalar in the way. */
  ghost function SetAll(t: Tree, settings: seq<Setting>): Outcome<Tree>
    requires t.Branch? && forall i :: 0 <= i < |settings| ==> Named(settings[i].path)
    decreases |settings|
  {
    if settings == [] then
      Return(t)
    else
      assert Named(settings[0].path);
      var t' :- Insert(t, settings[0].path, Typed(settings[0].value));
      SetAll(t', settings[1..])
  }

  /** A text of assignments sets them all, in order; so a comma in an unescaped value starts another key. */
  lemma {:induction false} ReadAssignments(t: Tree, settings: seq<Setting>)
    requires t.Branch? && forall i :: 0 <= i < |settings| ==> Named(settings[i].path)
    ensures ParseInto(Assignments(settings), t) ==
            match SetAll(t, settings)
            case Panic => Mismatch
            case Return(t') => Done(t')
    decreases |settings|
  {
    if settings != [] {
      var first := settings[0];
      var tail := if |settings| == 1 then "" else "," + Assignments(settings[1..]);
      assert Assignments(settings) == Assignment(first.path, first.value) + tail;
      ReadEscaped(t, first.path, first.value, tail);
      var inserted := Insert(t, first.path, Typed(first.value));
      if inserted.Return? {
        ReadAssignments(inserted.value, settings[1..]);
        assert |settings| > 1 ==> tail[1..] == Assignments(settings[1..]);
      }
    }
  }

  /** Texts without a usable assignment: a key with no value is malformed and an empty key is ignored. */
  lemma UnusableAssignment(t: Tree, key: string, rest: string)
    requires t.Branch? && PlainComponent(key)
    ensures ParseInto(key, t) == ParseInto(key + "," + rest, t) == Malformed
    ensures ParseInto("=" + Escaped(key), t) == Done(t)
  {
    UntilEnd(key, KEY_STOPS);
    UntilPlain(key, KEY_STOPS, ',', rest);
    EmptyKeyIgnored(t, key);
  }

  /** A bracket after a key and a brace before a value start a list. */
  lemma ListSyntaxRead(t: Tree, key: string, rest: string)
    requires t.Branch? && PlainComponent(key)
    ensures ParseInto(key + ['['] + rest, t) == ListSyntax
    ensures ParseInto(key + ['='] + ("{" + rest), t) == ListSyntax
  {
    UntilPlain(key, KEY_STOPS, '[', rest);
    UntilPlain(key, KEY_STOPS, '=', "{" + rest);
  }

  lemma EmptyKeyIgnored(t: Tree, v: string)
    requires t.Branch? && v != ""
    ensures ParseInto("=" + Escaped(v), t) == Done(t)
  {
    var written := "=" + Escaped(v);
    assert written[1..] == Escaped(v);
    UntilEscaped(v, {','}, "");
    assert Escaped(v) + "" == Escaped(v);
    assert Escaped(v)[0] != '{';
  }

  // ---------- folding all values, in any order ----------

  /** The loop of `ConvertInterfaceToByte`, for one iteration order. */
  function Fold(order: seq<string>, vals: map<string, string>, t: Tree): (r: Reading)
    requires t.Branch? && forall k :: k in order ==> k in vals
    ensures !r.More?
    ensures r.Done? ==> r.tree.Branch?
  {
    if order == [] then
      Done(t)
    else
      match ParseInto(order[0] + "=" + vals[order[0]], t)
      case Done(t') => Fold(order[1..], vals, t')
      case other => other
  }

  lemma {:induction false} FoldSnoc(order: seq<string>, k: string, vals: map<string, string>, t: Tree)
    requires t.Branch? && k in vals && forall j :: j in order ==> j in vals
    ensures forall j :: j in order + [k] ==> j in vals
    ensures Fold(order + [k], vals, t) ==
            match Fold(order, vals, t)
            case Done(t') => ParseInto(k + "=" + vals[k], t')
            case other => other
  {
    if order != [] {
      assert (order + [k])[1..] == order[1..] + [k];
      var r := ParseInto(order[0] + "=" + vals[order[0]], t);
      if r.Done? {
        FoldSnoc(order[1..], k, vals, r.tree);
      }
    }
  }

  lemma {:induction false} FoldStuck(a: seq<string>, b: seq<string>, vals: map<string, string>, t: Tree)
    requires t.Branch? && (forall k :: k in a ==> k in vals) && (forall k :: k in b ==> k in vals)
    requires !Fold(a, vals, t).Done?
    ensures Fold(a + b, vals, t) == Fold(a, vals, t)
  {
    assert (a + b)[1..] == a[1..] + b;
    var r := ParseInto(a[0] + "=" + vals[a[0]], t);
    if r.Done? {
      FoldStuck(a[1..], b, vals, r.tree);
    }
  }

  /** Keys with non-empty components and no special characters, values without any. */
  ghost predicate Plain(vals: map<string, string>) {
    forall k :: k in vals ==> PlainPath(PathOf(k)) && PlainValue(vals[k])
  }

  /** No key is a proper dotted prefix of another. */
  ghost predicate PrefixFree(keys: set<string>) {
    forall p, q :: p in keys && q in keys ==> !(PathOf(p) < PathOf(q))
  }

  lemma ParsePlain(t: Tree, key: string, v: string)
    requires t.Branch? && PlainPath(PathOf(key)) && PlainValue(v)
    ensures ParseInto(key + "=" + v, t) ==
            match Insert(t, PathOf(key), Typed(v))
            case Panic => Mismatch
            case Return(t') => Done(t')
  {
    ReadTyped(t, PathOf(key), v);
  }

  /** `t` holds exactly the scalars of the keys in `done`. */
  ghost predicate Holds(t: Tree, done: set<string>, vals: map<string, string>)
    requires done <= vals.Keys
  {
    && (forall k :: k in done ==> Lookup(t, PathOf(k)) == Some(Typed(vals[k])))
    && (forall path :: Lookup(t, path).Some? ==> path != [] && Join(path, '.') in done
                                                 && PathOf(Join(path, '.')) == path)
  }

  lemma RoomForPath(t: Tree, done: set<string>, k: string, vals: map<string, string>)
    requires t.Branch? && done <= vals.Keys && k in vals && Holds(t, done, vals)
    requires forall j :: j in done ==> !(PathOf(j) < PathOf(k))
    ensures Insert(t, PathOf(k), Typed(vals[k])).Return?
  {
    var path := PathOf(k);
    InsertFails(t, path, Typed(vals[k]));
    forall n | 0 <= n < |path|
      ensures !Lookup(t, path[..n]).Some?
    {
      assert path[..n] < path;
    }
  }

  lemma HoldsStep(t: Tree, done: set<string>, k: string, vals: map<string, string>)
    requires t.Branch? && done <= vals.Keys && k in vals && Holds(t, done, vals)
    requires forall j :: j in done ==> !(PathOf(k) < PathOf(j))
    requires Insert(t, PathOf(k), Typed(vals[k])).Return?
    ensures Holds(Insert(t, PathOf(k), Typed(vals[k])).value, done + {k}, vals)
  {
    var path, x := PathOf(k), Typed(vals[k]);
    var t' := Insert(t, path, x).value;
    assert Join(path, '.') == k;
    forall j | j in done + {k}
      ensures Lookup(t', PathOf(j)) == Some(Typed(vals[j]))
    {
      InsertLookup(t, path, x, PathOf(j));
    }
    forall other: seq<string> | Lookup(t', other).Some?
      ensures other != [] && Join(other, '.') in done + {k} && PathOf(Join(other, '.')) == other
    {
      InsertLookup(t, path, x, other);
    }
  }

  /** Whatever the order, prefix-free values are all stored under their paths, and nothing else is. */
  lemma {:induction false} FoldHolds(order: seq<string>, vals: map<string, string>, t: Tree, done: set<string>)
    requires t.Branch? && done <= vals.Keys && Plain(vals) && PrefixFree(vals.Keys)
    requires (forall k :: k in order ==> k in vals) && Holds(t, done, vals) && Trimmed(t)
    ensures Fold(order, vals, t).Done?
    ensures var t' := Fold(order, vals, t).tree;
            Trimmed(t') && Holds(t', done + (set k | k in order), vals)
    decreases |order|
  {
    if order == [] {
      assert done + (set k | k in order) == done;
    } else {
      var k := order[0];
      ParsePlain(t, k, vals[k]);
      RoomForPath(t, done, k, vals);
      HoldsStep(t, done, k, vals);
      InsertTrimmed(t, PathOf(k), Typed(vals[k]));
      FoldHolds(order[1..], vals, Insert(t, PathOf(k), Typed(vals[k])).value, done + {k});
      assert done + {k} + (set j | j in order[1..]) == done + (set j | j in order);
    }
  }

  lemma EmptyHolds(vals: map<string, string>)
    ensures Holds(EMPTY, {}, vals) && Trimmed(EMPTY)
  {
  }

  lemma FoldResult(vals: map<string, string>, order: seq<string>)
    requires Plain(vals) && PrefixFree(vals.Keys) && IsOrder(order, vals.Keys)
    ensures var r := Fold(order, vals, EMPTY); r.Done? && Trimmed(r.tree) && Holds(r.tree, vals.Keys, vals)
  {
    EmptyHolds(vals);
    FoldHolds(order, vals, EMPTY, {});
    assert {} + (set k | k in order) == vals.Keys;
  }

  /** The loop itself, in the order Go happens to choose. For plain keys of which none is a dotted prefix
      of another, that order does not show: the tree holds exactly the given values on their paths. */
  method ConvertValues(vals: map<string, string>) returns (r: Reading)
    ensures exists order :: IsOrder(order, vals.Keys) && r == Fold(order, vals, EMPTY)
    ensures Plain(vals) && PrefixFree(vals.Keys) ==>
              r.Done? && forall k :: k in vals ==> Stores(r.tree, PathOf(k), vals[k])
    ensures Plain(vals) && PrefixFree(vals.Keys) ==>
              forall path :: Lookup(r.tree, path).Some? ==> exists k :: k in vals && PathOf(k) == path
  {
    var base := EMPTY;
    var keys := vals.Keys;
    ghost var order := [];
    while keys != {}
      invariant base.Branch? && keys <= vals.Keys
      invariant IsOrder(order, vals.Keys - keys)
      invariant Fold(order, vals, EMPTY) == Done(base)
    {
      var name := PickKey(keys);
      r := ParseInto(name + "=" + vals[name], base);
      FoldSnoc(order, name, vals, EMPTY);
      OrderAppend(order, [name], vals.Keys - keys, {name});
      order := order + [name];
      assert vals.Keys - keys + {name} == vals.Keys - (keys - {name});
      keys := keys - {name};
      if !r.Done? {
        ghost var rest := OrderExists(keys);
        OrderAppend(order, rest, vals.Keys - keys, keys);
        assert vals.Keys - keys + keys == vals.Keys;
        FoldStuck(order, rest, vals, EMPTY);
        FoldOutcome(vals, order + rest);
        return;
      }
      base := r.tree;
    }
    r := Done(base);
    assert vals.Keys - {} == vals.Keys;
    FoldOutcome(vals, order);
  }

  /** The path holds the scalar that the text denotes. */
  ghost predicate Stores(t: Tree, path: seq<string>, text: string) {
    var x := Lookup(t, path);
    x.Some? && Denotes(text, x.value)
  }

  lemma FoldOutcome(vals: map<string, string>, order: seq<string>)
    requires IsOrder(order, vals.Keys)
    ensures Plain(vals) && PrefixFree(vals.Keys) ==>
              var r := Fold(order, vals, EMPTY);
              && r.Done?
              && (forall k :: k in vals ==> Stores(r.tree, PathOf(k), vals[k]))
              && forall path :: Lookup(r.tree, path).Some? ==> exists k :: k in vals && PathOf(k) == path
  {
    if Plain(vals) && PrefixFree(vals.Keys) {
      ValuesReadBack(vals, order);
      FoldResult(vals, order);
    }
  }

  /** Read-back: walking along any key's dotted path returns exactly the scalar its value denotes. */
  lemma ValuesReadBack(vals: map<string, string>, order: seq<string>)
    requires Plain(vals) && PrefixFree(vals.Keys) && IsOrder(order, vals.Keys)
    ensures Fold(order, vals, EMPTY).Done?
    ensures forall k :: k in vals ==> Stores(Fold(order, vals, EMPTY).tree, PathOf(k), vals[k])
  {
    FoldResult(vals, order);
    forall k | k in vals
      ensures Stores(Fold(order, vals, EMPTY).tree, PathOf(k), vals[k])
    {
      TypedExactly(vals[k], Typed(vals[k]));
    }
  }

  ghost predicate OrderIndependent(vals: map<string, string>) {
    forall a, b :: IsOrder(a, vals.Keys) && IsOrder(b, vals.Keys) ==>
                     Fold(a, vals, EMPTY) == Fold(b, vals, EMPTY)
  }

  lemma SameScalars(x: Tree, y: Tree, vals: map<string, string>, path: seq<string>)
    requires Holds(x, vals.Keys, vals) && Holds(y, vals.Keys, vals)
    ensures Lookup(x, path) == Lookup(y, path)
  {
    var k := Join(path, '.');
    assert Lookup(x, path).Some? || Lookup(y, path).Some? ==> k in vals && PathOf(k) == path;
  }

  lemma OrdersAgree(vals: map<string, string>, a: seq<string>, b: seq<string>)
    requires Plain(vals) && PrefixFree(vals.Keys) && IsOrder(a, vals.Keys) && IsOrder(b, vals.Keys)
    ensures Fold(a, vals, EMPTY) == Fold(b, vals, EMPTY)
  {
    FoldResult(vals, a);
    FoldResult(vals, b);
    var x, y := Fold(a, vals, EMPTY).tree, Fold(b, vals, EMPTY).tree;
    forall path
      ensures Lookup(x, path) == Lookup(y, path)
    {
      SameScalars(x, y, vals, path);
    }
    TreesEqual(x, y);
  }

  // ---------- a prefix conflict makes the order matter ----------

  /** In an empty tree there is room for every path. */
  lemma FirstInsert(path: seq<string>, x: Scalar)
    requires path != []
    ensures Insert(EMPTY, path, x).Return? && Lookup(Insert(EMPTY, path, x).value, path) == Some(x)
  {
    InsertFails(EMPTY, path, x);
    assert forall n :: 0 <= n < |path| ==> Lookup(EMPTY, path[..n]).None?;
    InsertLookup(EMPTY, path, x, path);
  }

  /** If the shorter key comes first, the longer one fails a type assertion. */
  lemma ShorterFirstFails(vals: map<string, string>, p: string, q: string, rest: seq<string>)
    requires Plain(vals) && p in vals && q in vals && PathOf(p) < PathOf(q)
    requires forall k :: k in rest ==> k in vals
    ensures Fold([p, q] + rest, vals, EMPTY) == Mismatch
  {
    ParsePlain(EMPTY, p, vals[p]);
    FirstInsert(PathOf(p), Typed(vals[p]));
    var t := Insert(EMPTY, PathOf(p), Typed(vals[p])).value;
    ParsePlain(t, q, vals[q]);
    InsertFails(t, PathOf(q), Typed(vals[q]));
    assert PathOf(q)[..|PathOf(p)|] == PathOf(p);
    assert ([p, q] + rest)[1..] == [q] + rest && ([q] + rest)[1..] == rest;
  }

  /** Longer paths before shorter ones. */
  ghost predicate LongestFirst(order: seq<string>) {
    forall i, j :: 0 <= i < j < |order| ==> |PathOf(order[i])| >= |PathOf(order[j])|
  }

  lemma {:induction false} Longest(keys: set<string>) returns (k: string)
    requires keys != {}
    ensures k in keys && forall j :: j in keys ==> |PathOf(j)| <= |PathOf(k)|
  {
    k := SomeKey(keys);
    if keys != {k} {
      assert keys - {k} != {};
      var j := Longest(keys - {k});
      k := if |PathOf(j)| > |PathOf(k)| then j else k;
    }
  }

  lemma {:induction false} LongestFirstExists(keys: set<string>) returns (order: seq<string>)
    ensures IsOrder(order, keys) && LongestFirst(order)
  {
    order := [];
    if keys != {} {
      var k := Longest(keys);
      var rest := LongestFirstExists(keys - {k});
      order := [k] + rest;
    }
  }

  /** Every scalar lies at least as deep as `n`. */
  ghost predicate Deep(t: Tree, n: nat) {
    forall path :: Lookup(t, path).Some? ==> |path| >= n
  }

  lemma DeepStep(t: Tree, path: seq<string>, x: Scalar)
    requires t.Branch? && path != [] && Deep(t, |path|)
    ensures Insert(t, path, x).Return? && Deep(Insert(t, path, x).value, |path|)
  {
    InsertFails(t, path, x);
    var t' := Insert(t, path, x).value;
    forall other | Lookup(t', other).Some?
      ensures |other| >= |path|
    {
      InsertLookup(t, path, x, other);
    }
  }

  lemma {:induction false} LongestFirstSucceeds(order: seq<string>, vals: map<string, string>, t: Tree)
    requires t.Branch? && Plain(vals) && LongestFirst(order) && forall k :: k in order ==> k in vals
    requires order != [] ==> Deep(t, |PathOf(order[0])|)
    ensures Fold(order, vals, t).Done?
    decreases |order|
  {
    if order != [] {
      var path, x := PathOf(order[0]), Typed(vals[order[0]]);
      ParsePlain(t, order[0], vals[order[0]]);
      DeepStep(t, path, x);
      LongestFirstSucceeds(order[1..], vals, Insert(t, path, x).value);
    }
  }

  lemma FailingOrder(vals: map<string, string>, p: string, q: string) returns (a: seq<string>)
    requires Plain(vals) && p in vals && q in vals && PathOf(p) < PathOf(q)
    ensures IsOrder(a, vals.Keys) && Fold(a, vals, EMPTY) == Mismatch
  {
    var rest := OrderExists(vals.Keys - {p, q});
    OrderAppend([p, q], rest, {p, q}, vals.Keys - {p, q});
    assert {p, q} + (vals.Keys - {p, q}) == vals.Keys;
    a := [p, q] + rest;
    ShorterFirstFails(vals, p, q, rest);
  }

  lemma WorkingOrder(vals: map<string, string>) returns (b: seq<string>)
    requires Plain(vals)
    ensures IsOrder(b, vals.Keys) && Fold(b, vals, EMPTY).Done?
  {
    b := LongestFirstExists(vals.Keys);
    LongestFirstSucceeds(b, vals, EMPTY);
  }

  /** For plain keys and values, every iteration order builds the same tree if and only if no key is a
      proper dotted prefix of another. */
  lemma OrderIndependence(vals: map<string, string>)
    requires Plain(vals)
    ensures OrderIndependent(vals) <==> PrefixFree(vals.Keys)
  {
    if PrefixFree(vals.Keys) {
      forall a, b | IsOrder(a, vals.Keys) && IsOrder(b, vals.Keys)
        ensures Fold(a, vals, EMPTY) == Fold(b, vals, EMPTY)
      {
        OrdersAgree(vals, a, b);
      }
    } else {
      var p, q :| p in vals && q in vals && PathOf(p) < PathOf(q);
      var a := FailingOrder(vals, p, q);
      var b := WorkingOrder(vals);
    }
  }
}
