/** `getName`: from instance ids to release names, over ASCII ids. */
module Names {
  import opened Outcomes
  import opened Text

  const PREFIX := "helmi"
  const KEPT := 14

  /** strings.Replace of a one-character text by nothing, everywhere. */
  function Without(s: string, c: char): string {
    if s == "" then "" else (if s[0] == c then "" else [s[0]]) + Without(s[1..], c)
  }

  function Normal(id: string): string {
    Without(Without(ToLower(id), '-'), '_')
  }

  /** Slicing panics when fewer than 14 characters are left. */
  function GetName(id: string): Outcome<string> {
    if HasPrefix(id, PREFIX) then Return(id)
    else if |Normal(id)| < KEPT then Panic
    else Return(PREFIX + Normal(id)[..KEPT])
  }

  // ---------- normalising ----------

  lemma {:induction false} WithoutAcross(a: string, b: string, c: char)
    ensures Without(a + b, c) == Without(a, c) + Without(b, c)
  {
    if a == "" {
      assert a + b == b;
    } else {
      assert (a + b)[1..] == a[1..] + b;
      WithoutAcross(a[1..], b, c);
    }
  }

  lemma NormalAcross(a: string, b: string)
    ensures Normal(a + b) == Normal(a) + Normal(b)
  {
    assert ToLower(a + b) == ToLower(a) + ToLower(b);
    WithoutAcross(ToLower(a), ToLower(b), '-');
    WithoutAcross(Without(ToLower(a), '-'), Without(ToLower(b), '-'), '_');
  }

  lemma {:induction false} WithoutAlphabet(s: string, c: char)
    ensures forall x :: x in Without(s, c) <==> x in s && x != c
  {
    if s != "" {
      WithoutAlphabet(s[1..], c);
    }
  }

  lemma {:induction false} WithoutAbsent(s: string, c: char)
    requires c !in s
    ensures Without(s, c) == s
  {
    if s != "" {
      WithoutAbsent(s[1..], c);
    }
  }

  /** What remains after normalising: no capital, no '-' and no '_'. */
  predicate PlainName(s: string) {
    forall i :: 0 <= i < |s| ==> !('A' <= s[i] <= 'Z') && s[i] != '-' && s[i] != '_'
  }

  lemma NormalIsPlain(id: string)
    ensures PlainName(Normal(id))
  {
    WithoutAlphabet(ToLower(id), '-');
    WithoutAlphabet(Without(ToLower(id), '-'), '_');
    forall i | 0 <= i < |Normal(id)|
      ensures var c := Normal(id)[i]; !('A' <= c <= 'Z') && c != '-' && c != '_'
    {
      assert Normal(id)[i] in Normal(id);
      var j :| 0 <= j < |id| && ToLower(id)[j] == Normal(id)[i];
    }
  }

  // ---------- names ----------

  /** The characters of an id that are no separators. */
  function SignificantCount(id: string): nat {
    if id == "" then 0 else (if id[0] == '-' || id[0] == '_' then 0 else 1) + SignificantCount(id[1..])
  }

  lemma {:induction false} NormalLength(id: string)
    ensures |Normal(id)| == SignificantCount(id)
  {
    if id != "" {
      assert id == [id[0]] + id[1..];
      NormalAcross([id[0]], id[1..]);
      NormalOfChar(id[0]);
      NormalLength(id[1..]);
    }
  }

  lemma NormalOfChar(c: char)
    ensures Normal([c]) == if c == '-' || c == '_' then "" else [LowerChar(c)]
  {
    var lower := LowerChar(c);
    assert ToLower([c]) == [lower] && [lower][1..] == "";
    assert Without("", '-') == "" && Without("", '_') == "";
    assert Without([lower], '-') == if lower == '-' then "" else [lower];
    assert Without([lower], '_') == if lower == '_' then "" else [lower];
  }

  /** Naming fails exactly for unprefixed ids with fewer than 14 characters besides '-' and '_'. */
  lemma NameDefined(id: string)
    ensures GetName(id).Panic? <==> !HasPrefix(id, PREFIX) && SignificantCount(id) < KEPT
  {
    NormalLength(id);
  }

  /** A release name is its own release name. */
  lemma NameIdempotent(id: string)
    ensures GetName(id).Return? ==> GetName(GetName(id).value) == GetName(id)
  {
  }

  /** Names of unprefixed ids: 19 characters, all plain. */
  lemma NameShape(id: string)
    requires !HasPrefix(id, PREFIX) && GetName(id).Return?
    ensures |GetName(id).value| == 19 && PlainName(GetName(id).value)
  {
    NormalIsPlain(id);
    var kept := Normal(id)[..KEPT];
    assert PlainName(PREFIX) && PlainName(kept);
    assert GetName(id).value == PREFIX + kept;
  }

  // ---------- the kept characters, position by position ----------

  /** `ps` are the positions of the first characters at or after `i` that are neither '-' nor '_'. */
  predicate FirstSignificant(id: string, i: nat, ps: seq<nat>) {
    && (forall j :: 0 <= j < |ps| ==> i <= ps[j] < |id| && id[ps[j]] != '-' && id[ps[j]] != '_')
    && (forall j, k :: 0 <= j < k < |ps| ==> ps[j] < ps[k])
    && (forall m :: i <= m < |id| && id[m] != '-' && id[m] != '_' && m !in ps ==>
                      forall j :: 0 <= j < |ps| ==> ps[j] < m)
  }

  lemma SignificantSkips(id: string, i: nat, ps: seq<nat>)
    requires i < |id| && (id[i] == '-' || id[i] == '_')
    ensures FirstSignificant(id, i, ps) <==> FirstSignificant(id, i + 1, ps)
  {
  }

  lemma SignificantTakes(id: string, i: nat, ps: seq<nat>)
    requires i < |id| && id[i] != '-' && id[i] != '_' && ps != []
    ensures FirstSignificant(id, i, ps) <==> ps[0] == i && FirstSignificant(id, i + 1, ps[1..])
  {
    var rest := ps[1..];
    assert ps == [ps[0]] + rest;
    assert forall m :: m in ps <==> m == ps[0] || m in rest;
  }

  lemma NormalFrom(id: string, i: nat)
    requires i < |id|
    ensures Normal(id[i..]) == (if id[i] == '-' || id[i] == '_' then "" else [LowerChar(id[i])]) + Normal(id[i + 1..])
  {
    assert id[i..] == [id[i]] + id[i + 1..];
    NormalAcross([id[i]], id[i + 1..]);
    NormalOfChar(id[i]);
  }

  /** As many positions exist as there are significant characters. */
  lemma {:induction false} SignificantExist(id: string, i: nat, n: nat) returns (ps: seq<nat>)
    requires i <= |id| && n <= |Normal(id[i..])|
    ensures |ps| == n && FirstSignificant(id, i, ps)
    decreases |id| - i
  {
    ps := [];
    if n > 0 {
      if i < |id| {
        NormalFrom(id, i);
      }
      if id[i] == '-' || id[i] == '_' {
        ps := SignificantExist(id, i + 1, n);
        SignificantSkips(id, i, ps);
      } else {
        var rest := SignificantExist(id, i + 1, n - 1);
        ps := [i] + rest;
        SignificantTakes(id, i, ps);
      }
    }
  }

  /** The lowered characters at these positions are what normalising keeps, in order. */
  lemma {:induction false} NormalAtPositions(id: string, i: nat, ps: seq<nat>)
    requires i <= |id| && FirstSignificant(id, i, ps)
    ensures |ps| <= |Normal(id[i..])|
    ensures forall j :: 0 <= j < |ps| ==> Normal(id[i..])[j] == LowerChar(id[ps[j]])
    decreases |id| - i
  {
    if ps != [] {
      assert i <= ps[0];
      NormalFrom(id, i);
      if id[i] == '-' || id[i] == '_' {
        SignificantSkips(id, i, ps);
        NormalAtPositions(id, i + 1, ps);
      } else {
        SignificantTakes(id, i, ps);
        NormalAtPositions(id, i + 1, ps[1..]);
      }
    }
  }

  /** The name is the prefix and, in order, the characters at these positions, each kept or turned from
      a capital into the same small letter. */
  predicate KeepsLetters(id: string, ps: seq<nat>, name: string)
    requires FirstSignificant(id, 0, ps) && |ps| == 14
  {
    && |name| == 19 && name[..5] == "helmi"
    && forall j :: 0 <= j < 14 ==> SameLetter(name[5 + j], id[ps[j]]) && !('A' <= name[5 + j] <= 'Z')
  }

  lemma KeptLetters(id: string, ps: seq<nat>)
    requires !HasPrefix(id, PREFIX) && FirstSignificant(id, 0, ps) && |ps| == 14
    ensures GetName(id).Return? && KeepsLetters(id, ps, GetName(id).value)
    ensures GetName(id) == Return("helmi" + Normal(id)[..14])
    ensures forall j :: 0 <= j < 14 ==> Normal(id)[j] == LowerChar(id[ps[j]])
  {
    assert id[0..] == id;
    NormalAtPositions(id, 0, ps);
    var name := GetName(id).value;
    assert name[5..] == Normal(id)[..KEPT];
    forall j | 0 <= j < 14
      ensures name[5 + j] == LowerChar(id[ps[j]]) && SameLetter(name[5 + j], id[ps[j]]) && !('A' <= name[5 + j] <= 'Z')
    {
      assert name[5..][j] == name[5 + j];
      SameLetterFolds(name[5 + j], id[ps[j]]);
    }
  }

  /** An unprefixed id has a name exactly if it has 14 significant characters, and its name keeps the
      first 14 of them. A prefixed id is its own name. */
  lemma NameLetters(id: string)
    ensures HasPrefix(id, "helmi") ==> GetName(id) == Return(id)
    ensures !HasPrefix(id, "helmi") ==>
              (GetName(id).Return? <==> exists ps :: |ps| == 14 && FirstSignificant(id, 0, ps))
    ensures !HasPrefix(id, "helmi") ==>
              forall ps :: |ps| == 14 && FirstSignificant(id, 0, ps) ==> KeepsLetters(id, ps, GetName(id).value)
  {
    assert id[0..] == id;
    if !HasPrefix(id, PREFIX) {
      if GetName(id).Return? {
        var ps := SignificantExist(id, 0, KEPT);
      }
      forall ps | |ps| == 14 && FirstSignificant(id, 0, ps)
        ensures GetName(id).Return? && KeepsLetters(id, ps, GetName(id).value)
      {
        KeptLetters(id, ps);
      }
    }
  }

  /** Two unprefixed ids share a release exactly when their first 14 significant characters pair up:
      each is the same, or the other case of the same letter. */
  lemma NamesCollide(a: string, ps: seq<nat>, b: string, qs: seq<nat>)
    requires !HasPrefix(a, PREFIX) && !HasPrefix(b, PREFIX)
    requires |ps| == |qs| == 14 && FirstSignificant(a, 0, ps) && FirstSignificant(b, 0, qs)
    ensures GetName(a) == GetName(b) <==> forall j :: 0 <= j < 14 ==> SameLetter(a[ps[j]], b[qs[j]])
  {
    KeptLetters(a, ps);
    KeptLetters(b, qs);
    var x, y := Normal(a)[..14], Normal(b)[..14];
    assert GetName(a).value[5..] == x && GetName(b).value[5..] == y;
    forall j | 0 <= j < 14
      ensures SameLetter(a[ps[j]], b[qs[j]]) <==> x[j] == y[j]
    {
      SameLetterFolds(a[ps[j]], b[qs[j]]);
    }
    assert (forall j :: 0 <= j < 14 ==> x[j] == y[j]) <==> x == y;
    assert (forall j :: 0 <= j < 14 ==> SameLetter(a[ps[j]], b[qs[j]])) ==> forall j :: 0 <= j < 14 ==> x[j] == y[j];
  }

  lemma {:induction false} LowerWithout(s: string, c: char)
    requires c == '-' || c == '_'
    ensures Without(ToLower(s), c) == ToLower(Without(s, c))
  {
    if s != "" {
      assert ToLower(s)[1..] == ToLower(s[1..]);
      LowerWithout(s[1..], c);
    }
  }

  /** The id without separators, in its own case. */
  function Significant(id: string): string {
    Without(Without(id, '-'), '_')
  }

  /** Neither the case of letters nor '-' and '_' matter: ids that agree after deleting the separators
      and lowering the rest have the same name, if neither starts with the prefix. */
  lemma NameIgnoresCaseAndSeparators(a: string, b: string)
    requires !HasPrefix(a, PREFIX) && !HasPrefix(b, PREFIX)
    requires EqualFold(Significant(a), Significant(b))
    ensures GetName(a) == GetName(b)
  {
    NormalIsLowered(a);
    NormalIsLowered(b);
  }

  lemma NormalIsLowered(id: string)
    ensures Normal(id) == ToLower(Significant(id))
  {
    LowerWithout(id, '-');
    LowerWithout(Without(id, '-'), '_');
  }

  /** In particular ids that differ only in case, and ids that differ only in separators. */
  lemma NameIgnoresCase(a: string, b: string)
    requires !HasPrefix(a, PREFIX) && !HasPrefix(b, PREFIX) && EqualFold(a, b)
    ensures GetName(a) == GetName(b)
  {
  }

  lemma NameIgnoresSeparators(a: string, b: string)
    requires !HasPrefix(a, PREFIX) && !HasPrefix(b, PREFIX) && Significant(a) == Significant(b)
    ensures GetName(a) == GetName(b)
  {
    NameIgnoresCaseAndSeparators(a, b);
  }
}
