/** Go iterates over a map in an arbitrary order: every search over a map takes the order as an
    argument, and the theorems hold for all of them. */
module Unordered {
  import opened Outcomes

  /** Each key exactly once. */
  ghost predicate IsOrder<K(!new)>(order: seq<K>, keys: set<K>) {
    && (forall k :: k in order <==> k in keys)
    && forall i, j :: 0 <= i < j < |order| ==> order[i] != order[j]
  }

  /** The next key a loop over the remaining keys visits. */
  method PickKey<K>(keys: set<K>) returns (k: K)
    requires keys != {}
    ensures k in keys
  {
    k :| k in keys;
  }

  lemma SomeKey<K>(keys: set<K>) returns (k: K)
    requires keys != {}
    ensures k in keys
  {
    k :| k in keys;
  }

  /** The first key of the iteration that is wanted: an early return from a `range` loop. */
  function FirstKey<K(==)>(order: seq<K>, wanted: set<K>): (r: Option<K>)
    ensures r.Some? ==> r.value in wanted && r.value in order
    ensures r.None? ==> forall k :: k in order ==> k !in wanted
  {
    if order == [] then
      None
    else if order[0] in wanted then
      Some(order[0])
    else
      FirstKey(order[1..], wanted)
  }

  lemma {:induction false} OrderExists<K(!new)>(keys: set<K>) returns (order: seq<K>)
    ensures IsOrder(order, keys)
  {
    if keys == {} {
      order := [];
    } else {
      var k :| k in keys;
      var rest := OrderExists(keys - {k});
      order := [k] + rest;
    }
  }

  lemma OrderAppend<K(!new)>(a: seq<K>, b: seq<K>, left: set<K>, right: set<K>)
    requires IsOrder(a, left) && IsOrder(b, right) && left !! right
    ensures IsOrder(a + b, left + right)
  {
    forall i, j | 0 <= i < j < |a + b|
      ensures (a + b)[i] != (a + b)[j]
    {
      if i < |a| && j >= |a| {
        assert (a + b)[i] in a && (a + b)[j] in b;
      }
    }
  }

  /** Any key may come first. */
  lemma AnyKeyFirst<K(!new)>(keys: set<K>, k: K) returns (order: seq<K>)
    requires k in keys
    ensures IsOrder(order, keys) && order != [] && order[0] == k
  {
    var rest := OrderExists(keys - {k});
    order := [k] + rest;
  }

  /** The value an early-return search finds in a map. */
  function Search<K(==), V>(m: map<K, V>, order: seq<K>, wanted: set<K>): (r: Option<V>)
    requires wanted <= m.Keys
  {
    match FirstKey(order, wanted)
    case None => None
    case Some(k) => Some(m[k])
  }

  /** A search for any key stops at the first. */
  lemma SearchAny<K(!new), V>(m: map<K, V>, order: seq<K>)
    requires IsOrder(order, m.Keys)
    ensures m.Keys == {} ==> Search(m, order, m.Keys) == None
    ensures m.Keys != {} ==> order != [] && order[0] in m && Search(m, order, m.Keys) == Some(m[order[0]])
  {
    if m.Keys != {} {
      var k :| k in m.Keys;
      assert k in order;
    }
  }

  ghost predicate SameInEveryOrder<K(!new), V>(m: map<K, V>, wanted: set<K>)
    requires wanted <= m.Keys
  {
    forall a, b :: IsOrder(a, m.Keys) && IsOrder(b, m.Keys) ==> Search(m, a, wanted) == Search(m, b, wanted)
  }

  /** A search gives the same answer in every iteration order if and only if all wanted entries hold
      the same value. */
  lemma SearchDetermined<K(!new), V>(m: map<K, V>, wanted: set<K>)
    requires wanted <= m.Keys
    ensures SameInEveryOrder(m, wanted) <==> forall j, k :: j in wanted && k in wanted ==> m[j] == m[k]
  {
    if SameInEveryOrder(m, wanted) {
      forall j, k | j in wanted && k in wanted
        ensures m[j] == m[k]
      {
        var a := AnyKeyFirst(m.Keys, j);
        var b := AnyKeyFirst(m.Keys, k);
        assert Search(m, a, wanted) == Some(m[j]) && Search(m, b, wanted) == Some(m[k]);
      }
    }
  }
}
