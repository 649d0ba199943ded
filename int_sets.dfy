/** Finite sets of integers: least element, ascending enumeration, and sums over keys. */
module IntSets {

  /** Strictly ascending order of a sequence of integers. */
  predicate Ascending(s: seq<int>)
  {
    forall i, j :: 0 <= i < j < |s| ==> s[i] < s[j]
  }

  lemma HasElement(s: set<int>)
    requires s != {}
    ensures exists y :: y in s
  {
    if forall y :: y !in s {
      assert false;
    }
  }

  /** A least element, chosen arbitrarily; it only witnesses that one exists. */
  ghost function LeastWitness(s: set<int>): (m: int)
    requires s != {}
    ensures m in s && forall x :: x in s ==> m <= x
    decreases |s|
  {
    HasElement(s);
    var y :| y in s;
    var rest := s - {y};
    assert forall x :: x in s ==> x == y || x in rest;
    if rest == {} then y
    else
      var m := LeastWitness(rest);
      if y < m then y else m
  }

  /** The least element of a non-empty set. */
  function Min(s: set<int>): (m: int)
    requires s != {}
    ensures m in s && forall x :: x in s ==> m <= x
  {
    ghost var w := LeastWitness(s);
    var m :| m in s && forall x :: x in s ==> m <= x;
    m
  }

  /** The elements of a set in ascending order (Python's `sorted(keys)`). */
  function Sorted(s: set<int>): (r: seq<int>)
    ensures Ascending(r)
    ensures |r| == |s|
    ensures forall x :: x in s <==> x in r
    decreases |s|
  {
    if s == {} then []
    else
      var m := Min(s);
      var rest := Sorted(s - {m});
      assert forall i :: 0 <= i < |rest| ==> rest[i] in s - {m};
      [m] + rest
  }

  /** The sum of `m[k]` over the keys `keys`, taken in ascending order. */
  function SumOver(m: map<int, real>, keys: set<int>): real
    requires keys <= m.Keys
    decreases |keys|
  {
    if keys == {} then 0.0
    else
      var k := Min(keys);
      m[k] + SumOver(m, keys - {k})
  }

  /** The sum does not depend on which key is taken out first. */
  lemma {:induction false} SumOverRemove(m: map<int, real>, keys: set<int>, k: int)
    requires keys <= m.Keys && k in keys
    ensures SumOver(m, keys) == m[k] + SumOver(m, keys - {k})
    decreases |keys|
  {
    var least := Min(keys);
    if k != least {
      SumOverRemove(m, keys - {least}, k);
      assert keys - {least} - {k} == keys - {k} - {least};
      assert Min(keys - {k}) == least;
    }
  }

  /** Two maps that agree on `keys` have the same sum over them. */
  lemma {:induction false} SumOverAgree(m1: map<int, real>, m2: map<int, real>, keys: set<int>)
    requires keys <= m1.Keys && keys <= m2.Keys
    requires forall k :: k in keys ==> m1[k] == m2[k]
    ensures SumOver(m1, keys) == SumOver(m2, keys)
    decreases |keys|
  {
    if keys != {} {
      SumOverAgree(m1, m2, keys - {Min(keys)});
    }
  }
}
