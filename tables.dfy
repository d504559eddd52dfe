/**
 * What the record store computes for the queries of the core: the largest
 * key, `ORDER BY date DESC`, and `SUM` over a set of rows. Tables keyed by
 * date are maps from day numbers.
 */
module Tables {

  /** An element of a non-empty set. */
  lemma Pick<T>(s: set<T>) returns (x: T)
    requires s != {}
    ensures x in s
  {
    if forall y :: y !in s {
      assert false;
    }
    x :| x in s;
  }

  lemma {:induction false} MaxExists(s: set<int>)
    requires s != {}
    ensures exists m :: m in s && forall y :: y in s ==> y <= m
    decreases |s|
  {
    var x := Pick(s);
    var rest := s - {x};
    var top := x;
    if rest != {} {
      MaxExists(rest);
      var m :| m in rest && forall y :: y in rest ==> y <= m;
      top := if x <= m then m else x;
    }
    forall y | y in s
      ensures y <= top
    {
      if y != x {
        assert y in rest;
      }
    }
    assert top in s;
  }

  /** The largest day number of a non-empty set. */
  function Max(s: set<int>): (m: int)
    requires s != {}
    ensures m in s && forall y :: y in s ==> y <= m
  {
    MaxExists(s);
    var m :| m in s && forall y :: y in s ==> y <= m; m
  }

  /** `ORDER BY date DESC` over a set of distinct dates. */
  function SortedDesc(s: set<int>): (r: seq<int>)
    ensures |r| == |s|
    ensures forall x :: x in r <==> x in s
    ensures forall i, j :: 0 <= i < j < |r| ==> r[i] > r[j]
    decreases |s|
  {
    if s == {} then []
    else
      var m := Max(s);
      [m] + SortedDesc(s - {m})
  }

  /** Each position of the ordering holds a member. */
  lemma SortedDescMembers(s: set<int>)
    ensures forall i :: 0 <= i < |SortedDesc(s)| ==> SortedDesc(s)[i] in s
  {
    var r := SortedDesc(s);
    forall i | 0 <= i < |r| ensures r[i] in s {
      assert r[i] in r;
    }
  }

  /** The position of a member in the ordering. */
  lemma {:induction false} SortedDescPosition(s: set<int>, x: int) returns (i: nat)
    requires x in s
    ensures i < |SortedDesc(s)| && SortedDesc(s)[i] == x
    decreases |s|
  {
    var m := Max(s);
    if x == m {
      i := 0;
    } else {
      var j := SortedDescPosition(s - {m}, x);
      i := j + 1;
    }
  }

  /** `SUM` of the values of a map over a set of its keys (0 for no rows). */
  function SumOver(m: map<int, int>, keys: set<int>): int
    requires keys <= m.Keys
    decreases |keys|
  {
    if keys == {} then 0
    else
      var k := Max(keys);
      m[k] + SumOver(m, keys - {k})
  }

  /** The sum does not depend on the order in which rows are visited: any row can be taken first. */
  lemma {:induction false} SumOverRemove(m: map<int, int>, keys: set<int>, k: int)
    requires keys <= m.Keys && k in keys
    ensures SumOver(m, keys) == m[k] + SumOver(m, keys - {k})
    decreases |keys|
  {
    var top := Max(keys);
    if k != top {
      SumOverRemove(m, keys - {top}, k);
      SumOverRemove(m, keys - {k}, top);
      assert keys - {top} - {k} == keys - {k} - {top};
    }
  }

  /** The sum only reads the rows it ranges over. */
  lemma {:induction false} SumOverAgree(m: map<int, int>, m': map<int, int>, keys: set<int>)
    requires keys <= m.Keys && keys <= m'.Keys
    requires forall k :: k in keys ==> m[k] == m'[k]
    ensures SumOver(m, keys) == SumOver(m', keys)
    decreases |keys|
  {
    if keys != {} {
      var k := Max(keys);
      SumOverAgree(m, m', keys - {k});
    }
  }

  /** Adding one new row adds its value to the sum. */
  lemma SumOverInsert(m: map<int, int>, keys: set<int>, k: int, v: int)
    requires keys <= m.Keys && k !in keys
    ensures SumOver(m[k := v], keys + {k}) == SumOver(m, keys) + v
  {
    var m' := m[k := v];
    SumOverRemove(m', keys + {k}, k);
    assert keys + {k} - {k} == keys;
    SumOverAgree(m, m', keys);
  }
}
