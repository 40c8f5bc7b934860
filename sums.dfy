/** Sums over the entries of a map, in no particular order, and the least element of a finite
    set of integers. A `HashMap` is iterated in an order the program does not choose; a sum over
    its entries is the same whatever that order, which is what `MapSumRemove` states. */
module Sums {

  /** The sum of `val(k, m[k])` over the keys of `m`. */
  ghost function MapSum<K, V>(m: map<K, V>, val: (K, V) -> real): real
    decreases |m.Keys|
  {
    if m.Keys == {} then 0.0
    else
      var k :| k in m;
      val(k, m[k]) + MapSum(m - {k}, val)
  }

  /** Any entry can be taken out first. */
  lemma {:induction false} MapSumRemove<K, V>(m: map<K, V>, k: K, val: (K, V) -> real)
    requires k in m
    ensures MapSum(m, val) == val(k, m[k]) + MapSum(m - {k}, val)
    decreases |m.Keys|
  {
    var j :| j in m && MapSum(m, val) == val(j, m[j]) + MapSum(m - {j}, val);
    if j != k {
      assert (m - {j}).Keys == m.Keys - {j};
      assert (m - {k}).Keys == m.Keys - {k};
      MapSumRemove(m - {j}, k, val);
      MapSumRemove(m - {k}, j, val);
      assert m - {j} - {k} == m - {k} - {j};
    }
  }

  /** Setting one entry changes the sum by the difference of that entry's terms. */
  lemma MapSumUpdate<K, V>(m: map<K, V>, k: K, x: V, val: (K, V) -> real)
    ensures MapSum(m[k := x], val) == MapSum(m, val) - (if k in m then val(k, m[k]) else 0.0) + val(k, x)
  {
    MapSumRemove(m[k := x], k, val);
    assert m[k := x] - {k} == m - {k};
    if k in m {
      MapSumRemove(m, k, val);
    } else {
      assert m - {k} == m;
    }
  }

  /** Raising one entry's term by `delta`, where a missing entry counts as `empty` with a zero
      term, raises the sum by `delta`. */
  lemma MapSumGrow<K, V>(m: map<K, V>, k: K, empty: V, x: V, val: (K, V) -> real, delta: real)
    requires val(k, empty) == 0.0
    requires val(k, x) == val(k, if k in m then m[k] else empty) + delta
    ensures MapSum(m[k := x], val) == MapSum(m, val) + delta
  {
    MapSumUpdate(m, k, x, val);
  }

  /** Some element of a non-empty set. */
  lemma Member<T>(s: set<T>) returns (x: T)
    requires s != {}
    ensures x in s
  {
    x :| x in s;
  }

  /** A finite non-empty set of integers has a least element. */
  lemma {:induction false} LeastExists(s: set<int>)
    requires s != {}
    ensures exists least :: least in s && forall x :: x in s ==> least <= x
    decreases |s|
  {
    var y := Member(s);
    var rest := s - {y};
    if rest != {} {
      LeastExists(rest);
      var least :| least in rest && forall x :: x in rest ==> least <= x;
      var m := if y < least then y else least;
      forall x | x in s
        ensures m <= x
      {
        if x != y {
          assert x in rest;
        }
      }
    } else {
      assert s == {y};
    }
  }
}
