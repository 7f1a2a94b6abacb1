/** Sums of weights over the entries of a map. */
module Sums {

  ghost function Sum<T>(m: map<nat, T>, w: T -> int): int
    decreases |m|
  {
    if m == map[] then 0
    else
      var k :| k in m;
      assert |m - {k}| < |m| by { Shrinks(m, k); }
      w(m[k]) + Sum(m - {k}, w)
  }

  lemma Shrinks<T>(m: map<nat, T>, k: nat)
    requires k in m
    ensures |m - {k}| == |m| - 1
  {
    assert (m - {k}).Keys == m.Keys - {k};
  }

  /** Any entry may be counted first. */
  lemma {:induction false} SumPick<T>(m: map<nat, T>, w: T -> int, k: nat)
    requires k in m
    ensures Sum(m, w) == w(m[k]) + Sum(m - {k}, w)
    decreases |m|
  {
    var j :| j in m && Sum(m, w) == w(m[j]) + Sum(m - {j}, w);
    if j != k {
      Shrinks(m, j);
      Shrinks(m, k);
      SumPick(m - {j}, w, k);
      SumPick(m - {k}, w, j);
      assert m - {j} - {k} == m - {k} - {j};
    }
  }

  lemma SumSet<T>(m: map<nat, T>, w: T -> int, k: nat, v: T)
    ensures Sum(m[k := v], w) == Sum(m, w) - (if k in m then w(m[k]) else 0) + w(v)
  {
    SumPick(m[k := v], w, k);
    assert m[k := v] - {k} == m - {k};
    if k in m {
      SumPick(m, w, k);
    } else {
      assert m - {k} == m;
    }
  }

  lemma SumRemove<T>(m: map<nat, T>, w: T -> int, k: nat)
    requires k in m
    ensures Sum(m - {k}, w) == Sum(m, w) - w(m[k])
  {
    SumPick(m, w, k);
  }
}
