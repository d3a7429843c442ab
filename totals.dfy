/** Sums of monetary amounts: over the values of a map (in no particular
    order, as a hash map is traversed) and over a sequence (left to right). */
module Totals {

  /** The sum of the values of `m`. Addition of reals is exact, so the order
      in which the keys are visited does not matter (see TotalRemove). */
  ghost function Total<K>(m: map<K, real>): real
    decreases |m|
  {
    if m == map[] then 0.0
    else
      var k :| k in m;
      assert (m - {k}).Keys == m.Keys - {k};
      m[k] + Total(m - {k})
  }

  /** Any key may be taken out first. */
  lemma {:induction false} TotalRemove<K>(m: map<K, real>, k: K)
    requires k in m
    ensures Total(m) == m[k] + Total(m - {k})
    decreases |m|
  {
    assert m != map[];
    var j :| j in m && Total(m) == m[j] + Total(m - {j});
    if j != k {
      var mj, mk := m - {j}, m - {k};
      assert mj.Keys == m.Keys - {j} && mk.Keys == m.Keys - {k};
      assert k in mj && j in mk;
      TotalRemove(mj, k);
      TotalRemove(mk, j);
      assert mj - {k} == mk - {j};
    }
  }

  /** Overwriting (or adding) one entry changes the total by the difference. */
  lemma TotalUpdate<K>(m: map<K, real>, k: K, v: real)
    ensures Total(m[k := v]) == Total(m) - (if k in m then m[k] else 0.0) + v
  {
    TotalRemove(m[k := v], k);
    if k in m {
      TotalRemove(m, k);
      assert m[k := v] - {k} == m - {k};
    } else {
      assert m[k := v] - {k} == m;
    }
  }

  /** A map of zeros totals zero. */
  lemma {:induction false} ZeroTotal<K>(m: map<K, real>)
    requires forall k | k in m :: m[k] == 0.0
    ensures Total(m) == 0.0
    decreases |m|
  {
    if m != map[] {
      var k :| k in m;
      TotalRemove(m, k);
      assert (m - {k}).Keys == m.Keys - {k};
      ZeroTotal(m - {k});
    }
  }

  /** Only the empty map of strictly positive amounts totals zero or less. */
  lemma {:induction false} TotalPositive<K>(m: map<K, real>)
    requires forall k | k in m :: m[k] > 0.0
    ensures m == map[] <==> Total(m) <= 0.0
    ensures m != map[] ==> Total(m) > 0.0
    decreases |m|
  {
    if m != map[] {
      var k :| k in m;
      TotalRemove(m, k);
      assert (m - {k}).Keys == m.Keys - {k};
      TotalPositive(m - {k});
    }
  }

  /** Only the empty map of strictly negative amounts totals zero or more. */
  lemma {:induction false} TotalNegative<K>(m: map<K, real>)
    requires forall k | k in m :: m[k] < 0.0
    ensures m == map[] <==> Total(m) >= 0.0
    ensures m != map[] ==> Total(m) < 0.0
    decreases |m|
  {
    if m != map[] {
      var k :| k in m;
      TotalRemove(m, k);
      assert (m - {k}).Keys == m.Keys - {k};
      TotalNegative(m - {k});
    }
  }

  /** The left-to-right sum of a sequence, as `total += val` accumulates it. */
  function Sum(xs: seq<real>): real
  {
    if xs == [] then 0.0 else Sum(xs[..|xs| - 1]) + xs[|xs| - 1]
  }

  /** The sum of `n` copies of `v`. */
  lemma {:induction false} SumConstant(xs: seq<real>, v: real)
    requires forall i | 0 <= i < |xs| :: xs[i] == v
    ensures Sum(xs) == |xs| as real * v
  {
    if xs != [] {
      SumConstant(xs[..|xs| - 1], v);
    }
  }

  /** `k` copies of `v` added up. */
  function Times(k: nat, v: real): real
  {
    if k == 0 then 0.0 else Times(k - 1, v) + v
  }

  lemma {:induction false} TimesIsProduct(k: nat, v: real)
    ensures Times(k, v) == k as real * v
  {
    if k > 0 {
      TimesIsProduct(k - 1, v);
    }
  }
}
