/** Finite sums over sequences of reals: the accumulation loops behind the
    library's products and its `dot`. */
module Sums {
  /** `u[0] * v[0] + u[1] * v[1] + ...`, accumulated from index 0 upwards
      as the library's loops do. */
  function Inner(u: seq<real>, v: seq<real>): real
    requires |u| == |v|
    decreases |u|
  {
    if |u| == 0 then 0.0
    else Inner(u[..|u| - 1], v[..|v| - 1]) + u[|u| - 1] * v[|v| - 1]
  }

  /** Every entry multiplied by `k`. */
  function Scale(u: seq<real>, k: real): (s: seq<real>)
    ensures |s| == |u|
  {
    seq(|u|, i requires 0 <= i < |u| => u[i] * k)
  }

  /** The `n`-entry unit vector with its one at `j` (all zero when `j >= n`). */
  function Unit(n: nat, j: nat): (e: seq<real>)
    ensures |e| == n
  {
    seq(n, k => if k == j then 1.0 else 0.0)
  }

  lemma {:induction false} InnerSymmetric(u: seq<real>, v: seq<real>)
    requires |u| == |v|
    ensures Inner(u, v) == Inner(v, u)
  {
    if |u| > 0 {
      InnerSymmetric(u[..|u| - 1], v[..|v| - 1]);
    }
  }

  /** A sequence summed against itself is a sum of squares. */
  lemma {:induction false} InnerSelf(u: seq<real>)
    ensures Inner(u, u) >= 0.0
  {
    if |u| > 0 {
      InnerSelf(u[..|u| - 1]);
      var x := u[|u| - 1];
      assert x * x >= 0.0;
    }
  }

  /** Summing against a unit vector picks one entry out. */
  lemma {:induction false} InnerUnit(u: seq<real>, j: nat)
    ensures Inner(u, Unit(|u|, j)) == if j < |u| then u[j] else 0.0
  {
    if |u| > 0 {
      var n := |u|;
      assert Unit(n, j)[..n - 1] == Unit(n - 1, j);
      InnerUnit(u[..n - 1], j);
    }
  }

  /** A factor on the left operand comes out of the sum. */
  lemma {:induction false} InnerScale(u: seq<real>, v: seq<real>, k: real)
    requires |u| == |v|
    ensures Inner(Scale(u, k), v) == k * Inner(u, v)
  {
    if |u| > 0 {
      var n := |u|;
      ScalePrefix(u, k, n - 1);
      InnerScale(u[..n - 1], v[..n - 1], k);
      FactorOut(k, Inner(u[..n - 1], v[..n - 1]), u[n - 1], v[n - 1]);
    }
  }

  /** Scaling commutes with taking a prefix. */
  lemma ScalePrefix(u: seq<real>, k: real, n: nat)
    requires n <= |u|
    ensures Scale(u, k)[..n] == Scale(u[..n], k)
  {
    var front, scaled := Scale(u, k)[..n], Scale(u[..n], k);
    assert forall i :: 0 <= i < n ==> front[i] == scaled[i];
  }

  /** The one step of distributivity `InnerScale` needs, kept apart from the
      sums so that the solver meets it on plain reals. */
  lemma FactorOut(k: real, r: real, x: real, y: real)
    ensures k * r + (x * k) * y == k * (r + x * y)
  {
  }
}
