/** Entry-wise operations on buffers: `dot`, `max`/`makeMax`,
    `min`/`makeMin`, `abs`, and the 3-vector `makeCross`. The destructive
    forms are modelled as functions returning the updated matrix. */
module Elementwise {
  import opened Outcomes
  import opened IndexArith
  import opened Matrices
  import opened Sums
  import opened Arithmetic
  import opened Layout
  import opened Products

  function Least(x: int, y: int): nat
    requires x >= 0 && y >= 0
  {
    if x < y then x else y
  }

  /** `dot(b)`: the sum of products over the first
      `min(|this.array|, |b.array|)` buffer entries. With no common entries
      it is 0, and a buffer dotted with itself is never negative. */
  function Dot(a: Matrix, b: Matrix): (r: real)
    ensures |a.arr| == 0 || |b.arr| == 0 ==> r == 0.0
    ensures a.arr == b.arr ==> r >= 0.0
  {
    var n := Least(|a.arr|, |b.arr|);
    assert a.arr == b.arr ==> Inner(a.arr[..n], b.arr[..n]) >= 0.0 by {
      if a.arr == b.arr {
        InnerSelf(a.arr[..n]);
      }
    }
    Inner(a.arr[..n], b.arr[..n])
  }

  /** The `dot` loop itself. */
  method ComputeDot(a: Matrix, b: Matrix) returns (sum: real)
    ensures sum == Dot(a, b)
  {
    var num := Least(|a.arr|, |b.arr|);
    sum := 0.0;
    var i := 0;
    while i < num
      invariant 0 <= i <= num
      invariant sum == Inner(a.arr[..i], b.arr[..i])
    {
      assert a.arr[..i + 1][..i] == a.arr[..i];
      assert b.arr[..i + 1][..i] == b.arr[..i];
      sum := sum + a.arr[i] * b.arr[i];
      i := i + 1;
    }
  }

  lemma DotSymmetric(a: Matrix, b: Matrix)
    ensures Dot(a, b) == Dot(b, a)
  {
    var n := Least(|a.arr|, |b.arr|);
    InnerSymmetric(a.arr[..n], b.arr[..n]);
  }

  /** Scaling one operand scales the dot product. */
  lemma DotScale(a: Matrix, b: Matrix, k: real)
    ensures Dot(MultiplyScalar(a, k), b) == k * Dot(a, b)
  {
    var n := Least(|a.arr|, |b.arr|);
    ScalePrefix(a.arr, k, n);
    InnerScale(a.arr[..n], b.arr[..n], k);
  }

  /** For two column vectors of one length, `dot` is the 1 by 1 product of
      the transpose of the first with the second. */
  lemma DotAsProduct(a: Matrix, b: Matrix)
    requires WellFormed(a) && WellFormed(b) && a.col == 1 && b.col == 1 && a.row == b.row
    ensures MulFromRight(CreateTranspose(a), b) == Ok(Matrix(1, 1, Row, [Dot(a, b)]))
  {
    var t := CreateTranspose(a);
    var n := a.row;
    assert RowSlice(t, 0) == a.arr by {
      forall k | 0 <= k < n
        ensures RowSlice(t, 0)[k] == a.arr[k]
      {
        assert t.col * 0 + k == k;
      }
    }
    assert ColumnSlice(b, 0) == b.arr by {
      forall k | 0 <= k < n
        ensures ColumnSlice(b, 0)[k] == b.arr[k]
      {
        assert b.col * k + 0 == k;
      }
    }
    assert a.arr[..n] == a.arr && b.arr[..n] == b.arr;
    ProductBufferCell(t, b, 1, 1, 0, 0);
    assert ProductBuffer(t, b, 1, 1) == [Dot(a, b)];
  }

  function Larger(x: real, y: real): real
  {
    if x < y then y else x
  }

  function Smaller(x: real, y: real): real
  {
    if y < x then y else x
  }

  /** `max(b)`: each of the first `min(|this.array|, |b.array|)` entries
      becomes the larger of the two; later entries are kept. */
  function Max(a: Matrix, b: Matrix): (r: Matrix)
    ensures r.row == a.row && r.col == a.col && r.major == a.major && |r.arr| == |a.arr|
    ensures forall i :: 0 <= i < |a.arr| && i < |b.arr| ==> a.arr[i] <= r.arr[i] && b.arr[i] <= r.arr[i]
    ensures forall i :: 0 <= i < |a.arr| && i < |b.arr| ==> r.arr[i] == a.arr[i] || r.arr[i] == b.arr[i]
    ensures forall i :: |b.arr| <= i < |a.arr| ==> r.arr[i] == a.arr[i]
  {
    a.(arr := seq(|a.arr|, i requires 0 <= i < |a.arr| =>
      if i < |b.arr| then Larger(a.arr[i], b.arr[i]) else a.arr[i]))
  }

  /** `min(b)`: each of the first `min(|this.array|, |b.array|)` entries
      becomes the smaller of the two; later entries are kept. */
  function Min(a: Matrix, b: Matrix): (r: Matrix)
    ensures r.row == a.row && r.col == a.col && r.major == a.major && |r.arr| == |a.arr|
    ensures forall i :: 0 <= i < |a.arr| && i < |b.arr| ==> r.arr[i] <= a.arr[i] && r.arr[i] <= b.arr[i]
    ensures forall i :: 0 <= i < |a.arr| && i < |b.arr| ==> r.arr[i] == a.arr[i] || r.arr[i] == b.arr[i]
    ensures forall i :: |b.arr| <= i < |a.arr| ==> r.arr[i] == a.arr[i]
  {
    a.(arr := seq(|a.arr|, i requires 0 <= i < |a.arr| =>
      if i < |b.arr| then Smaller(a.arr[i], b.arr[i]) else a.arr[i]))
  }

  /** Taking the maximum again with the same operand changes nothing, and
      the maximum of a matrix with itself is the matrix. */
  lemma MaxIdempotent(a: Matrix, b: Matrix)
    ensures Max(Max(a, b), b) == Max(a, b)
    ensures Max(a, a) == a
  {
    assert Max(Max(a, b), b).arr == Max(a, b).arr;
    assert Max(a, a).arr == a.arr;
  }

  lemma MinIdempotent(a: Matrix, b: Matrix)
    ensures Min(Min(a, b), b) == Min(a, b)
    ensures Min(a, a) == a
  {
    assert Min(Min(a, b), b).arr == Min(a, b).arr;
    assert Min(a, a).arr == a.arr;
  }

  /** On equal-length buffers the order of the operands does not matter. */
  lemma MaxMinCommute(a: Matrix, b: Matrix)
    requires |a.arr| == |b.arr|
    ensures Max(a, b).arr == Max(b, a).arr
    ensures Min(a, b).arr == Min(b, a).arr
  {
  }

  /** Where both are defined, the larger and the smaller entry add up to
      the two entries. */
  lemma MaxPlusMin(a: Matrix, b: Matrix, i: nat)
    requires i < |a.arr| && i < |b.arr|
    ensures Max(a, b).arr[i] + Min(a, b).arr[i] == a.arr[i] + b.arr[i]
  {
  }

  /** `makeMax(b)`: `max` applied to a clone. */
  function MakeMax(a: Matrix, b: Matrix): (r: Matrix)
    requires a.row * a.col <= |a.arr|
    ensures WellFormed(r) && r.row == a.row && r.col == a.col && r.major == a.major
    ensures forall i :: 0 <= i < |r.arr| && i < |b.arr| ==> a.arr[i] <= r.arr[i] && b.arr[i] <= r.arr[i]
    ensures forall i :: 0 <= i < |r.arr| && i < |b.arr| ==> r.arr[i] == a.arr[i] || r.arr[i] == b.arr[i]
    ensures forall i :: |b.arr| <= i < |r.arr| ==> r.arr[i] == a.arr[i]
  {
    Max(Clone(a), b)
  }

  /** `makeMin(b)`: `min` applied to a clone. */
  function MakeMin(a: Matrix, b: Matrix): (r: Matrix)
    requires a.row * a.col <= |a.arr|
    ensures WellFormed(r) && r.row == a.row && r.col == a.col && r.major == a.major
    ensures forall i :: 0 <= i < |r.arr| && i < |b.arr| ==> r.arr[i] <= a.arr[i] && r.arr[i] <= b.arr[i]
    ensures forall i :: 0 <= i < |r.arr| && i < |b.arr| ==> r.arr[i] == a.arr[i] || r.arr[i] == b.arr[i]
    ensures forall i :: |b.arr| <= i < |r.arr| ==> r.arr[i] == a.arr[i]
  {
    Min(Clone(a), b)
  }

  /** On a well-formed matrix the copying forms agree with the destructive ones. */
  lemma MakeMaxMinAgree(a: Matrix, b: Matrix)
    requires WellFormed(a)
    ensures MakeMax(a, b) == Max(a, b) && MakeMin(a, b) == Min(a, b)
  {
  }

  function Magnitude(x: real): real
  {
    if x < 0.0 then -x else x
  }

  /** `abs()`: every buffer entry replaced by its absolute value. */
  function Abs(m: Matrix): (r: Matrix)
    ensures r.row == m.row && r.col == m.col && r.major == m.major && |r.arr| == |m.arr|
    ensures forall i :: 0 <= i < |m.arr| ==> 0.0 <= r.arr[i]
    ensures forall i :: 0 <= i < |m.arr| ==> r.arr[i] == m.arr[i] || r.arr[i] == -m.arr[i]
  {
    m.(arr := seq(|m.arr|, i requires 0 <= i < |m.arr| => Magnitude(m.arr[i])))
  }

  /** `abs` is idempotent, ignores sign flips, and is the maximum of the
      matrix and its negation. */
  lemma AbsProperties(m: Matrix)
    ensures Abs(Abs(m)) == Abs(m)
    ensures Abs(MultiplyScalar(m, -1.0)) == Abs(m)
    ensures Abs(m) == Max(m, MultiplyScalar(m, -1.0))
  {
    assert Abs(Abs(m)).arr == Abs(m).arr;
    assert Abs(MultiplyScalar(m, -1.0)).arr == Abs(m).arr;
    assert Abs(m).arr == Max(m, MultiplyScalar(m, -1.0)).arr;
  }

  /** `makeCross(b)`: the cross product of the first three entries of each
      buffer, as a new row-major 3 by 1 vector. */
  function MakeCross(a: Matrix, b: Matrix): (r: Matrix)
    requires |a.arr| >= 3 && |b.arr| >= 3
    ensures WellFormed(r) && r.row == 3 && r.col == 1 && r.major == Row
  {
    var p, q := a.arr, b.arr;
    Matrix(3, 1, Row, [p[1] * q[2] - p[2] * q[1], p[2] * q[0] - p[0] * q[2], p[0] * q[1] - p[1] * q[0]])
  }

  /** Swapping the operands negates the cross product. */
  lemma CrossAntiCommutes(a: Matrix, b: Matrix)
    requires |a.arr| >= 3 && |b.arr| >= 3
    ensures MakeCross(b, a) == MultiplyScalar(MakeCross(a, b), -1.0)
  {
    assert MakeCross(b, a).arr == MultiplyScalar(MakeCross(a, b), -1.0).arr;
  }

  /** The cross product is orthogonal to both operands. */
  lemma CrossOrthogonal(a: Matrix, b: Matrix)
    requires |a.arr| >= 3 && |b.arr| >= 3
    ensures Dot(MakeCross(a, b), a) == 0.0
    ensures Dot(MakeCross(a, b), b) == 0.0
  {
    var c := MakeCross(a, b);
    assert Dot(c, a) == 0.0 by {
      DotOfThree(c, a);
      CrossTermsCancel(a, b);
    }
    assert Dot(c, b) == 0.0 by {
      DotOfThree(c, b);
      CrossTermsCancel(a, b);
    }
  }

  /** The polynomial identity behind orthogonality: the three entries
      `makeCross` writes, summed against either operand, cancel out. */
  lemma CrossTermsCancel(a: Matrix, b: Matrix)
    requires |a.arr| >= 3 && |b.arr| >= 3
    ensures var c, p := MakeCross(a, b).arr, a.arr; c[0] * p[0] + c[1] * p[1] + c[2] * p[2] == 0.0
    ensures var c, q := MakeCross(a, b).arr, b.arr; c[0] * q[0] + c[1] * q[1] + c[2] * q[2] == 0.0
  {
    var p, q := a.arr, b.arr;
    CrossCancel(p[0], p[1], p[2], q[0], q[1], q[2]);
  }

  lemma CrossCancel(x0: real, x1: real, x2: real, y0: real, y1: real, y2: real)
    ensures (x1 * y2 - x2 * y1) * x0 + (x2 * y0 - x0 * y2) * x1 + (x0 * y1 - x1 * y0) * x2 == 0.0
    ensures (x1 * y2 - x2 * y1) * y0 + (x2 * y0 - x0 * y2) * y1 + (x0 * y1 - x1 * y0) * y2 == 0.0
  {
  }

  /** `dot` with a 3-entry buffer sums the first three products. */
  lemma DotOfThree(c: Matrix, a: Matrix)
    requires |c.arr| == 3 && |a.arr| >= 3
    ensures Dot(c, a) == c.arr[0] * a.arr[0] + c.arr[1] * a.arr[1] + c.arr[2] * a.arr[2]
  {
    var u, v := c.arr[..3], a.arr[..3];
    assert Dot(c, a) == Inner(u, v);
    assert u[..2] == c.arr[..2] && v[..2] == a.arr[..2];
    assert u[..2][..1] == c.arr[..1] && v[..2][..1] == a.arr[..1];
    assert Inner(c.arr[..1], a.arr[..1]) == c.arr[0] * a.arr[0];
    assert Inner(c.arr[..2], a.arr[..2]) == c.arr[0] * a.arr[0] + c.arr[1] * a.arr[1];
  }

  /** The cross product of the x and y axes is the z axis. */
  lemma CrossOfAxes()
    ensures MakeCross(Vector3Of(1.0, 0.0, 0.0), Vector3Of(0.0, 1.0, 0.0)) == Vector3Of(0.0, 0.0, 1.0)
  {
  }

  function Vector3Of(x: real, y: real, z: real): Matrix
  {
    Matrix(3, 1, Row, [x, y, z])
  }
}
