/** Entry-wise arithmetic on whole buffers: `add`, `makeAdd`,
    `multiplyScalar` and `makeMultiplyScalar`. The destructive forms are
    modelled as functions returning the updated matrix. */
module Arithmetic {
  import opened Outcomes
  import opened IndexArith
  import opened Matrices
  import opened Sums

  /** Same number of rows and columns; the storage order is not compared. */
  predicate SameShape(a: Matrix, b: Matrix)
  {
    a.row == b.row && a.col == b.col
  }

  /** Offset by offset, `a * c + b * cb`. */
  function Combine(a: seq<real>, b: seq<real>, cb: real, c: real): (s: seq<real>)
    requires |a| == |b|
    ensures |s| == |a|
  {
    seq(|a|, k requires 0 <= k < |a| => a[k] * c + b[k] * cb)
  }

  /** `add(mb, cb, c)`: fails with 'size not match' unless the shapes agree;
      otherwise every buffer offset of this matrix becomes
      `this * c + mb * cb`, shape and storage order kept. */
  function Add(a: Matrix, b: Matrix, cb: real, c: real): (r: Result<Matrix>)
    requires WellFormed(a) && WellFormed(b)
    ensures r.Err? <==> !SameShape(a, b)
    ensures r.Err? ==> r.error == SizeNotMatch
    ensures r.Ok? ==> WellFormed(r.value) && SameShape(r.value, a) && r.value.major == a.major
    ensures r.Ok? ==> forall k :: 0 <= k < |a.arr| ==> r.value.arr[k] == a.arr[k] * c + b.arr[k] * cb
  {
    if a.row != b.row || a.col != b.col then Err(SizeNotMatch)
    else Ok(a.(arr := Combine(a.arr, b.arr, cb, c)))
  }

  /** With both operands in the same storage order, `add` works cell by cell. */
  lemma AddCells(a: Matrix, b: Matrix, cb: real, c: real, i: nat, j: nat)
    requires WellFormed(a) && WellFormed(b) && SameShape(a, b) && a.major == b.major
    requires i < a.row && j < a.col
    ensures GetRC(Add(a, b, cb, c).value, i, j) == GetRC(a, i, j) * c + GetRC(b, i, j) * cb
  {
    OffsetInBounds(a, i, j);
  }

  /** Adding `cb * b` and then `-cb * b` gives the matrix back. */
  lemma AddUndo(a: Matrix, b: Matrix, cb: real)
    requires WellFormed(a) && WellFormed(b) && SameShape(a, b)
    ensures Add(Add(a, b, cb, 1.0).value, b, -cb, 1.0) == Ok(a)
  {
    var r := Add(Add(a, b, cb, 1.0).value, b, -cb, 1.0).value;
    assert forall k :: 0 <= k < |a.arr| ==> r.arr[k] == a.arr[k];
    assert r.arr == a.arr;
  }

  /** The two coefficients are scalings of the operands followed by a plain sum. */
  lemma AddIsScaledSum(a: Matrix, b: Matrix, cb: real, c: real)
    requires WellFormed(a) && WellFormed(b) && SameShape(a, b)
    ensures Add(a, b, cb, c) == Add(MultiplyScalar(a, c), MultiplyScalar(b, cb), 1.0, 1.0)
  {
    var r, s := Add(a, b, cb, c).value, Add(MultiplyScalar(a, c), MultiplyScalar(b, cb), 1.0, 1.0).value;
    assert forall k :: 0 <= k < |a.arr| ==> r.arr[k] == s.arr[k];
    assert r.arr == s.arr;
  }

  /** `makeAdd(mb, cb, c)`: the same size check and the same buffer as
      `add`, written into a new matrix that is always labelled row-major. */
  function MakeAdd(a: Matrix, b: Matrix, cb: real, c: real): (r: Result<Matrix>)
    requires WellFormed(a) && WellFormed(b)
    ensures r.Err? <==> !SameShape(a, b)
    ensures r.Err? ==> r.error == SizeNotMatch
    ensures r.Ok? ==> WellFormed(r.value) && SameShape(r.value, a) && r.value.major == Row
    ensures r.Ok? ==> forall k :: 0 <= k < |a.arr| ==> r.value.arr[k] == a.arr[k] * c + b.arr[k] * cb
  {
    if a.row != b.row || a.col != b.col then Err(SizeNotMatch)
    else Ok(Matrix(b.row, b.col, Row, Combine(a.arr, b.arr, cb, c)))
  }

  /** `makeAdd` is `add` on a copy, up to the storage label; on row-major
      matrices the two agree outright. */
  lemma MakeAddIsAdd(a: Matrix, b: Matrix, cb: real, c: real)
    requires WellFormed(a) && WellFormed(b)
    ensures MakeAdd(a, b, cb, c).Ok? == Add(a, b, cb, c).Ok?
    ensures MakeAdd(a, b, cb, c).Ok? ==>
      MakeAdd(a, b, cb, c).value == Add(a, b, cb, c).value.(major := Row)
    ensures a.major == Row ==> MakeAdd(a, b, cb, c) == Add(a, b, cb, c)
  {
  }

  /** Square column-major operands: `makeAdd` relabels their buffer as
      row-major, so the result holds the transpose of the sum. */
  lemma MakeAddOfColumnMajor(a: Matrix, b: Matrix, cb: real, c: real, i: nat, j: nat)
    requires WellFormed(a) && WellFormed(b) && SameShape(a, b) && a.row == a.col
    requires a.major == Col && b.major == Col
    requires i < a.row && j < a.col
    ensures GetRC(MakeAdd(a, b, cb, c).value, i, j) == GetRC(a, j, i) * c + GetRC(b, j, i) * cb
  {
    OffsetInBounds(a, j, i);
  }

  /** `multiplyScalar(k)`: every entry of the buffer, whatever its length,
      multiplied by `k`. */
  function MultiplyScalar(m: Matrix, k: real): (r: Matrix)
    ensures r.row == m.row && r.col == m.col && r.major == m.major
    ensures |r.arr| == |m.arr| && (WellFormed(r) <==> WellFormed(m))
    ensures forall i :: 0 <= i < |m.arr| ==> r.arr[i] == m.arr[i] * k
  {
    m.(arr := Scale(m.arr, k))
  }

  /** Scaling scales every cell. */
  lemma MultiplyScalarCells(m: Matrix, k: real, i: nat, j: nat)
    requires WellFormed(m) && i < m.row && j < m.col
    ensures GetRC(MultiplyScalar(m, k), i, j) == GetRC(m, i, j) * k
  {
    OffsetInBounds(m, i, j);
  }

  /** Scaling by a non-zero `k` is undone by scaling by `1 / k`. */
  lemma MultiplyScalarUndo(m: Matrix, k: real)
    requires k != 0.0
    ensures MultiplyScalar(MultiplyScalar(m, k), 1.0 / k) == m
  {
    var r := MultiplyScalar(MultiplyScalar(m, k), 1.0 / k);
    forall i | 0 <= i < |m.arr|
      ensures r.arr[i] == m.arr[i]
    {
      assert r.arr[i] == (m.arr[i] * k) * (1.0 / k);
    }
    assert r.arr == m.arr;
  }

  /** `makeMultiplyScalar(k)`: a clone (the first `row * col` entries)
      scaled by `k`. */
  function MakeMultiplyScalar(m: Matrix, k: real): (r: Matrix)
    requires m.row * m.col <= |m.arr|
    ensures WellFormed(r) && r.row == m.row && r.col == m.col && r.major == m.major
    ensures forall i :: 0 <= i < |r.arr| ==> r.arr[i] == m.arr[i] * k
  {
    MultiplyScalar(Clone(m), k)
  }

  /** On a well-formed matrix the copying form and the destructive form agree. */
  lemma MakeMultiplyScalarIsMultiplyScalar(m: Matrix, k: real)
    requires WellFormed(m)
    ensures MakeMultiplyScalar(m, k) == MultiplyScalar(m, k)
  {
  }
}
