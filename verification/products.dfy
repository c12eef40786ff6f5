/** Matrix products: `mulfromright`, `mulfromleft` and `makeMultiply`.
    All three read both operands' buffers as row-major, whatever their
    storage labels, and build a row-major result. */
module Products {
  import opened Outcomes
  import opened IndexArith
  import opened Matrices
  import opened Sums
  import opened Arithmetic

  /** The buffer value at row-major offset `col * i + j`, the way the
      product loops read an operand. */
  function RowMajorAt(m: Matrix, i: nat, j: nat): real
    requires WellFormed(m) && i < m.row && j < m.col
  {
    FlatInBounds(i, j, m.row, m.col);
    m.arr[m.col * i + j]
  }

  /** On a row-major matrix the product loops read the true cells. */
  lemma RowMajorAtIsCell(m: Matrix, i: nat, j: nat)
    requires WellFormed(m) && m.major == Row && i < m.row && j < m.col
    ensures RowMajorAt(m, i, j) == GetRC(m, i, j)
  {
  }

  /** Row `i` as the product loops read it. */
  function RowSlice(m: Matrix, i: nat): (s: seq<real>)
    requires WellFormed(m) && i < m.row
    ensures |s| == m.col
  {
    seq(m.col, k requires 0 <= k < m.col => RowMajorAt(m, i, k))
  }

  /** Column `j` as the product loops read it. */
  function ColumnSlice(m: Matrix, j: nat): (s: seq<real>)
    requires WellFormed(m) && j < m.col
    ensures |s| == m.row
  {
    seq(m.row, k requires 0 <= k < m.row => RowMajorAt(m, k, j))
  }

  /** Entry `(i, j)` of `a * b`: the inner loop's running sum. */
  function ProductAt(a: Matrix, b: Matrix, i: nat, j: nat): real
    requires WellFormed(a) && WellFormed(b) && a.col == b.row
    requires i < a.row && j < b.col
  {
    Inner(RowSlice(a, i), ColumnSlice(b, j))
  }

  /** The `height` by `width` row-major buffer of entries `ProductAt(i, j)`. */
  function ProductBuffer(a: Matrix, b: Matrix, height: Dim, width: Dim): (s: seq<real>)
    requires WellFormed(a) && WellFormed(b) && a.col == b.row
    requires height <= a.row && width <= b.col
    ensures |s| == height * width
  {
    var len := height * width;
    seq(len, p requires 0 <= p < len =>
      ProductAt(a, b, RowOf(p, height, width), ColOf(p, height, width)))
  }

  lemma ProductBufferCell(a: Matrix, b: Matrix, height: Dim, width: Dim, i: nat, j: nat)
    requires WellFormed(a) && WellFormed(b) && a.col == b.row
    requires height <= a.row && width <= b.col
    requires i < height && j < width
    ensures width * i + j < height * width
    ensures ProductBuffer(a, b, height, width)[width * i + j] == ProductAt(a, b, i, j)
  {
    FlatInBounds(i, j, height, width);
    SplitFlat(i, j, width);
  }

  /** `mulfromright(rm)`: 'size not match' unless this matrix has as many
      columns as `rm` has rows; otherwise the row-major product
      `this * rm`. */
  function MulFromRight(a: Matrix, b: Matrix): (r: Result<Matrix>)
    requires WellFormed(a) && WellFormed(b)
    ensures r.Err? <==> a.col != b.row
    ensures r.Err? ==> r.error == SizeNotMatch
    ensures r.Ok? ==> WellFormed(r.value) && r.value.major == Row
    ensures r.Ok? ==> r.value.row == a.row && r.value.col == b.col
  {
    if a.col != b.row then Err(SizeNotMatch)
    else Ok(Matrix(a.row, b.col, Row, ProductBuffer(a, b, a.row, b.col)))
  }

  /** Cell `(i, j)` of the product is row `i` of `a` summed against column
      `j` of `b`, both read as row-major. */
  lemma MulFromRightCell(a: Matrix, b: Matrix, i: nat, j: nat)
    requires WellFormed(a) && WellFormed(b) && a.col == b.row
    requires i < a.row && j < b.col
    ensures GetRC(MulFromRight(a, b).value, i, j) == Inner(RowSlice(a, i), ColumnSlice(b, j))
  {
    ProductBufferCell(a, b, a.row, b.col, i, j);
  }

  /** `mulfromleft(lm)`: 'size not match' unless `lm` has as many columns
      as this matrix has rows; otherwise its own loop builds the row-major
      `lm.row` by `this.col` buffer of `LeftAt` sums. That product is
      `lm * this`, the one `lm.mulfromright(this)` computes. */
  function MulFromLeft(b: Matrix, lm: Matrix): (r: Result<Matrix>)
    requires WellFormed(b) && WellFormed(lm)
    ensures r == MulFromRight(lm, b)
  {
    if lm.col != b.row then Err(SizeNotMatch)
    else
      var buf := LeftBuffer(b, lm);
      assert buf == ProductBuffer(lm, b, lm.row, b.col) by {
        forall p | 0 <= p < |buf|
          ensures buf[p] == ProductBuffer(lm, b, lm.row, b.col)[p]
        {
          LeftAtIsProductAt(b, lm, RowOf(p, lm.row, b.col), ColOf(p, lm.row, b.col));
        }
      }
      Ok(Matrix(lm.row, b.col, Row, buf))
  }

  /** Row `i` of `lm` as `mulfromleft` reads it: offsets `lm.col * i + k`. */
  function LeftRow(lm: Matrix, i: nat): (s: seq<real>)
    requires WellFormed(lm) && i < lm.row
    ensures |s| == lm.col
  {
    seq(lm.col, k requires 0 <= k < lm.col =>
      FlatInBounds(i, k, lm.row, lm.col);
      lm.arr[lm.col * i + k])
  }

  /** Column `j` of this matrix as `mulfromleft` reads it: offsets
      `this.col * k + j` for `k` below `num = this.row`. */
  function RightColumn(b: Matrix, j: nat): (s: seq<real>)
    requires WellFormed(b) && j < b.col
    ensures |s| == b.row
  {
    seq(b.row, k requires 0 <= k < b.row =>
      FlatInBounds(k, j, b.row, b.col);
      b.arr[b.col * k + j])
  }

  /** Entry `(i, j)` of `mulfromleft`'s buffer: the inner loop's sum. */
  function LeftAt(b: Matrix, lm: Matrix, i: nat, j: nat): real
    requires WellFormed(b) && WellFormed(lm) && lm.col == b.row
    requires i < lm.row && j < b.col
  {
    Inner(LeftRow(lm, i), RightColumn(b, j))
  }

  /** The buffer `mulfromleft`'s loops fill, offset `col * i + j` holding
      `LeftAt(i, j)`. */
  function LeftBuffer(b: Matrix, lm: Matrix): (s: seq<real>)
    requires WellFormed(b) && WellFormed(lm) && lm.col == b.row
    ensures |s| == lm.row * b.col
  {
    var len := lm.row * b.col;
    seq(len, p requires 0 <= p < len =>
      LeftAt(b, lm, RowOf(p, lm.row, b.col), ColOf(p, lm.row, b.col)))
  }

  /** `mulfromleft`'s sum for cell `(i, j)` is the one `mulfromright`
      computes for `lm * this`. */
  lemma LeftAtIsProductAt(b: Matrix, lm: Matrix, i: nat, j: nat)
    requires WellFormed(b) && WellFormed(lm) && lm.col == b.row
    requires i < lm.row && j < b.col
    ensures LeftAt(b, lm, i, j) == ProductAt(lm, b, i, j)
  {
    assert LeftRow(lm, i) == RowSlice(lm, i);
    assert RightColumn(b, j) == ColumnSlice(b, j);
  }

  /** Column `j` of an identity is the unit vector at `j`. */
  lemma IdentityColumn(n: Dim, c: real, j: nat)
    requires j < n
    ensures ColumnSlice(CreateIdentity(n, c), j) == Scale(Unit(n, j), c)
  {
    var e := CreateIdentity(n, c);
    var s, t := ColumnSlice(e, j), Scale(Unit(n, j), c);
    forall k | 0 <= k < n
      ensures s[k] == t[k]
    {
      assert s[k] == GetRC(e, k, j);
    }
  }

  /** Row `i` of an identity is the unit vector at `i`. */
  lemma IdentityRow(n: Dim, c: real, i: nat)
    requires i < n
    ensures RowSlice(CreateIdentity(n, c), i) == Scale(Unit(n, i), c)
  {
    var e := CreateIdentity(n, c);
    var s, t := RowSlice(e, i), Scale(Unit(n, i), c);
    forall k | 0 <= k < n
      ensures s[k] == t[k]
    {
      assert s[k] == GetRC(e, i, k);
    }
  }

  /** The identity is a right unit: `a * I == a` for row-major `a`. */
  lemma RightIdentity(a: Matrix)
    requires WellFormed(a) && a.major == Row
    ensures MulFromRight(a, CreateIdentity(a.col, 1.0)) == Ok(a)
  {
    var e := CreateIdentity(a.col, 1.0);
    var r := MulFromRight(a, e).value;
    forall i: nat, j: nat | i < a.row && j < a.col
      ensures GetRC(r, i, j) == GetRC(a, i, j)
    {
      MulFromRightCell(a, e, i, j);
      IdentityColumn(a.col, 1.0, j);
      var u := RowSlice(a, i);
      assert Scale(Unit(a.col, j), 1.0) == Unit(a.col, j);
      InnerUnit(u, j);
    }
    GetRCExtensional(r, a);
  }

  /** The identity is a left unit: `I * b == b` for row-major `b`. */
  lemma LeftIdentity(b: Matrix)
    requires WellFormed(b) && b.major == Row
    ensures MulFromRight(CreateIdentity(b.row, 1.0), b) == Ok(b)
  {
    var e := CreateIdentity(b.row, 1.0);
    var r := MulFromRight(e, b).value;
    forall i: nat, j: nat | i < b.row && j < b.col
      ensures GetRC(r, i, j) == GetRC(b, i, j)
    {
      MulFromRightCell(e, b, i, j);
      IdentityRow(b.row, 1.0, i);
      var v := ColumnSlice(b, j);
      assert Scale(Unit(b.row, i), 1.0) == Unit(b.row, i);
      InnerSymmetric(Unit(b.row, i), v);
      InnerUnit(v, i);
    }
    GetRCExtensional(r, b);
  }

  /** A scalar on the left operand comes out of the product. */
  lemma MulFromRightScalar(a: Matrix, b: Matrix, k: real)
    requires WellFormed(a) && WellFormed(b) && a.col == b.row
    ensures MulFromRight(MultiplyScalar(a, k), b) == Ok(MultiplyScalar(MulFromRight(a, b).value, k))
  {
    var p := MulFromRight(a, b).value;
    var r, s := MulFromRight(MultiplyScalar(a, k), b).value, MultiplyScalar(p, k);
    forall i: nat, j: nat | i < a.row && j < b.col
      ensures GetRC(r, i, j) == GetRC(s, i, j)
    {
      ScaledProductCell(a, b, k, i, j);
      MultiplyScalarCells(p, k, i, j);
    }
    GetRCExtensional(r, s);
  }

  lemma ScaledProductCell(a: Matrix, b: Matrix, k: real, i: nat, j: nat)
    requires WellFormed(a) && WellFormed(b) && a.col == b.row
    requires i < a.row && j < b.col
    ensures GetRC(MulFromRight(MultiplyScalar(a, k), b).value, i, j)
      == k * GetRC(MulFromRight(a, b).value, i, j)
  {
    var sa := MultiplyScalar(a, k);
    var u, v := RowSlice(a, i), ColumnSlice(b, j);
    calc {
      GetRC(MulFromRight(sa, b).value, i, j);
      { MulFromRightCell(sa, b, i, j); }
      Inner(RowSlice(sa, i), v);
      { ScaledRowSlice(a, k, i); }
      Inner(Scale(u, k), v);
      { InnerScale(u, v, k); }
      k * Inner(u, v);
      { MulFromRightCell(a, b, i, j); }
      k * GetRC(MulFromRight(a, b).value, i, j);
    }
  }

  lemma ScaledRowSlice(a: Matrix, k: real, i: nat)
    requires WellFormed(a) && i < a.row
    ensures RowSlice(MultiplyScalar(a, k), i) == Scale(RowSlice(a, i), k)
  {
    var s, t := RowSlice(MultiplyScalar(a, k), i), Scale(RowSlice(a, i), k);
    forall c | 0 <= c < a.col
      ensures s[c] == t[c]
    {
      FlatInBounds(i, c, a.row, a.col);
    }
  }

  /** `makeMultiply(b)`: the same size check as `mulfromright`, but the
      result is sized `b.row` by `this.col`, so it holds only the top-left
      `this.col` by `this.col` block of the product. The loops read inside
      the buffers only when `this.col` is at most `this.row` and `b.col`. */
  function MakeMultiply(a: Matrix, b: Matrix): (r: Result<Matrix>)
    requires WellFormed(a) && WellFormed(b)
    requires a.col == b.row ==> a.col <= a.row && a.col <= b.col
    ensures r.Err? <==> a.col != b.row
    ensures r.Err? ==> r.error == SizeNotMatch
    ensures r.Ok? ==> WellFormed(r.value) && r.value.major == Row
    ensures r.Ok? ==> r.value.row == b.row && r.value.col == a.col
  {
    if a.col != b.row then Err(SizeNotMatch)
    else Ok(Matrix(b.row, a.col, Row, ProductBuffer(a, b, b.row, a.col)))
  }

  /** Every cell `makeMultiply` produces is the cell of the true product. */
  lemma MakeMultiplyIsTopLeftBlock(a: Matrix, b: Matrix, i: nat, j: nat)
    requires WellFormed(a) && WellFormed(b) && a.col == b.row
    requires a.col <= a.row && a.col <= b.col
    requires i < a.col && j < a.col
    ensures GetRC(MakeMultiply(a, b).value, i, j) == GetRC(MulFromRight(a, b).value, i, j)
  {
    ProductBufferCell(a, b, b.row, a.col, i, j);
    MulFromRightCell(a, b, i, j);
  }

  /** For two square matrices of one size nothing is lost. */
  lemma MakeMultiplySquareAgrees(a: Matrix, b: Matrix)
    requires WellFormed(a) && WellFormed(b) && a.row == a.col && b.row == b.col && a.col == b.row
    ensures MakeMultiply(a, b) == MulFromRight(a, b)
  {
    var r, s := MakeMultiply(a, b).value, MulFromRight(a, b).value;
    forall i: nat, j: nat | i < r.row && j < r.col
      ensures GetRC(r, i, j) == GetRC(s, i, j)
    {
      MakeMultiplyIsTopLeftBlock(a, b, i, j);
    }
    GetRCExtensional(r, s);
  }

  /** A 2 by 1 column times a 1 by 2 row: the product is 2 by 2, but
      `makeMultiply` returns a 1 by 1 matrix. */
  lemma MakeMultiplyDropsCells()
    ensures MakeMultiply(Matrix(2, 1, Row, [1.0, 2.0]), Matrix(1, 2, Row, [3.0, 4.0]))
      == Ok(Matrix(1, 1, Row, [3.0]))
    ensures MulFromRight(Matrix(2, 1, Row, [1.0, 2.0]), Matrix(1, 2, Row, [3.0, 4.0]))
      == Ok(Matrix(2, 2, Row, [3.0, 4.0, 6.0, 8.0]))
  {
    var a, b := Matrix(2, 1, Row, [1.0, 2.0]), Matrix(1, 2, Row, [3.0, 4.0]);
    var r := ProductBuffer(a, b, 1, 1);
    OuterCell(a, b, 1, 1, 0, 0);
    assert r == [3.0];
    var s := ProductBuffer(a, b, 2, 2);
    OuterCell(a, b, 2, 2, 0, 0);
    OuterCell(a, b, 2, 2, 0, 1);
    OuterCell(a, b, 2, 2, 1, 0);
    OuterCell(a, b, 2, 2, 1, 1);
    assert s == [3.0, 4.0, 6.0, 8.0];
  }

  /** A column times a row: each cell is a product of two entries. */
  lemma OuterCell(a: Matrix, b: Matrix, height: Dim, width: Dim, i: nat, j: nat)
    requires WellFormed(a) && WellFormed(b) && a.col == 1 && b.row == 1
    requires height <= a.row && width <= b.col && i < height && j < width
    ensures width * i + j < height * width
    ensures ProductBuffer(a, b, height, width)[width * i + j] == a.arr[i] * b.arr[j]
  {
    ProductBufferCell(a, b, height, width, i, j);
    assert a.col * i + 0 == i && b.col * 0 + j == j;
    assert RowSlice(a, i) == [a.arr[i]];
    assert ColumnSlice(b, j) == [b.arr[j]];
    assert Inner([a.arr[i]], [b.arr[j]]) == a.arr[i] * b.arr[j];
  }
}
