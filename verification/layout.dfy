/** Operations that re-arrange a matrix's buffer: transposition, storage
    order conversion and minor (cofactor) extraction. */
module Layout {
  import opened Outcomes
  import opened IndexArith
  import opened Matrices

  /** `createTranspose`: a clone whose shape is swapped and whose storage
      order tag is flipped; the buffer itself is not moved. */
  function CreateTranspose(m: Matrix): (t: Matrix)
    requires m.row * m.col <= |m.arr|
    ensures WellFormed(t)
    ensures t.row == m.col && t.col == m.row && t.major == Flip(m.major)
    ensures t.arr == m.arr[..m.row * m.col]
    ensures WellFormed(m) ==>
      forall i: nat, j: nat :: i < m.row && j < m.col ==> GetRC(t, j, i) == GetRC(m, i, j)
  {
    var c := Clone(m);
    Matrix(m.col, m.row, Flip(m.major), c.arr)
  }

  /** Transposing twice gives back the matrix: shape, tag and buffer. */
  lemma TransposeTwice(m: Matrix)
    requires WellFormed(m)
    ensures CreateTranspose(CreateTranspose(m)) == m
  {
  }

  /** The buffer `createMajor` writes when it converts between storage
      orders: cell `(i, j)` of the loops is read at `row * i + j` and
      written at `col * j + i`. With `row <= col` the reads stay inside the
      buffer, the writes never collide, and the writes that fall beyond
      the buffer are dropped (a typed array ignores them), so offset `k` ends
      up holding the read for `i = k % col, j = k / col` when `k % col < row`
      and keeps its initial 0 otherwise. */
  function ConvertedBuffer(m: Matrix): (b: seq<real>)
    requires WellFormed(m) && m.row <= m.col
    ensures |b| == m.row * m.col
  {
    seq(m.row * m.col, k requires 0 <= k < m.row * m.col => ConvertedAt(m, k))
  }

  function ConvertedAt(m: Matrix, k: nat): real
    requires WellFormed(m) && m.row <= m.col && k < m.row * m.col
  {
    var i, j := ColOf(k, m.row, m.col), RowOf(k, m.row, m.col);
    if i < m.row then
      FlatInBounds(i, j, m.row, m.row);
      MulMonotone(m.row, m.row, m.col);
      m.arr[m.row * i + j]
    else 0.0
  }

  /** `createMajor(inmajor)` as the library writes it: a clone when the tag
      already matches, otherwise the loop above under the requested tag.
      The loop's offsets are those of a square matrix, so only square
      matrices are guaranteed to keep their cells. */
  function CreateMajor(m: Matrix, target: Major): (r: Matrix)
    requires WellFormed(m)
    requires target == m.major || m.row <= m.col
    ensures WellFormed(r)
    ensures r.row == m.row && r.col == m.col && r.major == target
    ensures target == m.major ==> r == m
    ensures m.row == m.col ==>
      forall i: nat, j: nat :: i < m.row && j < m.col ==> GetRC(r, i, j) == GetRC(m, i, j)
  {
    if target == m.major then Clone(m)
    else
      var r := Matrix(m.row, m.col, target, ConvertedBuffer(m));
      if m.row == m.col then
        SquareConversionKeepsCells(m, target);
        r
      else r
  }

  lemma SquareConversionKeepsCells(m: Matrix, target: Major)
    requires WellFormed(m) && m.row == m.col && target != m.major
    ensures forall i: nat, j: nat :: i < m.row && j < m.col ==>
      GetRC(Matrix(m.row, m.col, target, ConvertedBuffer(m)), i, j) == GetRC(m, i, j)
  {
    forall i: nat, j: nat | i < m.row && j < m.col
      ensures GetRC(Matrix(m.row, m.col, target, ConvertedBuffer(m)), i, j) == GetRC(m, i, j)
    {
      SquareConversionKeepsCell(m, target, i, j);
    }
  }

  lemma SquareConversionKeepsCell(m: Matrix, target: Major, i: nat, j: nat)
    requires WellFormed(m) && m.row == m.col && target != m.major
    requires i < m.row && j < m.col
    ensures GetRC(Matrix(m.row, m.col, target, ConvertedBuffer(m)), i, j) == GetRC(m, i, j)
  {
    var n := m.row;
    var r := Matrix(n, n, target, ConvertedBuffer(m));
    var a, b := if target == Row then i else j, if target == Row then j else i;
    ConvertedAtCell(m, b, a);
    FlatInBounds(a, b, n, n);
    assert Offset(r, i, j) == n * a + b;
    assert Offset(m, i, j) == n * b + a;
  }

  /** Offset `col * j + i` of the converted buffer holds the read at
      `row * i + j`. */
  lemma ConvertedAtCell(m: Matrix, i: nat, j: nat)
    requires WellFormed(m) && m.row <= m.col && i < m.row && j < m.row
    ensures m.col * j + i < m.row * m.col && m.row * i + j < |m.arr|
    ensures ConvertedAt(m, m.col * j + i) == m.arr[m.row * i + j]
  {
    FlatInBounds(j, i, m.row, m.col);
    SplitFlat(j, i, m.col);
    FlatInBounds(i, j, m.row, m.row);
    MulMonotone(m.row, m.row, m.col);
  }

  /** A 1 by 2 column-major matrix `[1, 2]` converted to row-major loses
      its second cell: the write for it lands at offset 2, beyond the
      buffer. */
  lemma CreateMajorLosesCell()
    ensures var m := Matrix(1, 2, Col, [1.0, 2.0]);
      GetRC(m, 0, 1) == 2.0 && GetRC(CreateMajor(m, Row), 0, 1) == 0.0
  {
    var m := Matrix(1, 2, Col, [1.0, 2.0]);
    assert ConvertedBuffer(m)[1] == 0.0;
  }

  /** The conversion `createMajor` is documented to perform: same shape,
      requested tag, every cell where it was. */
  function CreateMajorIntended(m: Matrix, target: Major): (r: Matrix)
    requires WellFormed(m)
    ensures WellFormed(r)
    ensures r.row == m.row && r.col == m.col && r.major == target
    ensures forall i: nat, j: nat :: i < m.row && j < m.col ==> GetRC(r, i, j) == GetRC(m, i, j)
  {
    var r := Matrix(m.row, m.col, target, Relaid(m, target));
    assert forall i: nat, j: nat :: i < m.row && j < m.col ==> GetRC(r, i, j) == GetRC(m, i, j) by {
      forall i: nat, j: nat | i < m.row && j < m.col
        ensures GetRC(r, i, j) == GetRC(m, i, j)
      {
        RelaidCell(m, target, i, j);
      }
    }
    r
  }

  /** The cells of `m` laid out in `target` order. */
  function Relaid(m: Matrix, target: Major): (b: seq<real>)
    requires WellFormed(m)
    ensures |b| == m.row * m.col
  {
    var n := m.row * m.col;
    seq(n, k requires 0 <= k < n => RelaidEntry(m, target, k))
  }

  /** Entry `k` of `Relaid(m, target)`: the cell whose `target`-order
      offset is `k`. */
  function RelaidEntry(m: Matrix, target: Major, k: nat): real
    requires WellFormed(m) && k < m.row * m.col
  {
    if target == Row then GetRC(m, RowOf(k, m.row, m.col), ColOf(k, m.row, m.col))
    else
      assert k < m.col * m.row;
      GetRC(m, ColOf(k, m.col, m.row), RowOf(k, m.col, m.row))
  }

  /** Reading the relaid buffer in `target` order gives back each cell. */
  lemma RelaidCell(m: Matrix, target: Major, i: nat, j: nat)
    requires WellFormed(m) && i < m.row && j < m.col
    ensures var r := Matrix(m.row, m.col, target, Relaid(m, target));
      WellFormed(r) && GetRC(r, i, j) == GetRC(m, i, j)
  {
    var b := Relaid(m, target);
    var r := Matrix(m.row, m.col, target, b);
    if target == Row {
      var k := m.col * i + j;
      SplitFlat(i, j, m.col);
      FlatInBounds(i, j, m.row, m.col);
      assert b[k] == RelaidEntry(m, target, k);
      assert GetRC(r, i, j) == b[k];
    } else {
      var k := m.row * j + i;
      SplitFlat(j, i, m.row);
      FlatInBounds(j, i, m.col, m.row);
      assert b[k] == RelaidEntry(m, target, k);
      assert GetRC(r, i, j) == b[k];
    }
  }

  /** Converting to the other storage order and back restores the matrix. */
  lemma CreateMajorRoundTrip(m: Matrix, target: Major)
    requires WellFormed(m)
    ensures CreateMajorIntended(CreateMajorIntended(m, target), m.major) == m
  {
    GetRCExtensional(CreateMajorIntended(CreateMajorIntended(m, target), m.major), m);
  }

  /** On square matrices the library's conversion is the intended one. */
  lemma CreateMajorSquareAgrees(m: Matrix, target: Major)
    requires WellFormed(m) && m.row == m.col
    ensures CreateMajor(m, target) == CreateMajorIntended(m, target)
  {
    GetRCExtensional(CreateMajor(m, target), CreateMajorIntended(m, target));
  }

  /** Index `i` of the minor seen in the matrix when index `x` is struck
      out; an `x` outside the range is never struck. */
  function Skip(i: nat, x: int): nat
  {
    if 0 <= x <= i then i + 1 else i
  }

  /** How many of `n` indices survive striking out `x`. */
  function Kept(n: Dim, x: int): nat
  {
    if 0 <= x < n then n - 1 else n
  }

  lemma SkipBound(i: nat, n: Dim, x: int)
    requires i < Kept(n, x)
    ensures Skip(i, x) < n
  {
  }

  /** Offset, in a row-major `height` by `width` buffer, of cell `k` of the
      row-major `h` by `w` block that survives striking row `x` and column `y`. */
  function SkipFlat(k: nat, h: nat, w: nat, x: int, y: int, height: Dim, width: Dim): (o: nat)
    requires h == Kept(height, x) && w == Kept(width, y) && k < h * w
    ensures o < height * width
  {
    var i, j := RowOf(k, h, w), ColOf(k, h, w);
    SkipBound(i, height, x);
    SkipBound(j, width, y);
    FlatInBounds(Skip(i, x), Skip(j, y), height, width);
    width * Skip(i, x) + Skip(j, y)
  }

  /** Striking at most one row and one column keeps at least the minor's area. */
  lemma KeptArea(row: Dim, col: Dim, x: int, y: int)
    requires row >= 2 && col >= 2
    ensures (row - 1) * (col - 1) <= Kept(row, x) * Kept(col, y)
    ensures (row - 1) * (col - 1) <= Kept(col, y) * Kept(row, x)
  {
    MulMonotone(row - 1, col - 1, Kept(col, y));
    MulMonotone(Kept(col, y), row - 1, Kept(row, x));
  }

  /** The buffer offset `cofactorrc` copies into minor offset `k`: the
      copy loop walks the surviving cells in storage order and stops
      filling once the minor's buffer is full. */
  function MinorSource(m: Matrix, inrow: int, incol: int, k: nat): (o: nat)
    requires WellFormed(m) && m.row >= 2 && m.col >= 2
    requires k < (m.row - 1) * (m.col - 1)
    ensures o < |m.arr|
  {
    KeptArea(m.row, m.col, inrow, incol);
    var h, w := Kept(m.row, inrow), Kept(m.col, incol);
    if m.major == Row then SkipFlat(k, h, w, inrow, incol, m.row, m.col)
    else SkipFlat(k, w, h, incol, inrow, m.col, m.row)
  }

  /** The minor `cofactorrc(inrow, incol)` builds once the size check has
      passed: one row and one column fewer, same storage order. */
  function Minor(m: Matrix, inrow: int, incol: int): (r: Matrix)
    requires WellFormed(m) && m.row >= 2 && m.col >= 2
    ensures WellFormed(r)
    ensures r.row == m.row - 1 && r.col == m.col - 1 && r.major == m.major
  {
    Matrix(m.row - 1, m.col - 1, m.major, MinorBuffer(m, inrow, incol))
  }

  /** The minor's buffer: offset `k` holds the value at `MinorSource`. */
  function MinorBuffer(m: Matrix, inrow: int, incol: int): (b: seq<real>)
    requires WellFormed(m) && m.row >= 2 && m.col >= 2
    ensures |b| == (m.row - 1) * (m.col - 1)
  {
    var len := (m.row - 1) * (m.col - 1);
    seq(len, k requires 0 <= k < len => m.arr[MinorSource(m, inrow, incol, k)])
  }

  /** Cell `(i, j)` of the minor is the cell of the matrix found by
      stepping over the struck row and column, in either storage order. */
  lemma MinorCell(m: Matrix, inrow: int, incol: int, i: nat, j: nat)
    requires WellFormed(m) && m.row >= 2 && m.col >= 2
    requires 0 <= inrow < m.row && 0 <= incol < m.col
    requires i < m.row - 1 && j < m.col - 1
    ensures GetRC(Minor(m, inrow, incol), i, j) == GetRC(m, Skip(i, inrow), Skip(j, incol))
  {
    var r := Minor(m, inrow, incol);
    OffsetInBounds(r, i, j);
    OffsetInBounds(m, Skip(i, inrow), Skip(j, incol));
    var k := Offset(r, i, j);
    if m.major == Row {
      SplitFlat(i, j, m.col - 1);
    } else {
      SplitFlat(j, i, m.row - 1);
    }
    assert MinorSource(m, inrow, incol, k) == Offset(m, Skip(i, inrow), Skip(j, incol));
  }

  /** `cofactorrc(inrow, incol)`: fails with 'small' unless the matrix has
      at least two rows and two columns; otherwise the minor with row
      `inrow` and column `incol` struck out. */
  function Cofactor(m: Matrix, inrow: int, incol: int): (r: Result<Matrix>)
    requires WellFormed(m)
    ensures r.Err? <==> m.row <= 1 || m.col <= 1
    ensures r.Err? ==> r.error == Small
    ensures r.Ok? ==> WellFormed(r.value) && r.value.major == m.major
    ensures r.Ok? ==> r.value.row == m.row - 1 && r.value.col == m.col - 1
    ensures r.Ok? && 0 <= inrow < m.row && 0 <= incol < m.col ==>
      forall i: nat, j: nat :: i < r.value.row && j < r.value.col ==>
        GetRC(r.value, i, j) == GetRC(m, Skip(i, inrow), Skip(j, incol))
  {
    if m.row <= 1 || m.col <= 1 then Err(Small)
    else
      var r := Minor(m, inrow, incol);
      assert 0 <= inrow < m.row && 0 <= incol < m.col ==>
        forall i: nat, j: nat :: i < r.row && j < r.col ==>
          GetRC(r, i, j) == GetRC(m, Skip(i, inrow), Skip(j, incol)) by {
        if 0 <= inrow < m.row && 0 <= incol < m.col {
          forall i: nat, j: nat | i < r.row && j < r.col
            ensures GetRC(r, i, j) == GetRC(m, Skip(i, inrow), Skip(j, incol))
          {
            MinorCell(m, inrow, incol, i, j);
          }
        }
      }
      Ok(r)
  }

  /** Striking the first row and column of an identity leaves the identity
      one size smaller. */
  lemma MinorOfIdentity(n: nat, c: real)
    requires n >= 2
    ensures Minor(CreateIdentity(n, c), 0, 0) == CreateIdentity(n - 1, c)
  {
    var id := CreateIdentity(n, c);
    var mi := Minor(id, 0, 0);
    var small := CreateIdentity(n - 1, c);
    forall i: nat, j: nat | i < mi.row && j < mi.col
      ensures GetRC(mi, i, j) == GetRC(small, i, j)
    {
      MinorCell(id, 0, 0, i, j);
    }
    GetRCExtensional(mi, small);
  }
}
