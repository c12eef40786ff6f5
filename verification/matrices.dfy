/** The dense matrix value of the library: a shape, a storage order and one
    flat buffer, together with construction, cloning, bulk assignment,
    identity matrices and element access. */
module Matrices {
  import opened Outcomes
  import opened IndexArith

  /** Storage order of the flat buffer. The model covers the two tags the
      library writes: `'row'` lists the matrix row by row, `'col'` column by
      column. */
  datatype Major = Row | Col

  /** Row and column counts. Requested counts are taken as non-negative
      integers, and the constructor turns a missing or zero one into 1. */
  type Dim = n: int | 1 <= n witness 1

  /** `arr` is the buffer the matrix owns; it need not have `row * col`
      elements, because the constructor adopts any caller-supplied array. */
  datatype Matrix = Matrix(row: Dim, col: Dim, major: Major, arr: seq<real>)

  /** The buffer holds exactly one value per cell. */
  predicate WellFormed(m: Matrix)
  {
    |m.arr| == m.row * m.col
  }

  /** The constructor's optional argument; `None` is an absent (or
      `undefined`) property, and a `None` everywhere is a call without
      argument. */
  datatype Options = Options(
    row: Option<nat>,
    col: Option<nat>,
    major: Option<Major>,
    buffer: Option<seq<real>>)

  /** `x || 1` on a count: absent and zero both become 1. */
  function CountOr1(n: Option<nat>): Dim
  {
    match n
    case Some(k) => if k == 0 then 1 else k
    case None => 1
  }

  /** `new Matrix(inopt)`. */
  function New(opt: Options): (m: Matrix)
    ensures opt.row.Some? && opt.row.value > 0 ==> m.row == opt.row.value
    ensures opt.row.None? || opt.row.value == 0 ==> m.row == 1
    ensures opt.col.Some? && opt.col.value > 0 ==> m.col == opt.col.value
    ensures opt.col.None? || opt.col.value == 0 ==> m.col == 1
    ensures m.major == (if opt.major.Some? then opt.major.value else Row)
    ensures opt.buffer.Some? ==> m.arr == opt.buffer.value
    ensures opt.buffer.None? ==>
      WellFormed(m) && forall k :: 0 <= k < |m.arr| ==> m.arr[k] == 0.0
    ensures WellFormed(m) <==>
      opt.buffer.None? || |opt.buffer.value| == m.row * m.col
  {
    var r := CountOr1(opt.row);
    var c := CountOr1(opt.col);
    var major := match opt.major case Some(x) => x case None => Row;
    var arr := match opt.buffer case Some(a) => a case None => seq(r * c, _ => 0.0);
    Matrix(r, c, major, arr)
  }

  /** `clone`: copies the first `row * col` buffer values into a fresh
      buffer of that length. */
  function Clone(m: Matrix): (r: Matrix)
    requires m.row * m.col <= |m.arr|
    ensures WellFormed(r)
    ensures r.row == m.row && r.col == m.col && r.major == m.major
    ensures forall k :: 0 <= k < |r.arr| ==> r.arr[k] == m.arr[k]
    ensures WellFormed(m) ==> r == m
  {
    m.(arr := m.arr[..m.row * m.col])
  }

  /** `setArray`: overwrites the leading buffer values with `values`, as
      many as both have; the rest of the buffer is left as it was. */
  function SetArray(m: Matrix, values: seq<real>): (r: Matrix)
    ensures r.row == m.row && r.col == m.col && r.major == m.major
    ensures |r.arr| == |m.arr|
    ensures forall k :: 0 <= k < |r.arr| && k < |values| ==> r.arr[k] == values[k]
    ensures forall k :: |values| <= k < |r.arr| ==> r.arr[k] == m.arr[k]
    ensures WellFormed(r) <==> WellFormed(m)
  {
    if |values| < |m.arr| then m.(arr := values + m.arr[|values|..])
    else m.(arr := values[..|m.arr|])
  }

  /** The tag `createTranspose` gives the transposed matrix. */
  function Flip(major: Major): Major
  {
    if major == Row then Col else Row
  }

  /** Flat offset `getrc` reads for cell (r, c). */
  function Offset(m: Matrix, r: nat, c: nat): nat
  {
    if m.major == Row then m.col * r + c else m.row * c + r
  }

  /** Every cell of a well-formed matrix has its offset inside the buffer. */
  lemma OffsetInBounds(m: Matrix, r: nat, c: nat)
    requires WellFormed(m) && r < m.row && c < m.col
    ensures Offset(m, r, c) < |m.arr|
  {
    if m.major == Row {
      FlatInBounds(r, c, m.row, m.col);
    } else {
      FlatInBounds(c, r, m.col, m.row);
    }
  }

  /** `getrc(r, c)`: a row-major matrix keeps cell `(r, c)` at `col * r + c`,
      a column-major one at `row * c + r`; both offsets are inside a
      well-formed buffer. */
  function GetRC(m: Matrix, r: nat, c: nat): (v: real)
    requires WellFormed(m) && r < m.row && c < m.col
    ensures m.major == Row ==> (FlatInBounds(r, c, m.row, m.col); v == m.arr[m.col * r + c])
    ensures m.major == Col ==> (FlatInBounds(c, r, m.col, m.row); v == m.arr[m.row * c + r])
  {
    OffsetInBounds(m, r, c);
    m.arr[Offset(m, r, c)]
  }

  /** Distinct cells of a well-formed matrix have distinct offsets. */
  lemma OffsetInjective(m: Matrix, r: nat, c: nat, r': nat, c': nat)
    requires WellFormed(m)
    requires r < m.row && c < m.col && r' < m.row && c' < m.col
    requires Offset(m, r, c) == Offset(m, r', c')
    ensures r == r' && c == c'
  {
    if m.major == Row {
      FlatInjective(r, c, r', c', m.col);
    } else {
      FlatInjective(c, r, c', r', m.row);
    }
  }

  /** The cell stored at buffer offset `k`. */
  lemma CellOf(m: Matrix, k: nat) returns (r: nat, c: nat)
    requires WellFormed(m) && k < |m.arr|
    ensures r < m.row && c < m.col && Offset(m, r, c) == k
  {
    if m.major == Row {
      r, c := RowOf(k, m.row, m.col), ColOf(k, m.row, m.col);
    } else {
      assert k < m.col * m.row;
      c, r := RowOf(k, m.col, m.row), ColOf(k, m.col, m.row);
    }
  }

  /** Two well-formed matrices of one shape and storage order are equal
      exactly when `getrc` agrees on every cell. */
  lemma GetRCExtensional(a: Matrix, b: Matrix)
    requires WellFormed(a) && WellFormed(b)
    requires a.row == b.row && a.col == b.col && a.major == b.major
    requires forall r: nat, c: nat :: r < a.row && c < a.col ==> GetRC(a, r, c) == GetRC(b, r, c)
    ensures a == b
  {
    forall k | 0 <= k < |a.arr|
      ensures a.arr[k] == b.arr[k]
    {
      var r, c := CellOf(a, k);
      assert GetRC(a, r, c) == GetRC(b, r, c);
    }
  }

  /** On an n by n grid the offset `n * i + j` is a multiple of `n + 1`
      exactly on the diagonal. */
  lemma DiagonalOffset(i: nat, j: nat, n: nat)
    requires i < n && j < n
    ensures (n * i + j) % (n + 1) == 0 <==> i == j
  {
    if j >= i {
      assert n * i + j == (n + 1) * i + (j - i);
      SplitFlat(i, j - i, n + 1);
    } else {
      assert n * i + j == (n + 1) * (i - 1) + (n + 1 + j - i);
      SplitFlat(i - 1, n + 1 + j - i, n + 1);
    }
  }

  /** `CreateIdentity(n, c)`: a fresh row-major n by n matrix with `c` at
      the flat offsets `(n + 1) * i` and 0 elsewhere. A dimension of 0 makes
      the constructor fall back to 1 while the loop runs no time, leaving a
      1 by 1 zero matrix. */
  function CreateIdentity(n: nat, c: real): (m: Matrix)
    ensures WellFormed(m) && m.major == Row
    ensures n >= 1 ==> m.row == n && m.col == n
    ensures n == 0 ==> m.row == 1 && m.col == 1 && m.arr == [0.0]
    ensures forall i: nat, j: nat :: i < n && j < n ==>
      GetRC(m, i, j) == (if i == j then c else 0.0)
  {
    if n == 0 then
      Matrix(1, 1, Row, [0.0])
    else
      IdentityCells(n, c);
      Matrix(n, n, Row, DiagonalBuffer(n, c))
  }

  /** The buffer `CreateIdentity` fills: `c` at every offset that is a
      multiple of `n + 1`. */
  function DiagonalBuffer(n: Dim, c: real): seq<real>
  {
    seq(n * n, k => if k % (n + 1) == 0 then c else 0.0)
  }

  lemma IdentityCells(n: Dim, c: real)
    ensures forall i: nat, j: nat :: i < n && j < n ==>
      GetRC(Matrix(n, n, Row, DiagonalBuffer(n, c)), i, j) == (if i == j then c else 0.0)
  {
    var m := Matrix(n, n, Row, DiagonalBuffer(n, c));
    forall i: nat, j: nat | i < n && j < n
      ensures GetRC(m, i, j) == (if i == j then c else 0.0)
    {
      DiagonalOffset(i, j, n);
      FlatInBounds(i, j, n, n);
      assert GetRC(m, i, j) == DiagonalBuffer(n, c)[n * i + j];
    }
  }

  /** `new Matrix2()`: a 2 by 2 zero matrix, row-major. */
  function Matrix2(): (m: Matrix)
    ensures m.row == 2 && m.col == 2 && m.major == Row
    ensures m.arr == [0.0, 0.0, 0.0, 0.0]
  {
    New(Options(Some(2), Some(2), None, None))
  }

  /** `new Matrix3()`: a 3 by 3 zero matrix, row-major. */
  function Matrix3(): (m: Matrix)
    ensures m.row == 3 && m.col == 3 && m.major == Row
    ensures WellFormed(m) && forall k :: 0 <= k < 9 ==> m.arr[k] == 0.0
  {
    New(Options(Some(3), Some(3), None, None))
  }

  /** `new Matrix4()`: a 4 by 4 zero matrix, row-major. */
  function Matrix4(): (m: Matrix)
    ensures m.row == 4 && m.col == 4 && m.major == Row
    ensures WellFormed(m) && forall k :: 0 <= k < 16 ==> m.arr[k] == 0.0
  {
    New(Options(Some(4), Some(4), None, None))
  }

  /** `Matrix2.CreateIdentity()` and its 3 and 4 siblings: the unit
      identity of the fixed size. */
  function FixedIdentity(n: nat): (m: Matrix)
    requires 2 <= n <= 4
    ensures WellFormed(m) && m.row == n && m.col == n && m.major == Row
    ensures forall i: nat, j: nat :: i < n && j < n ==>
      GetRC(m, i, j) == (if i == j then 1.0 else 0.0)
  {
    CreateIdentity(n, 1.0)
  }

  /** `new Vector2(inopt)`: a 2 by 1 zero vector; the argument is ignored. */
  function Vector2(opt: Options): (m: Matrix)
    ensures m.row == 2 && m.col == 1 && m.major == Row
    ensures m.arr == [0.0, 0.0]
  {
    New(Options(Some(2), Some(1), None, None))
  }

  /** `new Vector3(inopt)`: a 3 by 1 zero vector; the argument, coordinates
      included, is ignored. */
  function Vector3(opt: Options): (m: Matrix)
    ensures m.row == 3 && m.col == 1 && m.major == Row
    ensures m.arr == [0.0, 0.0, 0.0]
  {
    New(Options(Some(3), Some(1), None, None))
  }

  /** `new Vector4(inopt)`: a 4 by 1 zero vector; the argument is ignored. */
  function Vector4(opt: Options): (m: Matrix)
    ensures m.row == 4 && m.col == 1 && m.major == Row
    ensures m.arr == [0.0, 0.0, 0.0, 0.0]
  {
    New(Options(Some(4), Some(1), None, None))
  }
}
