/** Scalar invariants of a square matrix: the trace and the cofactor
    determinant. */
module Determinant {
  import opened Outcomes
  import opened IndexArith
  import opened Matrices
  import opened Layout

  /** Sum of the first `n` diagonal cells, read through `getrc`. */
  function DiagonalSum(m: Matrix, n: nat): real
    requires WellFormed(m) && m.row == m.col && n <= m.row
  {
    if n == 0 then 0.0 else DiagonalSum(m, n - 1) + GetRC(m, n - 1, n - 1)
  }

  /** The sum the `trace` loop accumulates: buffer values at offsets
      `0, n + 1, 2 (n + 1), ...`, `count` of them. */
  function StrideSum(m: Matrix, count: nat): real
    requires WellFormed(m) && m.row == m.col && count <= m.row
  {
    if count == 0 then 0.0
    else
      FlatInBounds(count - 1, count - 1, m.row, m.row);
      StrideSum(m, count - 1) + m.arr[(m.row + 1) * (count - 1)]
  }

  /** Offset `(n + 1) * i` is diagonal cell `i` in either storage order. */
  lemma {:induction false} StrideSumIsDiagonalSum(m: Matrix, count: nat)
    requires WellFormed(m) && m.row == m.col && count <= m.row
    ensures StrideSum(m, count) == DiagonalSum(m, count)
  {
    if count > 0 {
      StrideSumIsDiagonalSum(m, count - 1);
      StrideCell(m, count - 1);
    }
  }

  lemma StrideCell(m: Matrix, i: nat)
    requires WellFormed(m) && m.row == m.col && i < m.row
    ensures (m.row + 1) * i < |m.arr|
    ensures m.arr[(m.row + 1) * i] == GetRC(m, i, i)
  {
    var n: nat := m.row;
    var o := Offset(m, i, i);
    assert o == n * i + i by {
      if m.major == Row {
        assert o == m.col * i + i;
      } else {
        assert o == m.row * i + i;
      }
    }
    MulAddOne(n, i);
    OffsetInBounds(m, i, i);
  }

  /** `trace()`: fails with 'not square' unless the matrix is square,
      otherwise the sum of the diagonal cells. */
  function Trace(m: Matrix): (r: Result<real>)
    requires WellFormed(m)
    ensures r.Err? <==> m.row != m.col
    ensures r.Err? ==> r.error == NotSquare
    ensures r.Ok? ==> r.value == DiagonalSum(m, m.row)
  {
    if m.row != m.col then Err(NotSquare)
    else
      StrideSumIsDiagonalSum(m, m.row);
      Ok(StrideSum(m, m.row))
  }

  /** The `trace` loop itself: `offset` steps by `num + 1`. */
  method ComputeTrace(m: Matrix) returns (r: Result<real>)
    requires WellFormed(m)
    ensures r == Trace(m)
  {
    if m.row != m.col {
      return Err(NotSquare);
    }
    var num: nat := m.row;
    var sum := 0.0;
    var offset: nat := 0;
    var i: nat := 0;
    while i < num
      invariant 0 <= i <= num
      invariant offset == (num + 1) * i
      invariant sum == StrideSum(m, i)
    {
      FlatInBounds(i, i, num, num);
      MulAddOne(num, i);
      StrideStep(num, i);
      sum := sum + m.arr[offset];
      offset := offset + num + 1;
      i := i + 1;
    }
    return Ok(sum);
  }

  /** `detcofactor()`: 'not square' for a non-square matrix; the closed
      forms for sizes 1, 2 and 3, read off the buffer as if it were
      row-major (a column-major buffer holds the transpose, which has the
      same determinant); from size 4 on the expansion loop calls `det` on
      the minor, a method matrices do not have, so the call fails. */
  function DetCofactor(m: Matrix): (r: Result<real>)
    requires WellFormed(m)
    ensures r.Err? <==> m.row != m.col || m.row >= 4
    ensures m.row != m.col ==> r == Err(NotSquare)
    ensures m.row == m.col && m.row >= 4 ==> r == Err(NotAFunction)
  {
    var p := m.arr;
    if m.row != m.col then Err(NotSquare)
    else if m.row == 1 then Ok(p[0])
    else if m.row == 2 then Ok(Det2(p[0], p[1], p[2], p[3]))
    else if m.row == 3 then Ok(Det3(p[0], p[1], p[2], p[3], p[4], p[5], p[6], p[7], p[8]))
    else Err(NotAFunction)
  }

  /** The closed form `detcofactor` uses for two rows `a b / c d`. */
  function Det2(a: real, b: real, c: real, d: real): real
  {
    a * d - b * c
  }

  /** The closed form `detcofactor` uses for three rows `a b c / d e f / g h i`. */
  function Det3(a: real, b: real, c: real, d: real, e: real, f: real, g: real, h: real, i: real): real
  {
    a * Det2(e, f, h, i) - b * Det2(d, f, g, i) + c * Det2(d, e, g, h)
  }

  /** The sign `(-1)^j` of a row-0 cofactor. */
  function Sign(j: nat): real
  {
    if j % 2 == 0 then 1.0 else -1.0
  }

  /** The signed term `(-1)^j * a * d` of an expansion along row 0. */
  function Term(j: nat, a: real, d: real): real
  {
    Sign(j) * a * d
  }

  /** A matrix seen as its logical rows, whatever its storage order. */
  type Grid = seq<seq<real>>

  predicate IsSquare(g: Grid, n: nat)
  {
    |g| == n && forall i :: 0 <= i < n ==> |g[i]| == n
  }

  /** The rows of a well-formed matrix, read through `getrc`. */
  function Rows(m: Matrix): (g: Grid)
    requires WellFormed(m)
    ensures |g| == m.row
    ensures forall i :: 0 <= i < m.row ==> |g[i]| == m.col
    ensures forall i: nat, j: nat :: i < m.row && j < m.col ==> g[i][j] == GetRC(m, i, j)
  {
    seq(m.row, i requires 0 <= i < m.row => seq(m.col, j requires 0 <= j < m.col => GetRC(m, i, j)))
  }

  /** Row 0 and column `j` struck out. */
  function StrikeRowZero(g: Grid, n: nat, j: nat): (h: Grid)
    requires n >= 2 && IsSquare(g, n) && j < n
    ensures IsSquare(h, n - 1)
    ensures forall i, k :: 0 <= i < n - 1 && 0 <= k < n - 1 ==> h[i][k] == g[i + 1][Skip(k, j)]
  {
    seq(n - 1, i requires 0 <= i < n - 1 => g[i + 1][..j] + g[i + 1][j + 1..])
  }

  /** The determinant by cofactor expansion along row 0, for square grids of
      any size: the expansion `detcofactor` sets out to perform. */
  function DetRows(g: Grid, n: nat): real
    requires n >= 1 && IsSquare(g, n)
    decreases n, n + 1
  {
    if n == 1 then g[0][0] else ExpansionSum(g, n, n)
  }

  /** The first `count` terms `(-1)^j * g[0][j] * det(minor(0, j))`. */
  function ExpansionSum(g: Grid, n: nat, count: nat): real
    requires n >= 2 && IsSquare(g, n) && count <= n
    decreases n, count
  {
    if count == 0 then 0.0
    else
      var j := count - 1;
      ExpansionSum(g, n, j) + Term(j, g[0][j], DetRows(StrikeRowZero(g, n, j), n - 1))
  }

  /** The determinant of a square matrix, any storage order. */
  function DetLaplace(m: Matrix): real
    requires WellFormed(m) && m.row == m.col
  {
    DetRows(Rows(m), m.row)
  }

  /** Striking row 0 and column `j` of the rows is what `cofactorrc(0, j)`
      does to the matrix, in either storage order. */
  lemma RowsOfMinor(m: Matrix, j: nat)
    requires WellFormed(m) && m.row == m.col && m.row >= 2 && j < m.col
    ensures Rows(Minor(m, 0, j)) == StrikeRowZero(Rows(m), m.row, j)
  {
    var a, b := Rows(Minor(m, 0, j)), StrikeRowZero(Rows(m), m.row, j);
    forall i | 0 <= i < m.row - 1
      ensures a[i] == b[i]
    {
      forall k | 0 <= k < m.row - 1
        ensures a[i][k] == b[i][k]
      {
        MinorCell(m, 0, j, i, k);
      }
    }
  }

  /** The determinant expands along row 0 over the minors `cofactorrc`
      builds: `det(m) = sum_j (-1)^j * m[0][j] * det(cofactorrc(0, j))`. */
  lemma {:induction false} DetLaplaceExpandsCofactors(m: Matrix, count: nat)
    requires WellFormed(m) && m.row == m.col && m.row >= 2 && count <= m.col
    ensures ExpansionSum(Rows(m), m.row, count) == CofactorSum(m, count)
  {
    if count > 0 {
      DetLaplaceExpandsCofactors(m, count - 1);
      RowsExpansionStep(m, count);
    }
  }

  /** One term of the expansion of the rows is one term of `CofactorSum`. */
  lemma RowsExpansionStep(m: Matrix, count: nat)
    requires WellFormed(m) && m.row == m.col && m.row >= 2 && 1 <= count <= m.col
    ensures ExpansionSum(Rows(m), m.row, count) == ExpansionSum(Rows(m), m.row, count - 1)
      + Term(count - 1, GetRC(m, 0, count - 1), DetLaplace(Minor(m, 0, count - 1)))
  {
    var j := count - 1;
    assert Rows(m)[0][j] == GetRC(m, 0, j);
    MinorDeterminant(m, j);
    ExpansionStep(Rows(m), m.row, count, GetRC(m, 0, j), DetLaplace(Minor(m, 0, j)));
  }

  /** `det(cofactorrc(0, j))` is the determinant of the rows with row 0 and
      column `j` struck out. */
  lemma MinorDeterminant(m: Matrix, j: nat)
    requires WellFormed(m) && m.row == m.col && m.row >= 2 && j < m.col
    ensures DetLaplace(Minor(m, 0, j)) == DetRows(StrikeRowZero(Rows(m), m.row, j), m.row - 1)
  {
    RowsOfMinor(m, j);
  }

  /** One more term of an expansion, given its entry `a` and minor determinant `d`. */
  lemma ExpansionStep(g: Grid, n: nat, count: nat, a: real, d: real)
    requires n >= 2 && IsSquare(g, n) && 1 <= count <= n
    requires g[0][count - 1] == a && DetRows(StrikeRowZero(g, n, count - 1), n - 1) == d
    ensures ExpansionSum(g, n, count) == ExpansionSum(g, n, count - 1) + Term(count - 1, a, d)
  {
  }

  /** `sum_{j < count} (-1)^j * m[0][j] * det(cofactorrc(0, j))`. */
  function CofactorSum(m: Matrix, count: nat): real
    requires WellFormed(m) && m.row == m.col && m.row >= 2 && count <= m.col
  {
    if count == 0 then 0.0
    else
      var j := count - 1;
      CofactorSum(m, j) + Term(j, GetRC(m, 0, j), DetLaplace(Minor(m, 0, j)))
  }

  /** A 2 by 2 closed form is the expansion of the rows. The buffer is read
      as if it were row-major; a column-major buffer holds the transpose,
      whose determinant is the same. */
  lemma DetCofactorTwo(m: Matrix)
    requires WellFormed(m) && m.row == 2 && m.col == 2
    ensures DetCofactor(m) == Ok(DetLaplace(m))
  {
    var p, g := m.arr, Rows(m);
    assert |p| == 4;
    if m.major == Row {
      assert g[0][0] == p[0] && g[0][1] == p[1];
      assert g[1][0] == p[2] && g[1][1] == p[3];
    } else {
      assert g[0][0] == p[0] && g[0][1] == p[2];
      assert g[1][0] == p[1] && g[1][1] == p[3];
      assert Det2(p[0], p[2], p[1], p[3]) == Det2(p[0], p[1], p[2], p[3]);
    }
    DetRowsTwo(g);
    assert DetLaplace(m) == DetRows(g, 2);
    assert DetCofactor(m).Ok?;
  }

  /** The 2 by 2 determinant of a grid. */
  lemma DetRowsTwo(g: Grid)
    requires IsSquare(g, 2)
    ensures DetRows(g, 2) == Det2(g[0][0], g[0][1], g[1][0], g[1][1])
  {
    assert DetRows(StrikeRowZero(g, 2, 0), 1) == g[1][1];
    assert DetRows(StrikeRowZero(g, 2, 1), 1) == g[1][0];
    assert ExpansionSum(g, 2, 2) == g[0][0] * g[1][1] - g[0][1] * g[1][0];
  }

  /** A 3 by 3 closed form is the expansion of the rows, in either storage
      order. */
  lemma DetCofactorThree(m: Matrix)
    requires WellFormed(m) && m.row == 3 && m.col == 3
    ensures DetCofactor(m) == Ok(DetLaplace(m))
  {
    var p := m.arr;
    var g := Rows(m);
    assert |p| == 9;
    if m.major == Row {
      assert g[0][0] == p[0] && g[0][1] == p[1] && g[0][2] == p[2];
      assert g[1][0] == p[3] && g[1][1] == p[4] && g[1][2] == p[5];
      assert g[2][0] == p[6] && g[2][1] == p[7] && g[2][2] == p[8];
      DetRowsThree(g);
    } else {
      assert g[0][0] == p[0] && g[0][1] == p[3] && g[0][2] == p[6];
      assert g[1][0] == p[1] && g[1][1] == p[4] && g[1][2] == p[7];
      assert g[2][0] == p[2] && g[2][1] == p[5] && g[2][2] == p[8];
      DetRowsThree(g);
      Det3Transpose(p[0], p[1], p[2], p[3], p[4], p[5], p[6], p[7], p[8]);
    }
    assert DetLaplace(m) == DetRows(g, 3);
    assert DetCofactor(m).Ok?;
  }

  /** The 3 by 3 closed form does not change under transposition. */
  lemma Det3Transpose(a: real, b: real, c: real, d: real, e: real, f: real, g: real, h: real, i: real)
    ensures Det3(a, d, g, b, e, h, c, f, i) == Det3(a, b, c, d, e, f, g, h, i)
  {
  }

  /** The 3 by 3 determinant of a grid, expanded along row 0. */
  lemma DetRowsThree(g: Grid)
    requires IsSquare(g, 3)
    ensures DetRows(g, 3) == Det3(g[0][0], g[0][1], g[0][2], g[1][0], g[1][1], g[1][2],
      g[2][0], g[2][1], g[2][2])
  {
    var d0 := Det2(g[1][1], g[1][2], g[2][1], g[2][2]);
    var d1 := Det2(g[1][0], g[1][2], g[2][0], g[2][2]);
    var d2 := Det2(g[1][0], g[1][1], g[2][0], g[2][1]);
    assert DetRows(StrikeRowZero(g, 3, 0), 2) == d0 by { DetRowsTwo(StrikeRowZero(g, 3, 0)); }
    assert DetRows(StrikeRowZero(g, 3, 1), 2) == d1 by { DetRowsTwo(StrikeRowZero(g, 3, 1)); }
    assert DetRows(StrikeRowZero(g, 3, 2), 2) == d2 by { DetRowsTwo(StrikeRowZero(g, 3, 2)); }
    ExpansionStep(g, 3, 1, g[0][0], d0);
    ExpansionStep(g, 3, 2, g[0][1], d1);
    ExpansionStep(g, 3, 3, g[0][2], d2);
    assert Term(0, g[0][0], d0) == g[0][0] * d0;
    assert Term(1, g[0][1], d1) == -(g[0][1] * d1);
    assert Term(2, g[0][2], d2) == g[0][2] * d2;
  }

  /** The closed forms of `detcofactor` agree with the row-0 expansion for
      sizes 1 to 3, in either storage order. */
  lemma DetCofactorIsExpansion(m: Matrix)
    requires WellFormed(m) && m.row == m.col && m.row <= 3
    ensures DetCofactor(m) == Ok(DetLaplace(m))
  {
    if m.row == 1 {
      assert Rows(m)[0][0] == GetRC(m, 0, 0) == m.arr[0];
    } else if m.row == 2 {
      DetCofactorTwo(m);
    } else {
      DetCofactorThree(m);
    }
  }

  /** For 2 by 2 and 3 by 3 matrices, `detcofactor` is the sum of
      `(-1)^j * a[0][j] * det(cofactorrc(0, j))`, where each minor is what
      `cofactorrc(0, j)` returns and its determinant is the minor's own
      `detcofactor` value. */
  lemma DetCofactorExpandsRowZero(m: Matrix)
    requires WellFormed(m) && m.row == m.col && 2 <= m.row <= 3
    ensures DetCofactor(m).Ok?
    ensures forall j :: 0 <= j < m.col ==> Cofactor(m, 0, j) == Ok(Minor(m, 0, j))
    ensures forall j :: 0 <= j < m.col ==>
      DetCofactor(Minor(m, 0, j)) == Ok(DetLaplace(Minor(m, 0, j)))
    ensures DetCofactor(m).value == CofactorSum(m, m.col)
  {
    DetCofactorIsExpansion(m);
    DetLaplaceExpandsCofactors(m, m.col);
    forall j | 0 <= j < m.col
      ensures DetCofactor(Minor(m, 0, j)) == Ok(DetLaplace(Minor(m, 0, j)))
    {
      DetCofactorIsExpansion(Minor(m, 0, j));
    }
  }

  /** `c` to the power `n`. */
  function Pow(c: real, n: nat): real
  {
    if n == 0 then 1.0 else c * Pow(c, n - 1)
  }

  /** The rows of `CreateIdentity(n, c)`. */
  function DiagonalGrid(n: nat, c: real): (g: Grid)
    ensures IsSquare(g, n)
  {
    seq(n, i => seq(n, j => if i == j then c else 0.0))
  }

  lemma RowsOfIdentity(n: nat, c: real)
    requires n >= 1
    ensures Rows(CreateIdentity(n, c)) == DiagonalGrid(n, c)
  {
    var a, b := Rows(CreateIdentity(n, c)), DiagonalGrid(n, c);
    forall i | 0 <= i < n
      ensures a[i] == b[i]
    {
      assert forall k :: 0 <= k < n ==> a[i][k] == b[i][k];
    }
  }

  /** Striking row 0 and column 0 of a diagonal grid leaves the diagonal
      grid one size smaller. */
  lemma StrikeDiagonal(n: nat, c: real)
    requires n >= 2
    ensures StrikeRowZero(DiagonalGrid(n, c), n, 0) == DiagonalGrid(n - 1, c)
  {
    var a, b := StrikeRowZero(DiagonalGrid(n, c), n, 0), DiagonalGrid(n - 1, c);
    forall i | 0 <= i < n - 1
      ensures a[i] == b[i]
    {
      assert forall k :: 0 <= k < n - 1 ==> a[i][k] == b[i][k];
    }
  }

  /** When row 0 is zero after its first cell, only the first term of the
      row-0 expansion survives. */
  lemma {:induction false} FirstTermOnly(g: Grid, n: nat, count: nat)
    requires n >= 2 && IsSquare(g, n) && 1 <= count <= n
    requires forall j :: 1 <= j < n ==> g[0][j] == 0.0
    ensures ExpansionSum(g, n, count) == g[0][0] * DetRows(StrikeRowZero(g, n, 0), n - 1)
  {
    if count > 1 {
      FirstTermOnly(g, n, count - 1);
    }
  }

  /** The diagonal grid with `c` on the diagonal has determinant `c^n`. */
  lemma {:induction false} DetDiagonal(n: nat, c: real)
    requires n >= 1
    ensures DetRows(DiagonalGrid(n, c), n) == Pow(c, n)
  {
    if n > 1 {
      FirstTermOnly(DiagonalGrid(n, c), n, n);
      StrikeDiagonal(n, c);
      DetDiagonal(n - 1, c);
    }
  }

  /** The determinant of `CreateIdentity(n, c)` is `c^n`. */
  lemma DetLaplaceIdentity(n: nat, c: real)
    requires n >= 1
    ensures DetLaplace(CreateIdentity(n, c)) == Pow(c, n)
  {
    RowsOfIdentity(n, c);
    DetDiagonal(n, c);
  }

  /** `detcofactor` of `CreateIdentity(n, c)` is `c^n` for the sizes it
      supports. */
  lemma DetCofactorIdentity(n: nat, c: real)
    requires 1 <= n <= 3
    ensures DetCofactor(CreateIdentity(n, c)) == Ok(Pow(c, n))
  {
    DetCofactorIsExpansion(CreateIdentity(n, c));
    DetLaplaceIdentity(n, c);
  }

  /** The 4 by 4 identity has determinant 1, yet `detcofactor` fails on it. */
  lemma DetCofactorFailsOnFour()
    ensures DetCofactor(CreateIdentity(4, 1.0)) == Err(NotAFunction)
    ensures DetLaplace(CreateIdentity(4, 1.0)) == 1.0
  {
    DetLaplaceIdentity(4, 1.0);
  }

  /** The expansion loop's sign test `(j & 1 === 0)`: `===` binds tighter
      than `&`, so it computes `j & false`, which is 0 for every `j`, and the
      cofactor is always negated. */
  function LoopSign(j: nat, codet: real): real
  {
    var test := 0; // j & (1 === 0) == j & 0
    if test != 0 then codet else -codet
  }

  /** The row-0 terms `a[0][j] * det(minor(0, j))` over the even columns
      `j < count`. */
  function EvenColumnSum(g: Grid, n: nat, count: nat): real
    requires n >= 2 && IsSquare(g, n) && count <= n
  {
    if count == 0 then 0.0
    else
      var j := count - 1;
      EvenColumnSum(g, n, j)
        + (if j % 2 == 0 then g[0][j] * DetRows(StrikeRowZero(g, n, j), n - 1) else 0.0)
  }

  /** The expansion loop as written, with `det` taken to be the cofactor
      determinant it was meant to call, over the rows of a row-major buffer
      (where `this.array[j]` is cell `(0, j)`). The odd columns get the sign they
      should, the even columns the opposite one, so the loop is off from the
      determinant's expansion by twice the even-column terms. */
  function ExpansionAsWritten(g: Grid, n: nat, count: nat): (r: real)
    requires n >= 2 && IsSquare(g, n) && count <= n
    ensures r == ExpansionSum(g, n, count) - 2.0 * EvenColumnSum(g, n, count)
  {
    if count == 0 then 0.0
    else
      var j := count - 1;
      ExpansionAsWritten(g, n, j) + g[0][j] * LoopSign(j, DetRows(StrikeRowZero(g, n, j), n - 1))
  }

  /** With every term negated the loop gives `-c^n` for the identity
      `CreateIdentity(n, c)` instead of `c^n`. */
  lemma ExpansionAsWrittenNegatesIdentity(n: nat, c: real)
    requires n >= 2
    ensures ExpansionAsWritten(Rows(CreateIdentity(n, c)), n, n) == -Pow(c, n)
    ensures DetLaplace(CreateIdentity(n, c)) == Pow(c, n)
  {
    RowsOfIdentity(n, c);
    DiagonalAsWritten(n, c, n);
    DetLaplaceIdentity(n, c);
  }

  lemma {:induction false} DiagonalAsWritten(n: nat, c: real, count: nat)
    requires n >= 2 && 1 <= count <= n
    ensures ExpansionAsWritten(DiagonalGrid(n, c), n, count) == -Pow(c, n)
  {
    if count > 1 {
      DiagonalAsWritten(n, c, count - 1);
    } else {
      StrikeDiagonal(n, c);
      DetDiagonal(n - 1, c);
    }
  }
}
