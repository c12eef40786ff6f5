/** `eigenequotion`: the coefficients of the characteristic polynomial
    `det(A - x I)` of a square matrix of size 1 to 3, lowest degree first. */
module Characteristic {
  import opened Outcomes
  import opened Matrices
  import opened Arithmetic
  import opened Determinant

  /** `eigenequotion()`: 'not square' for a non-square matrix, 'not
      implemented' from size 4 on; otherwise `[a0, -1]`, `[det, -trace, 1]`
      or `[det, c1, trace, -1]`, where `c1` is minus the sum of the three
      principal 2 by 2 minors, read off the buffer as if it were row-major. */
  function EigenEquation(m: Matrix): (r: Result<seq<real>>)
    requires WellFormed(m)
    ensures r.Err? <==> m.row != m.col || m.row >= 4
    ensures m.row != m.col ==> r == Err(NotSquare)
    ensures m.row == m.col && m.row >= 4 ==> r == Err(NotImplemented)
    ensures r.Ok? ==> |r.value| == m.row + 1
    ensures r.Ok? ==> r.value[m.row] == Sign(m.row)
  {
    var p := m.arr;
    if m.row != m.col then Err(NotSquare)
    else if m.row == 1 then Ok([p[0], -1.0])
    else if m.row == 2 then Ok([DetCofactor(m).value, -Trace(m).value, 1.0])
    else if m.row == 3 then
      Ok([DetCofactor(m).value,
          (p[1] * p[3] + p[2] * p[6] + p[5] * p[7]) - (p[4] * p[8] + p[8] * p[0] + p[0] * p[4]),
          Trace(m).value,
          -1.0])
    else Err(NotImplemented)
  }

  /** The polynomial with coefficients `c`, lowest degree first, at `x`. */
  function Eval(c: seq<real>, x: real): real
  {
    if |c| == 0 then 0.0 else c[0] + x * Eval(c[1..], x)
  }

  /** `c0 + c1 x`, `c0 + c1 x + c2 x^2` and `c0 + c1 x + c2 x^2 + c3 x^3`
      in nested form. */
  function Linear(c0: real, c1: real, x: real): real
  {
    c0 + x * c1
  }

  function Quadratic(c0: real, c1: real, c2: real, x: real): real
  {
    c0 + x * Linear(c1, c2, x)
  }

  function Cubic(c0: real, c1: real, c2: real, c3: real, x: real): real
  {
    c0 + x * Quadratic(c1, c2, c3, x)
  }

  lemma EvalLinear(c: seq<real>, x: real)
    requires |c| == 2
    ensures Eval(c, x) == Linear(c[0], c[1], x)
  {
    assert c[1..][1..] == [];
    assert Eval(c[1..], x) == c[1] + x * 0.0;
  }

  lemma EvalQuadratic(c: seq<real>, x: real)
    requires |c| == 3
    ensures Eval(c, x) == Quadratic(c[0], c[1], c[2], x)
  {
    EvalLinear(c[1..], x);
  }

  lemma EvalCubic(c: seq<real>, x: real)
    requires |c| == 4
    ensures Eval(c, x) == Cubic(c[0], c[1], c[2], c[3], x)
  {
    EvalQuadratic(c[1..], x);
  }

  /** `A - x I`, built the library's way with `makeAdd`. */
  function Shifted(m: Matrix, x: real): (s: Matrix)
    requires WellFormed(m) && m.row == m.col
    ensures WellFormed(s) && s.row == m.row && s.col == m.col && s.major == Row
  {
    MakeAdd(m, CreateIdentity(m.row, x), -1.0, 1.0).value
  }

  /** Buffer offset `k` of `A - x I`: `x` comes off the diagonal offsets. */
  lemma ShiftedAt(m: Matrix, x: real, k: nat)
    requires WellFormed(m) && m.row == m.col && k < |m.arr|
    ensures Shifted(m, x).arr[k] == m.arr[k] - (if k % (m.row + 1) == 0 then x else 0.0)
  {
  }

  /** The trace of a 3 by 3 matrix is the sum of buffer offsets 0, 4 and 8. */
  lemma TraceThree(m: Matrix)
    requires WellFormed(m) && m.row == 3 && m.col == 3
    ensures Trace(m) == Ok(m.arr[0] + m.arr[4] + m.arr[8])
  {
    assert StrideSum(m, 1) == m.arr[0];
    assert StrideSum(m, 2) == m.arr[0] + m.arr[4];
  }

  /** The trace of a 2 by 2 matrix is the sum of buffer offsets 0 and 3. */
  lemma TraceTwo(m: Matrix)
    requires WellFormed(m) && m.row == 2 && m.col == 2
    ensures Trace(m) == Ok(m.arr[0] + m.arr[3])
  {
    assert StrideSum(m, 1) == m.arr[0];
  }

  /** The 3 by 3 closed form with `x` taken off the diagonal, as a cubic in `x`. */
  lemma Det3Shift(a: real, b: real, c: real, d: real, e: real, f: real, g: real, h: real, i: real, x: real)
    ensures Det3(a - x, b, c, d, e - x, f, g, h, i - x)
      == Cubic(Det3(a, b, c, d, e, f, g, h, i), (b * d + c * g + f * h) - (e * i + i * a + a * e),
           a + e + i, -1.0, x)
  {
    var p, q, s := Det2(e, f, h, i), Det2(d, f, g, i), Det2(d, e, g, h);
    var p', q', s' := p - x * (e + i) + x * x, q - x * d, s + x * g;
    assert Det2(e - x, f, h, i - x) == p';
    assert Det2(d, f, g, i - x) == q';
    assert Det2(d, e - x, g, h) == s';
    assert (a - x) * p' == a * p - x * (a * (e + i) + p) + x * x * (a + e + i) - x * x * x;
    assert Det3(a - x, b, c, d, e - x, f, g, h, i - x) == (a - x) * p' - b * q' + c * s';
  }

  /** The 2 by 2 closed form with `x` taken off the diagonal, as a quadratic in `x`. */
  lemma Det2Shift(a: real, b: real, c: real, d: real, x: real)
    ensures Det2(a - x, b, c, d - x) == Quadratic(Det2(a, b, c, d), -(a + d), 1.0, x)
  {
  }

  /** The coefficients `eigenequotion` returns are those of `det(A - x I)`,
      both as `detcofactor` computes it and as the determinant itself. */
  lemma EigenEquationIsCharacteristic(m: Matrix, x: real)
    requires WellFormed(m) && m.row == m.col && m.row <= 3
    ensures EigenEquation(m).Ok?
    ensures Eval(EigenEquation(m).value, x) == DetCofactor(Shifted(m, x)).value
    ensures Eval(EigenEquation(m).value, x) == DetLaplace(Shifted(m, x))
  {
    if m.row == 1 {
      CharacteristicOne(m, x);
    } else if m.row == 2 {
      CharacteristicTwo(m, x);
    } else {
      CharacteristicThree(m, x);
    }
    DetCofactorIsExpansion(Shifted(m, x));
  }

  lemma CharacteristicOne(m: Matrix, x: real)
    requires WellFormed(m) && m.row == 1 && m.col == 1
    ensures Eval(EigenEquation(m).value, x) == DetCofactor(Shifted(m, x)).value
  {
    ShiftedAt(m, x, 0);
    EvalLinear(EigenEquation(m).value, x);
  }

  lemma CharacteristicTwo(m: Matrix, x: real)
    requires WellFormed(m) && m.row == 2 && m.col == 2
    ensures Eval(EigenEquation(m).value, x) == DetCofactor(Shifted(m, x)).value
  {
    var s, p := Shifted(m, x), m.arr;
    ShiftedAt(m, x, 0);
    ShiftedAt(m, x, 1);
    ShiftedAt(m, x, 2);
    ShiftedAt(m, x, 3);
    TraceTwo(m);
    EvalQuadratic(EigenEquation(m).value, x);
    assert DetCofactor(s).value == Det2(p[0] - x, p[1], p[2], p[3] - x);
    Det2Shift(p[0], p[1], p[2], p[3], x);
  }

  lemma CharacteristicThree(m: Matrix, x: real)
    requires WellFormed(m) && m.row == 3 && m.col == 3
    ensures Eval(EigenEquation(m).value, x) == DetCofactor(Shifted(m, x)).value
  {
    EigenThree(m, x);
    ShiftedThree(m, x);
    ShiftedCharThree(m.arr, x);
  }

  /** The characteristic polynomial of the 3 by 3 buffer `p`, read row-major, at `x`. */
  function CharThree(p: seq<real>, x: real): real
    requires |p| == 9
  {
    Cubic(Det3(p[0], p[1], p[2], p[3], p[4], p[5], p[6], p[7], p[8]),
          (p[1] * p[3] + p[2] * p[6] + p[5] * p[7]) - (p[4] * p[8] + p[8] * p[0] + p[0] * p[4]),
          p[0] + p[4] + p[8], -1.0, x)
  }

  /** `det(A - x I)` in closed form is that polynomial. */
  lemma ShiftedCharThree(p: seq<real>, x: real)
    requires |p| == 9
    ensures Det3(p[0] - x, p[1], p[2], p[3], p[4] - x, p[5], p[6], p[7], p[8] - x) == CharThree(p, x)
  {
    Det3Shift(p[0], p[1], p[2], p[3], p[4], p[5], p[6], p[7], p[8], x);
  }

  /** The 3 by 3 coefficients, evaluated at `x`. */
  lemma EigenThree(m: Matrix, x: real)
    requires WellFormed(m) && m.row == 3 && m.col == 3
    ensures Eval(EigenEquation(m).value, x) == CharThree(m.arr, x)
  {
    var r := EigenEquation(m).value;
    assert r[2] == m.arr[0] + m.arr[4] + m.arr[8] by { TraceThree(m); }
    EvalCubic(r, x);
  }

  lemma ShiftedThree(m: Matrix, x: real)
    requires WellFormed(m) && m.row == 3 && m.col == 3
    ensures DetCofactor(Shifted(m, x)).value == Det3(m.arr[0] - x, m.arr[1], m.arr[2],
      m.arr[3], m.arr[4] - x, m.arr[5], m.arr[6], m.arr[7], m.arr[8] - x)
  {
    var s := Shifted(m, x);
    forall k | 0 <= k < 9
      ensures s.arr[k] == m.arr[k] - (if k % 4 == 0 then x else 0.0)
    {
      ShiftedAt(m, x, k);
    }
    assert s.arr[0] == m.arr[0] - x && s.arr[4] == m.arr[4] - x && s.arr[8] == m.arr[8] - x;
    assert s.arr[1] == m.arr[1] && s.arr[2] == m.arr[2] && s.arr[3] == m.arr[3];
    assert s.arr[5] == m.arr[5] && s.arr[6] == m.arr[6] && s.arr[7] == m.arr[7];
  }
}
