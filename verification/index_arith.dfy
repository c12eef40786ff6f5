/** Facts about flat offsets `width * i + j` into a `height` by `width` grid,
    the index arithmetic every matrix layout relies on. */
module IndexArith {

  lemma MulMonotone(a: nat, b: nat, c: nat)
    requires b <= c
    ensures a * b <= a * c
  {
  }

  /** A cell of the grid lands inside the flat buffer. */
  lemma FlatInBounds(i: nat, j: nat, height: nat, width: nat)
    requires i < height && j < width
    ensures width * i + j < height * width
  {
    MulMonotone(width, i + 1, height);
    assert width * (i + 1) == width * i + width;
  }

  /** Division and remainder by the width recover the cell. */
  lemma SplitFlat(i: nat, j: nat, width: nat)
    requires j < width
    ensures (width * i + j) / width == i
    ensures (width * i + j) % width == j
  {
    var p := width * i + j;
    var q, r := p / width, p % width;
    assert p == width * q + r;
    assert width * (i + 1) == width * i + width;
    assert width * (q + 1) == width * q + width;
    assert q <= i by {
      if q >= i + 1 { MulMonotone(width, i + 1, q); }
    }
    assert i <= q by {
      if i >= q + 1 { MulMonotone(width, q + 1, i); }
    }
  }

  /** The row of a flat offset inside the grid is a row of the grid. */
  lemma DivBound(p: nat, height: nat, width: nat)
    requires p < height * width
    ensures width > 0 && p / width < height
  {
    var q := p / width;
    assert q < height by {
      if q >= height { MulMonotone(width, height, q); }
    }
  }

  /** The grid row of a flat offset. */
  function RowOf(p: nat, height: nat, width: nat): (i: nat)
    requires p < height * width
    ensures i < height && width > 0
    ensures p == width * i + ColOf(p, height, width)
  {
    DivBound(p, height, width);
    p / width
  }

  /** The grid column of a flat offset. */
  function ColOf(p: nat, height: nat, width: nat): (j: nat)
    requires p < height * width
    ensures j < width
  {
    p % width
  }

  /** Two cells with the same flat offset are the same cell. */
  lemma FlatInjective(i: nat, j: nat, i': nat, j': nat, width: nat)
    requires j < width && j' < width
    requires width * i + j == width * i' + j'
    ensures i == i' && j == j'
  {
    SplitFlat(i, j, width);
    SplitFlat(i', j', width);
  }

  lemma MulAddOne(n: nat, i: nat)
    ensures (n + 1) * i == n * i + i
  {
  }

  /** One more stride of `n + 1` reaches the next diagonal offset. */
  lemma StrideStep(n: nat, i: nat)
    ensures (n + 1) * i + n + 1 == (n + 1) * (i + 1)
  {
  }
}
