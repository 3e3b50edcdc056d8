/** Row-major index arithmetic shared by the two flat tables of the collective
    variable: the auxiliary table, where (type t, data d) sits at t*D + d, and the
    pair codes of the neighbour list, where (data i, atom j) is k = i*M + j. */
module Layout {

  /** The flat index of (row, col) in a table with `width` columns. */
  function RowMajor(row: nat, col: nat, width: nat): nat
    requires col < width
  {
    row * width + col
  }

  lemma DivModOfRowMajor(row: nat, col: nat, width: nat)
    requires col < width
    ensures (row * width + col) / width == row
    ensures (row * width + col) % width == col
  {
    var k := row * width + col;
    var q, r := k / width, k % width;
    assert k == q * width + r;
    assert (q - row) * width == col - r;
    if q > row {
      MulAtLeast(q - row, width);
    } else if q < row {
      MulAtLeast(row - q, width);
    }
  }

  lemma MulAtLeast(a: int, w: int)
    requires a >= 1 && w >= 0
    ensures a * w >= w
  {
  }

  /** An index of (row, col) stays below rows * width when row < rows. */
  lemma {:induction false} RowMajorInRange(row: nat, col: nat, rows: nat, width: nat)
    requires row < rows && col < width
    ensures RowMajor(row, col, width) < rows * width
  {
    assert (row + 1) * width == row * width + width;
    MulMonotone(row + 1, rows, width);
  }

  lemma MulMonotone(a: nat, b: nat, w: nat)
    requires a <= b
    ensures a * w <= b * w
  {
    assert b * w == a * w + (b - a) * w;
  }

  /** Every flat index below rows * width decodes to a row below rows and a
      column below width, from which it is rebuilt. */
  lemma DecodeInRange(k: nat, rows: nat, width: nat)
    requires k < rows * width
    ensures width > 0
    ensures k / width < rows && k % width < width
    ensures k == RowMajor(k / width, k % width, width)
  {
    var q := k / width;
    assert k == q * width + k % width;
    if q >= rows {
      MulMonotone(rows, q, width);
    }
  }
}
