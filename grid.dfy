/** Row-major index arithmetic shared by the per-pixel loops: pixel (row i,
    column j) of an image `width` pixels wide lives at index i * width + j. */
module Grid {

  /** The first `rows` rows of an image occupy at most the whole buffer. */
  lemma RowsInside(rows: nat, width: nat, height: nat)
    requires rows <= height
    ensures rows * width <= width * height
    decreases height - rows
  {
    if rows < height {
      RowsInside(rows + 1, width, height);
      assert rows * width <= (rows + 1) * width;
    }
  }

  /** The next row starts one width further on. */
  lemma NextRow(i: nat, width: nat)
    ensures (i + 1) * width == i * width + width
  {
  }

  /** Every in-bounds (row, column) pair has an index inside the buffer. */
  lemma RowMajorInside(i: nat, j: nat, width: nat, height: nat)
    requires i < height && j < width
    ensures i * width + j < width * height
  {
    assert i * width + j < (i + 1) * width;
    RowsInside(i + 1, width, height);
  }

  /** The row-major index determines its row and column again. */
  lemma RowMajorSplit(i: nat, j: nat, width: nat)
    requires j < width
    ensures (i * width + j) / width == i
    ensures (i * width + j) % width == j
  {
    var k := i * width + j;
    var d := k / width - i;
    assert d * width == j - k % width;
    MulScales(d, width);
  }

  /** A non-zero multiple of `width` is at least `width` away from zero. */
  lemma MulScales(d: int, width: nat)
    ensures d >= 1 ==> d * width >= width
    ensures d <= -1 ==> d * width + width <= 0
  {
  }
}
