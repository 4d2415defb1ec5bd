/** Bytes, and positions in row-by-row storage. */
module Rasters {
  type Byte = b: int | 0 <= b < 256

  /** Row and column of a position in rows of length d. */
  lemma QuotientAndRemainder(i: nat, d: nat, q: nat, r: nat)
    requires r < d && i == q * d + r
    ensures i / d == q && i % d == r
  {
    var q', r' := i / d, i % d;
    assert i == q' * d + r';
    if q < q' { assert (q' - q) * d >= d by { Scaled(q' - q, d); } }
    if q' < q { assert (q - q') * d >= d by { Scaled(q - q', d); } }
    assert q == q';
  }

  lemma Scaled(k: nat, d: nat)
    requires k >= 1
    ensures k * d >= d
  {}

  lemma RowInside(width: nat, height: nat, x: nat, y: nat)
    requires x < width && y < height
    ensures y * width + x < width * height
  {
    assert width * height == y * width + (height - y) * width;
    Scaled(height - y, width);
  }
}
