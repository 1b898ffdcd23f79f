/** Index arithmetic for row-major pixel grids.

    A pixel (x, y) of a grid `width` pixels wide has the dense index
    `y * width + x`.  The lemmas here recover the coordinates from a dense
    index and bound dense and strided indices; everything else in the
    project leans on them instead of on the solver's non-linear arithmetic.

    Products of two variables are written `Mul(a, b)`.  `Mul` is defined by
    recursion, so outside this module the solver sees a product as an opaque
    term and reasons about it only through the lemmas below; `MulIsProduct`
    ties it back to `*`.
 */
module GridArith {

  /** The product `a * b`, by repeated addition of `a`. */
  function Mul(a: int, b: int): int
    decreases if b < 0 then -b else b
  {
    if b == 0 then 0
    else if b > 0 then Mul(a, b - 1) + a
    else Mul(a, b + 1) - a
  }

  lemma {:induction false} MulIsProduct(a: int, b: int)
    ensures Mul(a, b) == a * b
    decreases if b < 0 then -b else b
  {
    if b > 0 {
      MulIsProduct(a, b - 1);
    } else if b < 0 {
      MulIsProduct(a, b + 1);
    }
  }

  /** The dense row-major index of pixel (x, y) in a grid `width` wide: `y * width + x`. */
  function Dense(width: int, x: int, y: int): int
  {
    Mul(y, width) + x
  }

  /** Multiplying both sides of `a <= b` by a non-negative factor keeps the order. */
  lemma MulMonotone(a: int, b: int, c: int)
    requires a <= b && 0 <= c
    ensures Mul(a, c) <= Mul(b, c)
  {
    MulIsProduct(a, c);
    MulIsProduct(b, c);
    var d := b - a;
    assert b * c == a * c + d * c;
  }

  /** A product of non-negative factors is non-negative. */
  lemma MulNonneg(a: int, c: int)
    requires 0 <= a && 0 <= c
    ensures 0 <= Mul(a, c)
  {
    MulIsProduct(a, c);
  }

  /** One more row adds one more row length. */
  lemma MulSucc(m: int, c: int)
    ensures Mul(m + 1, c) == Mul(m, c) + c
  {
    MulIsProduct(m + 1, c);
    MulIsProduct(m, c);
  }

  /** The 4-connected edge count, 2(W-1)(H-1) + (H-1) + (W-1), regrouped by direction. */
  lemma EdgeCountIdentity(w: int, h: int)
    ensures 2 * Mul(h - 1, w - 1) + (h - 1) + (w - 1) == w * (h - 1) + h * (w - 1)
  {
    MulIsProduct(h - 1, w - 1);
    assert (h - 1) * (w - 1) == h * w - h - w + 1;
    assert w * (h - 1) == w * h - w;
    assert h * (w - 1) == h * w - h;
  }

  /** Row and column are recovered from a dense index by division and remainder. */
  lemma {:induction false} DenseDecompose(width: int, x: int, y: int)
    requires 0 <= x < width
    ensures Dense(width, x, y) / width == y
    ensures Dense(width, x, y) % width == x
  {
    MulIsProduct(y, width);
    var a := Dense(width, x, y);
    var q := a / width;
    var r := a % width;
    assert q * width + r == y * width + x;
    if q > y {
      MulMonotone(y + 1, q, width);
      MulIsProduct(y + 1, width);
      MulIsProduct(q, width);
      assert false;
    } else if q < y {
      MulMonotone(q + 1, y, width);
      MulIsProduct(q + 1, width);
      assert false;
    }
  }

  /** A pixel inside a `width` x `height` grid has a dense index in `[0, height*width)`. */
  lemma DenseInGrid(width: int, height: int, x: int, y: int)
    requires 0 <= x < width && 0 <= y < height
    ensures 0 <= Dense(width, x, y) < Mul(height, width)
  {
    MulNonneg(y, width);
    MulMonotone(y + 1, height, width);
    MulSucc(y, width);
  }

  /** Every dense index of a grid splits into in-range coordinates. */
  lemma DenseSplit(width: int, height: int, a: int)
    requires 0 < width && 0 <= a < Mul(height, width)
    ensures 0 <= a % width < width
    ensures 0 <= a / width < height
    ensures a == Dense(width, a % width, a / width)
  {
    var y := a / width;
    MulIsProduct(y, width);
    if y >= height {
      MulMonotone(height, y, width);
      assert false;
    }
  }

  /** The pixel one row below (x, y) is `width` dense indices further on. */
  lemma DenseBelow(width: int, x: int, y: int)
    ensures Dense(width, x, y + 1) == Dense(width, x, y) + width
  {
    MulSucc(y, width);
  }

  /** An index whose lower neighbour is still inside the grid lies above the last row. */
  lemma BelowInGrid(width: int, height: int, a: int)
    requires 0 < width && 0 <= a && a + width < Mul(height, width)
    ensures a / width < height - 1
  {
    var y := a / width;
    MulIsProduct(y, width);
    assert Mul(y, width) <= a;
    if y >= height - 1 {
      MulMonotone(height - 1, y, width);
      MulSucc(height - 1, width);
      assert false;
    }
  }
}
