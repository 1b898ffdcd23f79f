/** A single-band floating-point image as BoofCV stores it.

    The pixels of a `width` x `height` image live in a shared `data` array;
    pixel (x, y) is stored at `startIndex + y * stride + x`, so a sub-image
    is just another start index and stride over the same array.  Pixel
    values are modelled as `real` (no float rounding).
 */
module FloatImage {
  import opened GridArith

  datatype ImageFloat32 = ImageFloat32(
    width: int,
    height: int,
    startIndex: int,
    stride: int,
    data: seq<real>)
  {
    /** The storage invariant of an image: every pixel's slot exists in `data`. */
    predicate Valid()
    {
      && 0 <= width <= stride
      && 0 <= height
      && 0 <= startIndex
      && (height > 0 ==> startIndex + Mul(height - 1, stride) + width <= |data|)
    }

    predicate IsInBounds(x: int, y: int)
    {
      0 <= x < width && 0 <= y < height
    }

    /** Where pixel (x, y) is stored in `data`: `startIndex + y * stride + x`. */
    function StorageIndex(x: int, y: int): int
    {
      startIndex + Mul(y, stride) + x
    }

    /** Every in-bounds pixel of a valid image is stored inside `data`. */
    lemma StorageInRange(x: int, y: int)
      requires Valid() && IsInBounds(x, y)
      ensures 0 <= StorageIndex(x, y) < |data|
    {
      MulNonneg(y, stride);
      MulMonotone(y, height - 1, stride);
    }

    /** The value of pixel (x, y). */
    function Get(x: int, y: int): real
      requires Valid() && IsInBounds(x, y)
    {
      StorageInRange(x, y);
      data[StorageIndex(x, y)]
    }

    /** The value of the pixel with dense row-major index `a`. */
    function Pixel(a: int): real
      requires Valid() && 0 < width && 0 <= a < Mul(height, width)
    {
      DenseSplit(width, height, a);
      Get(a % width, a / width)
    }

    /** Two images show the same picture: same size, same value at every pixel. */
    ghost predicate SamePixels(other: ImageFloat32)
      requires Valid() && other.Valid()
    {
      && width == other.width
      && height == other.height
      && forall x, y :: IsInBounds(x, y) ==> Get(x, y) == other.Get(x, y)
    }
  }
}
