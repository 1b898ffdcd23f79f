/** The BRIEF binary descriptor of a point in an 8-bit image.

    A BRIEF definition is a list of `n` pixel-pair tests around the point.
    For test `i` the two samples sit at fixed offsets `offsetsA[i]` and
    `offsetsB[i]` from the point's storage index in the (already blurred)
    image, and the test holds when sample A is strictly darker than sample
    B.  The outcomes are packed into the descriptor's 32-bit words, test `i`
    at bit `i % 32` of word `i / 32`; the descriptor words are cleared
    first, so bits of tests that fail and bits past the last test are 0.

    Java raises an index exception for a sample outside the image's data
    array and for a set bit past the descriptor's last word; both are the
    `IndexOutOfBounds` outcome here.
 */
module DescribePointBriefU8 {
  import opened JavaBytes
  import opened Bits32
  import opened BitPacking

  /** An unsigned 8-bit image: intensities stored in Java bytes, pixel (x, y) at `startIndex + y * stride + x`. */
  datatype ImageUInt8 = ImageUInt8(
    width: int,
    height: int,
    startIndex: int,
    stride: int,
    data: seq<JByte>)

  datatype Outcome =
    | Described(desc: seq<bv32>)
    | IndexOutOfBounds

  /** The storage index of the described point (c_x, c_y). */
  function Center(img: ImageUInt8, cx: int, cy: int): int
  {
    img.startIndex + img.stride * cy + cx
  }

  /** Both samples of test `i` lie inside the data array. */
  predicate SamplesInRange(img: ImageUInt8, c: int, offsetsA: seq<int>, offsetsB: seq<int>, i: int)
    requires 0 <= i < |offsetsA| == |offsetsB|
  {
    0 <= c + offsetsA[i] < |img.data| && 0 <= c + offsetsB[i] < |img.data|
  }

  /** Test `i` holds: sample A, read as an unsigned intensity, is strictly below sample B. */
  predicate PairTest(img: ImageUInt8, c: int, offsetsA: seq<int>, offsetsB: seq<int>, i: int)
    requires 0 <= i < |offsetsA| == |offsetsB|
    requires SamplesInRange(img, c, offsetsA, offsetsB, i)
  {
    Unsigned(img.data[c + offsetsA[i]]) < Unsigned(img.data[c + offsetsB[i]])
  }

  /** Test `i` raises an index exception: a sample outside the data, or a set bit with no word to hold it. */
  predicate Faults(img: ImageUInt8, c: int, offsetsA: seq<int>, offsetsB: seq<int>, words: int, i: int)
    requires 0 <= i < |offsetsA| == |offsetsB|
  {
    || !SamplesInRange(img, c, offsetsA, offsetsB, i)
    || (PairTest(img, c, offsetsA, offsetsB, i) && words <= i / 32)
  }

  /** All samples of the first `m` tests lie inside the data array. */
  ghost predicate InRangeUpTo(img: ImageUInt8, c: int, offsetsA: seq<int>, offsetsB: seq<int>, m: int)
    requires |offsetsA| == |offsetsB|
  {
    forall i :: 0 <= i < m && i < |offsetsA| ==> SamplesInRange(img, c, offsetsA, offsetsB, i)
  }

  /** The outcomes of the first `m` tests, in order. */
  function Tests(img: ImageUInt8, c: int, offsetsA: seq<int>, offsetsB: seq<int>, m: int): (t: seq<bool>)
    requires 0 <= m <= |offsetsA| == |offsetsB|
    requires InRangeUpTo(img, c, offsetsA, offsetsB, m)
    decreases m
  {
    if m == 0 then []
    else Tests(img, c, offsetsA, offsetsB, m - 1) + [PairTest(img, c, offsetsA, offsetsB, m - 1)]
  }

  /** Entry `i` of the outcome string is the outcome of test `i`. */
  lemma {:induction false} TestsAt(img: ImageUInt8, c: int, offsetsA: seq<int>, offsetsB: seq<int>, m: int, i: int)
    requires 0 <= m <= |offsetsA| == |offsetsB|
    requires InRangeUpTo(img, c, offsetsA, offsetsB, m)
    requires 0 <= i < m
    ensures |Tests(img, c, offsetsA, offsetsB, m)| == m
    ensures Tests(img, c, offsetsA, offsetsB, m)[i] == PairTest(img, c, offsetsA, offsetsB, i)
    decreases m
  {
    var prev := Tests(img, c, offsetsA, offsetsB, m - 1);
    if i < m - 1 {
      TestsAt(img, c, offsetsA, offsetsB, m - 1, i);
      assert Tests(img, c, offsetsA, offsetsB, m) == prev + [PairTest(img, c, offsetsA, offsetsB, m - 1)];
    } else {
      TestsLength(img, c, offsetsA, offsetsB, m - 1);
    }
  }

  lemma {:induction false} TestsLength(img: ImageUInt8, c: int, offsetsA: seq<int>, offsetsB: seq<int>, m: int)
    requires 0 <= m <= |offsetsA| == |offsetsB|
    requires InRangeUpTo(img, c, offsetsA, offsetsB, m)
    ensures |Tests(img, c, offsetsA, offsetsB, m)| == m
    decreases m
  {
    if m > 0 {
      TestsLength(img, c, offsetsA, offsetsB, m - 1);
    }
  }

  /** Computes the descriptor of the point (cx, cy) into a descriptor of `|feature|` words.

      The previous contents of `feature` play no part: the words are cleared first. */
  method Process(img: ImageUInt8, cx: int, cy: int, offsetsA: seq<int>, offsetsB: seq<int>, feature: seq<bv32>)
    returns (r: Outcome)
    requires |offsetsA| == |offsetsB|
    ensures r.IndexOutOfBounds? <==>
      exists i :: 0 <= i < |offsetsA| && Faults(img, Center(img, cx, cy), offsetsA, offsetsB, |feature|, i)
    ensures r.Described? ==> InRangeUpTo(img, Center(img, cx, cy), offsetsA, offsetsB, |offsetsA|)
    ensures r.Described? ==> |r.desc| == |feature|
    ensures r.Described? ==>
      Packs(r.desc, Tests(img, Center(img, cx, cy), offsetsA, offsetsB, |offsetsA|))
  {
    var c := Center(img, cx, cy);
    var n := |offsetsA|;
    var desc := seq(|feature|, _ => 0 as bv32);
    PackEmpty(desc);
    var i := 0;
    while i < n
      invariant 0 <= i <= n
      invariant |desc| == |feature|
      invariant forall j :: 0 <= j < i ==> !Faults(img, c, offsetsA, offsetsB, |feature|, j)
      invariant InRangeUpTo(img, c, offsetsA, offsetsB, i)
      invariant Packs(desc, Tests(img, c, offsetsA, offsetsB, i))
    {
      ghost var bits := Tests(img, c, offsetsA, offsetsB, i);
      if !(0 <= c + offsetsA[i] < |img.data|) || !(0 <= c + offsetsB[i] < |img.data|) {
        assert Faults(img, c, offsetsA, offsetsB, |feature|, i);
        return IndexOutOfBounds;
      }
      var valA := Unsigned(img.data[c + offsetsA[i]]);
      var valB := Unsigned(img.data[c + offsetsB[i]]);
      assert InRangeUpTo(img, c, offsetsA, offsetsB, i + 1);
      assert Tests(img, c, offsetsA, offsetsB, i + 1) == bits + [valA < valB];
      if valA < valB {
        if |desc| <= i / 32 {
          assert Faults(img, c, offsetsA, offsetsB, |feature|, i);
          return IndexOutOfBounds;
        }
        TestsLength(img, c, offsetsA, offsetsB, i);
        WordBit(i);
        PackSet(desc, bits, i / 32, (i % 32) as bv5);
        desc := desc[i / 32 := desc[i / 32] | Mask((i % 32) as bv5)];
      } else {
        PackClear(desc, bits);
      }
      i := i + 1;
    }
    return Described(desc);
  }

  /** The descriptor is a function of the image, the point and the tests: two
      descriptors of the same size that both meet `Process`'s guarantee are
      equal, whatever the words held before. */
  lemma DescriptorDetermined(img: ImageUInt8, cx: int, cy: int, offsetsA: seq<int>, offsetsB: seq<int>, d1: seq<bv32>, d2: seq<bv32>)
    requires |offsetsA| == |offsetsB|
    requires InRangeUpTo(img, Center(img, cx, cy), offsetsA, offsetsB, |offsetsA|)
    requires |d1| == |d2|
    requires Packs(d1, Tests(img, Center(img, cx, cy), offsetsA, offsetsB, |offsetsA|))
    requires Packs(d2, Tests(img, Center(img, cx, cy), offsetsA, offsetsB, |offsetsA|))
    ensures d1 == d2
  {
    PackedUnique(d1, d2, Tests(img, Center(img, cx, cy), offsetsA, offsetsB, |offsetsA|));
  }

  /** Bit `i % 32` of word `i / 32` is set exactly when `i` is a test and test `i` holds. */
  lemma DescriptorBit(img: ImageUInt8, cx: int, cy: int, offsetsA: seq<int>, offsetsB: seq<int>, desc: seq<bv32>, i: int)
    requires |offsetsA| == |offsetsB|
    requires InRangeUpTo(img, Center(img, cx, cy), offsetsA, offsetsB, |offsetsA|)
    requires Packs(desc, Tests(img, Center(img, cx, cy), offsetsA, offsetsB, |offsetsA|))
    requires 0 <= i < 32 * |desc|
    ensures BitOf(desc[i / 32], (i % 32) as bv5) <==>
      (i < |offsetsA| && PairTest(img, Center(img, cx, cy), offsetsA, offsetsB, i))
  {
    var c := Center(img, cx, cy);
    var t := Tests(img, c, offsetsA, offsetsB, |offsetsA|);
    TestsLength(img, c, offsetsA, offsetsB, |offsetsA|);
    PackedBit(desc, t, i);
    if i < |offsetsA| {
      TestsAt(img, c, offsetsA, offsetsB, |offsetsA|, i);
    }
  }
}
