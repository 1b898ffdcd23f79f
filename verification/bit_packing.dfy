/** A bit string packed into 32-bit words, lowest bit first.

    Bit `i` of the string lives in word `i / 32` at position `i % 32`, the
    layout of a binary descriptor whose words are filled by
    `data[i / 32] |= 1 << (i % 32)`.  `Packs(desc, bits)` says that the
    words hold exactly `bits` and are clear everywhere after it.
 */
module BitPacking {
  import opened Bits32

  /** The index in the bit string of bit `b` of word `k`. */
  function Position(k: int, b: bv5): int
  {
    32 * k + b as int
  }

  /** Every bit of every word is the corresponding bit of `bits`, or clear past its end. */
  ghost predicate Packs(desc: seq<bv32>, bits: seq<bool>)
  {
    forall k: int, b: bv5 {:trigger BitOf(desc[k], b)} :: 0 <= k < |desc| ==>
      (BitOf(desc[k], b) <==> (Position(k, b) < |bits| && bits[Position(k, b)]))
  }

  /** Word `i / 32` and position `i % 32` address string index `i`. */
  lemma WordBit(i: int)
    requires 0 <= i
    ensures 0 <= i % 32 < 32
    ensures Position(i / 32, (i % 32) as bv5) == i
  {
  }

  /** Distinct (word, position) pairs address distinct string indices. */
  lemma PositionInjective(k: int, b: bv5, k': int, b': bv5)
    ensures Position(k, b) == Position(k', b') <==> k == k' && b == b'
  {
  }

  /** Cleared words pack the empty string. */
  lemma PackEmpty(desc: seq<bv32>)
    requires forall k :: 0 <= k < |desc| ==> desc[k] == 0
    ensures Packs(desc, [])
  {
    forall k: int, b: bv5 | 0 <= k < |desc|
      ensures !BitOf(desc[k], b)
    {
      ZeroHasNoBits(b);
    }
  }

  /** A clear bit is appended by leaving the words as they are. */
  lemma PackClear(desc: seq<bv32>, bits: seq<bool>)
    requires Packs(desc, bits)
    ensures Packs(desc, bits + [false])
  {
    forall k: int, b: bv5 | 0 <= k < |desc|
      ensures BitOf(desc[k], b) <==> (Position(k, b) < |bits| + 1 && (bits + [false])[Position(k, b)])
    {
      assert BitOf(desc[k], b) <==> (Position(k, b) < |bits| && bits[Position(k, b)]);
    }
  }

  lemma PackSetAt(desc: seq<bv32>, bits: seq<bool>, k0: int, b0: bv5, k: int, b: bv5)
    requires 0 <= k0 < |desc| && Position(k0, b0) == |bits| && 0 <= k < |desc|
    requires BitOf(desc[k], b) <==> (Position(k, b) < |bits| && bits[Position(k, b)])
    ensures BitOf(desc[k0 := desc[k0] | Mask(b0)][k], b)
      <==> (Position(k, b) < |bits| + 1 && (bits + [true])[Position(k, b)])
  {
    var p := Position(k, b);
    PositionInjective(k, b, k0, b0);
    if k == k0 {
      BitOfSet(desc[k0], b0, b);
    }
    if p < |bits| {
      assert (bits + [true])[p] == bits[p];
    }
  }

  /** A set bit is appended by or-ing its mask into the word that holds it. */
  lemma PackSet(desc: seq<bv32>, bits: seq<bool>, k0: int, b0: bv5)
    requires Packs(desc, bits) && 0 <= k0 < |desc| && Position(k0, b0) == |bits|
    ensures Packs(desc[k0 := desc[k0] | Mask(b0)], bits + [true])
  {
    var d := desc[k0 := desc[k0] | Mask(b0)];
    forall k: int, b: bv5 | 0 <= k < |d|
      ensures BitOf(d[k], b) <==> (Position(k, b) < |bits| + 1 && (bits + [true])[Position(k, b)])
    {
      PackSetAt(desc, bits, k0, b0, k, b);
    }
  }

  /** Words of the same count that pack the same string are the same words. */
  lemma PackedUnique(d1: seq<bv32>, d2: seq<bv32>, bits: seq<bool>)
    requires |d1| == |d2| && Packs(d1, bits) && Packs(d2, bits)
    ensures d1 == d2
  {
    forall k | 0 <= k < |d1|
      ensures d1[k] == d2[k]
    {
      forall b: bv5
        ensures BitOf(d1[k], b) <==> BitOf(d2[k], b)
      {
        assert BitOf(d1[k], b) <==> (Position(k, b) < |bits| && bits[Position(k, b)]);
        assert BitOf(d2[k], b) <==> (Position(k, b) < |bits| && bits[Position(k, b)]);
      }
      assert SameBits(d1[k], d2[k]);
      SameBitsEqual(d1[k], d2[k]);
    }
  }

  /** Read back in the `i / 32`, `i % 32` form: bit `i` is set exactly when `bits[i]` is. */
  lemma PackedBit(desc: seq<bv32>, bits: seq<bool>, i: int)
    requires Packs(desc, bits) && 0 <= i < 32 * |desc|
    ensures BitOf(desc[i / 32], (i % 32) as bv5) <==> (i < |bits| && bits[i])
  {
    WordBit(i);
  }
}
