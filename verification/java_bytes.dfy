/** Java's signed `byte` as the storage of 8-bit pixel intensities.

    An unsigned 8-bit image keeps each intensity `0 .. 255` in a Java
    `byte`, whose values are `-128 .. 127`: storing is the narrowing cast
    `(byte) v`, and reading back is the widening `b & 0xFF`.  Both keep the
    low eight bits of the two's-complement pattern, i.e. the value modulo 256.
 */
module JavaBytes {

  newtype JByte = b: int | -128 <= b < 128

  /** Java's `b & 0xFF`: the byte widened to `int` with its sign bits masked off. */
  function Unsigned(b: JByte): (r: int)
    ensures 0 <= r < 256
    ensures (r - b as int) % 256 == 0
  {
    if b < 0 then b as int + 256 else b as int
  }

  /** Java's narrowing cast `(byte) v`: the low eight bits, read as a signed value. */
  function ToByte(v: int): (r: JByte)
    ensures (r as int - v) % 256 == 0
  {
    var low := v % 256;
    if low < 128 then low as JByte else (low - 256) as JByte
  }

  /** A stored intensity reads back unchanged. */
  lemma UnsignedToByte(v: int)
    requires 0 <= v < 256
    ensures Unsigned(ToByte(v)) == v
  {
  }

  /** Every byte is the storage of the intensity it reads back as. */
  lemma ToByteUnsigned(b: JByte)
    ensures ToByte(Unsigned(b)) == b
  {
  }

  /** Comparing read-back intensities compares the intensities that were stored. */
  lemma UnsignedOrder(u: int, v: int)
    requires 0 <= u < 256 && 0 <= v < 256
    ensures Unsigned(ToByte(u)) < Unsigned(ToByte(v)) <==> u < v
  {
    UnsignedToByte(u);
    UnsignedToByte(v);
  }

  /** Without the mask the signed bytes would order intensity 200 below intensity 100. */
  lemma SignedOrderDiffers()
    ensures ToByte(200) < ToByte(100)
    ensures Unsigned(ToByte(100)) < Unsigned(ToByte(200))
  {
  }
}
