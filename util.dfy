/**
 * The mixing primitives of Util.java: little-endian reads from a byte
 * array, the folded 64x64-bit multiplication, `mix`, the low-times-high
 * product and the `avalanche` finaliser.
 */
module Util {
  import opened Words
  import opened Constants

  /**
   * `readLong`: the little-endian word stored at data[offset..offset+8],
   * written out byte by byte.
   */
  function ReadLong(data: seq<Byte>, offset: nat): Word
    requires offset + 8 <= |data|
  {
    data[offset] as int + 0x100 * (data[offset + 1] as int) + 0x1_0000 * (data[offset + 2] as int) + 0x100_0000 * (data[offset + 3] as int)
    + 0x1_0000_0000 * (data[offset + 4] as int) + 0x100_0000_0000 * (data[offset + 5] as int)
    + 0x1_0000_0000_0000 * (data[offset + 6] as int) + 0x100_0000_0000_0000 * (data[offset + 7] as int)
  }

  /** The word `readLong` returns is the little-endian value of its eight bytes. */
  lemma ReadLongLittleEndian(data: seq<Byte>, offset: nat)
    requires offset + 8 <= |data|
    ensures ReadLong(data, offset) == LittleEndian(data[offset..offset + 8])
  {
    var bytes := data[offset..offset + 8];
    LittleEndianFirst(bytes);
    LittleEndianFirst(bytes[1..]);
    LittleEndianFirst(bytes[2..]);
    LittleEndianFirst(bytes[3..]);
    LittleEndianFirst(bytes[4..]);
    LittleEndianFirst(bytes[5..]);
    LittleEndianFirst(bytes[6..]);
    LittleEndianFirst(bytes[7..]);
    assert bytes[8..] == [];
  }

  /** Byte k of the word `readLong` returns is the byte at offset + k. */
  lemma ReadLongBytes(data: seq<Byte>, offset: nat)
    requires offset + 8 <= |data|
    ensures forall k :: 0 <= k < 8 ==> ByteOf(ReadLong(data, offset), k) == data[offset + k]
    ensures ToBytes(ReadLong(data, offset)) == data[offset..offset + 8]
  {
    ReadLongLittleEndian(data, offset);
    ToBytesLittleEndian(data[offset..offset + 8]);
  }

  /** The unsigned value of the little-endian int at data[offset..offset+4]. */
  function ReadUnsigned32(data: seq<Byte>, offset: nat): (r: nat)
    requires offset + 4 <= |data|
    ensures r < TWO_32
  {
    data[offset] as int + 0x100 * (data[offset + 1] as int) + 0x1_0000 * (data[offset + 2] as int) + 0x100_0000 * (data[offset + 3] as int)
  }

  /** The four-byte value is the little-endian value of its four bytes. */
  lemma ReadUnsigned32LittleEndian(data: seq<Byte>, offset: nat)
    requires offset + 4 <= |data|
    ensures ReadUnsigned32(data, offset) == LittleEndian(data[offset..offset + 4])
  {
    var bytes := data[offset..offset + 4];
    LittleEndianFirst(bytes);
    LittleEndianFirst(bytes[1..]);
    LittleEndianFirst(bytes[2..]);
    LittleEndianFirst(bytes[3..]);
    assert bytes[4..] == [];
  }

  /** `readInt`: the signed 32-bit value of the little-endian int at `offset`. */
  function ReadInt(data: seq<Byte>, offset: nat): (i: int)
    requires offset + 4 <= |data|
    ensures -0x8000_0000 <= i < 0x8000_0000
  {
    var unsigned := ReadUnsigned32(data, offset);
    if unsigned < 0x8000_0000 then unsigned else unsigned - TWO_32
  }

  /** Java's widening of an `int` to a `long`: sign extension in two's complement. */
  function IntToLong(i: int): Word
    requires -0x8000_0000 <= i < 0x8000_0000
  {
    if i < 0 then i + WORD_MODULUS else i
  }

  /**
   * `readUnsignedInt`: the signed int read at `offset`, widened to a long and
   * masked with 0xFFFFFFFF. The mask undoes the sign extension, so the result
   * is the plain unsigned value of the four bytes.
   */
  function ReadUnsignedInt(data: seq<Byte>, offset: nat): (r: Word)
    requires offset + 4 <= |data|
    ensures r == ReadUnsigned32(data, offset)
  {
    var widened := IntToLong(ReadInt(data, offset));
    SignExtensionLow32(ReadUnsigned32(data, offset), widened);
    AndLow32(widened);
    And(widened, 0xFFFF_FFFF)
  }

  /** Sign extension to 64 bits leaves the low 32 bits as they were. */
  lemma SignExtensionLow32(unsigned: nat, widened: Word)
    requires unsigned < TWO_32
    requires widened == IntToLong(if unsigned < 0x8000_0000 then unsigned else unsigned - TWO_32)
    ensures widened % TWO_32 == unsigned
  {
    if unsigned < 0x8000_0000 {
      DivModSplit(unsigned, 0, TWO_32);
    } else {
      DivModSplit(unsigned, 0xFFFF_FFFF, TWO_32);
    }
  }

  /**
   * The `length` bytes of `a` from `offsetA` are the `length` bytes of `b`
   * from `offsetB`, stated byte by byte.
   */
  predicate SameBytes(a: seq<Byte>, offsetA: nat, b: seq<Byte>, offsetB: nat, length: nat)
  {
    && offsetA + length <= |a| && offsetB + length <= |b|
    && forall k :: offsetA <= k < offsetA + length ==> a[k] == b[k - offsetA + offsetB]
  }

  /** Equal windows hold the same bytes. */
  lemma SameBytesOfSlices(a: seq<Byte>, offsetA: nat, b: seq<Byte>, offsetB: nat, length: nat)
    requires offsetA + length <= |a| && offsetB + length <= |b|
    requires a[offsetA..offsetA + length] == b[offsetB..offsetB + length]
    ensures SameBytes(a, offsetA, b, offsetB, length)
  {
    forall k | offsetA <= k < offsetA + length
      ensures a[k] == b[k - offsetA + offsetB]
    {
      assert a[offsetA..offsetA + length][k - offsetA] == b[offsetB..offsetB + length][k - offsetA];
    }
  }

  /**
   * Two arrays that hold the same bytes in a window give the same word at the
   * same position inside that window: a read depends on its eight bytes only.
   */
  lemma ReadLongWindow(a: seq<Byte>, offsetA: nat, b: seq<Byte>, offsetB: nat, length: nat,
                       at: nat, posA: nat, posB: nat)
    requires SameBytes(a, offsetA, b, offsetB, length)
    requires at + 8 <= length && posA == offsetA + at && posB == offsetB + at
    ensures ReadLong(a, posA) == ReadLong(b, posB)
  {
    WindowByte(a, offsetA, b, offsetB, length, posA, posB);
    WindowByte(a, offsetA, b, offsetB, length, posA + 1, posB + 1);
    WindowByte(a, offsetA, b, offsetB, length, posA + 2, posB + 2);
    WindowByte(a, offsetA, b, offsetB, length, posA + 3, posB + 3);
    WindowByte(a, offsetA, b, offsetB, length, posA + 4, posB + 4);
    WindowByte(a, offsetA, b, offsetB, length, posA + 5, posB + 5);
    WindowByte(a, offsetA, b, offsetB, length, posA + 6, posB + 6);
    WindowByte(a, offsetA, b, offsetB, length, posA + 7, posB + 7);
  }

  /** The four-byte read depends on its four bytes only. */
  lemma ReadUnsignedIntWindow(a: seq<Byte>, offsetA: nat, b: seq<Byte>, offsetB: nat, length: nat,
                              at: nat, posA: nat, posB: nat)
    requires SameBytes(a, offsetA, b, offsetB, length)
    requires at + 4 <= length && posA == offsetA + at && posB == offsetB + at
    ensures ReadUnsignedInt(a, posA) == ReadUnsignedInt(b, posB)
  {
    WindowByte(a, offsetA, b, offsetB, length, posA, posB);
    WindowByte(a, offsetA, b, offsetB, length, posA + 1, posB + 1);
    WindowByte(a, offsetA, b, offsetB, length, posA + 2, posB + 2);
    WindowByte(a, offsetA, b, offsetB, length, posA + 3, posB + 3);
  }

  /** Equal windows hold equal bytes at corresponding positions. */
  lemma WindowByte(a: seq<Byte>, offsetA: nat, b: seq<Byte>, offsetB: nat, length: nat, posA: nat, posB: nat)
    requires SameBytes(a, offsetA, b, offsetB, length)
    requires offsetA <= posA < offsetA + length && posB == posA - offsetA + offsetB
    ensures a[posA] == b[posB]
  {
  }

  /** `Math.unsignedMultiplyHigh`: the upper 64 bits of the exact 128-bit product. */
  function UnsignedMultiplyHigh(a: Word, b: Word): Word
  {
    ProductBelow(a, b, WORD_MODULUS);
    (a * b) / WORD_MODULUS
  }

  /** If both factors are below `bound`, the product is below bound * bound. */
  lemma ProductBelow(a: nat, b: nat, bound: nat)
    requires a < bound && b < bound
    ensures a * b < bound * bound
    ensures (a * b) / bound < bound
  {
    var product := a * b;
    MulMonotone(a, b, bound);
    MulMonotone(bound, a, bound);
    assert a * bound == bound * a;
    QuotientBelow(product, bound);
  }

  /** Multiplying by a positive factor keeps a strict order. */
  lemma MulMonotone(a: nat, b: nat, c: nat)
    requires b < c
    ensures a * b <= a * c
    ensures a > 0 ==> a * b < a * c
  {
    assert a * c - a * b == a * (c - b);
  }

  /** A value below bound * bound divided by `bound` is below `bound`. */
  lemma QuotientBelow(x: nat, bound: nat)
    requires x < bound * bound
    ensures x / bound < bound
  {
  }

  /**
   * The wrapped product `a * b` and `Math.unsignedMultiplyHigh(a, b)` are the
   * low and the high half of the exact 128-bit product.
   */
  lemma ProductHalves(a: Word, b: Word)
    ensures a * b == UnsignedMultiplyHigh(a, b) * WORD_MODULUS + Mul(a, b)
    ensures a * b < WORD_MODULUS * WORD_MODULUS
  {
    ProductBelow(a, b, WORD_MODULUS);
  }

  /**
   * `multiplyAndFold`: the low half of the product xor-ed with its high half.
   */
  function MultiplyAndFold(low: Word, high: Word): Word
  {
    var resultLow := Mul(low, high);
    var resultHigh := UnsignedMultiplyHigh(low, high);
    Xor(resultLow, resultHigh)
  }

  /** The fold does not depend on the order of its two arguments. */
  lemma MultiplyAndFoldSymmetric(a: Word, b: Word)
    ensures MultiplyAndFold(a, b) == MultiplyAndFold(b, a)
  {
    assert a * b == b * a;
  }

  /** `mix`: fold the product of the two words, each keyed by its own secret word. */
  function Mix(a: Word, b: Word, secretA: Word, secretB: Word): Word
  {
    MultiplyAndFold(Xor(a, secretA), Xor(b, secretB))
  }

  /** Swapping the two words together with their secret words leaves `mix` unchanged. */
  lemma MixSymmetric(a: Word, b: Word, secretA: Word, secretB: Word)
    ensures Mix(a, b, secretA, secretB) == Mix(b, a, secretB, secretA)
  {
    MultiplyAndFoldSymmetric(Xor(a, secretA), Xor(b, secretB));
  }

  /**
   * `multiplyHighLow`: the low 32 bits of the word times its high 32 bits.
   * Both factors are below 2^32, so the 64-bit multiplication never wraps and
   * the result is the exact product.
   */
  function MultiplyHighLow(value: Word): Word
  {
    Mul(And(value, 0xFFFF_FFFF), Shr(value, 32))
  }

  /** The product of the two halves never wraps: it is the exact natural product. */
  lemma MultiplyHighLowExact(value: Word)
    ensures (value % TWO_32) * (value / TWO_32) < WORD_MODULUS
    ensures MultiplyHighLow(value) == (value % TWO_32) * (value / TWO_32)
  {
    var low, high := value % TWO_32, value / TWO_32;
    AndLow32(value);
    ShrBy32(value);
    ProductBelow(low, high, TWO_32);
    DivModSplit(low * high, 0, WORD_MODULUS);
    assert MultiplyHighLow(value) == Mul(low, high);
  }

  /** `avalanche`: xorshift by 37, multiply by PRIME_MX1, xorshift by 32. */
  function Avalanche(value: Word): Word
  {
    var shifted := Xor(value, Shr(value, 37));
    var multiplied := Mul(shifted, PRIME_MX1);
    Xor(multiplied, Shr(multiplied, 32))
  }

  /** The inverse of PRIME_MX1 modulo 2^64. */
  const PRIME_MX1_INVERSE: Word := 0x08DA_8EE4_1D6D_F849

  /** PRIME_MX1_INVERSE times PRIME_MX1 is 1 modulo 2^64. */
  lemma PrimeMx1Inverse()
    ensures (PRIME_MX1 * PRIME_MX1_INVERSE) % WORD_MODULUS == 1
  {
  }

  /**
   * `avalanche` run backwards: undo the xorshift by 32, multiply by the
   * inverse of PRIME_MX1, undo the xorshift by 37.
   */
  function Unavalanche(value: Word): Word
  {
    var unshifted := Xor(value, Shr(value, 32));
    var divided := Mul(unshifted, PRIME_MX1_INVERSE);
    Xor(divided, Shr(divided, 37))
  }

  /** `avalanche` loses nothing: Unavalanche recovers its argument. */
  lemma AvalancheInvertible(value: Word)
    ensures Unavalanche(Avalanche(value)) == value
  {
    var shifted := Xor(value, Shr(value, 37));
    var multiplied := Mul(shifted, PRIME_MX1);
    PrimeMx1Inverse();
    XorShiftInvolution(multiplied, 32);
    MulInverse(shifted, PRIME_MX1, PRIME_MX1_INVERSE);
    XorShiftInvolution(value, 37);
  }

  /** Distinct words avalanche to distinct words. */
  lemma AvalancheInjective(a: Word, b: Word)
    ensures Avalanche(a) == Avalanche(b) <==> a == b
  {
    AvalancheInvertible(a);
    AvalancheInvertible(b);
  }
}
