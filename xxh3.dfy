/**
 * Xxh3.java: the 64-bit XXH3 hash with the default secret and no seed.
 * `hash64` sorts the input by length into one of seven bands; the six short
 * bands are closed formulas over a few words read from the two ends of the
 * input, and inputs longer than 240 bytes go to the long-input engine.
 */
module Xxh3 {
  import opened Words
  import opened Constants
  import opened Util
  import LongHash
  import LongHashScalar
  import LongHashUnrolled
  import LongHashVector

  const SECRET_MIN_SIZE: nat := 136
  const MIDSIZE_LAST_OFFSET: nat := 17
  const MIDSIZE_STARTOFFSET: nat := 3

  // ---------------------------------------------------------------------
  // The length bands
  // ---------------------------------------------------------------------

  /** The seven branches of `hash64`. */
  datatype Band = Empty | OneToThree | FourToEight | NineToSixteen | UpTo128 | UpTo240 | Long

  /** The branch `hash64` takes for an input of `length` bytes. */
  function BandOf(length: nat): (band: Band)
    ensures band == Empty <==> length == 0
    ensures band == OneToThree <==> 1 <= length <= 3
    ensures band == FourToEight <==> 4 <= length <= 8
    ensures band == NineToSixteen <==> 9 <= length <= 16
    ensures band == UpTo128 <==> 17 <= length <= 128
    ensures band == UpTo240 <==> 129 <= length <= 240
    ensures band == Long <==> length > 240
  {
    if length == 0 then Empty
    else if length < 4 then OneToThree
    else if length <= 8 then FourToEight
    else if length <= 16 then NineToSixteen
    else if length <= 128 then UpTo128
    else if length <= 240 then UpTo240
    else Long
  }

  // ---------------------------------------------------------------------
  // Finalisers
  // ---------------------------------------------------------------------

  /** `xxh64Avalanche`: the XXH64 finaliser, three xorshifts and two multiplications. */
  function Xxh64Avalanche(value: Word): Word
  {
    var v1 := Xor(value, Shr(value, 33));
    var v2 := Mul(v1, PRIME64_2);
    var v3 := Xor(v2, Shr(v2, 29));
    var v4 := Mul(v3, PRIME64_3);
    Xor(v4, Shr(v4, 32))
  }

  /** The inverses of PRIME64_2, PRIME64_3 and PRIME_MX2 modulo 2^64. */
  const PRIME64_2_INVERSE: Word := 0x0BA7_9078_168D_4BAF
  const PRIME64_3_INVERSE: Word := 0xE9E9_F4C4_1D6D_F849
  const PRIME_MX2_INVERSE: Word := 0x02AB_9C72_0D10_24AD

  /** Each inverse times its prime is 1 modulo 2^64. */
  lemma InversesOfPrimes()
    ensures (PRIME64_2 * PRIME64_2_INVERSE) % WORD_MODULUS == 1
    ensures (PRIME64_3 * PRIME64_3_INVERSE) % WORD_MODULUS == 1
    ensures (PRIME_MX2 * PRIME_MX2_INVERSE) % WORD_MODULUS == 1
  {
  }

  /**
   * `xxh64Avalanche` run backwards: undo the xorshift by 32, multiply by the
   * inverse of PRIME64_3, undo the xorshift by 29 in two steps, multiply by
   * the inverse of PRIME64_2, undo the xorshift by 33.
   */
  function UnXxh64Avalanche(value: Word): Word
  {
    var v4 := Xor(value, Shr(value, 32));
    var v3 := Mul(v4, PRIME64_3_INVERSE);
    var v2 := UnXorShift(v3, 29);
    var v1 := Mul(v2, PRIME64_2_INVERSE);
    Xor(v1, Shr(v1, 33))
  }

  /** `xxh64Avalanche` loses nothing: UnXxh64Avalanche recovers its argument. */
  lemma Xxh64AvalancheInvertible(value: Word)
    ensures UnXxh64Avalanche(Xxh64Avalanche(value)) == value
  {
    InversesOfPrimes();
    var v1 := Xor(value, Shr(value, 33));
    var v2 := Mul(v1, PRIME64_2);
    var v3 := Xor(v2, Shr(v2, 29));
    var v4 := Mul(v3, PRIME64_3);
    var h := Xor(v4, Shr(v4, 32));
    assert Xxh64Avalanche(value) == h;
    var u4 := Xor(h, Shr(h, 32));
    assert u4 == v4 by { XorShiftInvolution(v4, 32); }
    var u3 := Mul(u4, PRIME64_3_INVERSE);
    assert u3 == v3 by { MulInverse(v3, PRIME64_3, PRIME64_3_INVERSE); }
    var u2 := UnXorShift(u3, 29);
    assert u2 == v2 by { XorShiftTwoStep(v2, 29); }
    var u1 := Mul(u2, PRIME64_2_INVERSE);
    assert u1 == v1 by { MulInverse(v1, PRIME64_2, PRIME64_2_INVERSE); }
    assert Xor(u1, Shr(u1, 33)) == value by { XorShiftInvolution(value, 33); }
    assert UnXxh64Avalanche(h) == Xor(u1, Shr(u1, 33));
  }

  /** Distinct words get distinct XXH64 finals. */
  lemma Xxh64AvalancheInjective(a: Word, b: Word)
    ensures Xxh64Avalanche(a) == Xxh64Avalanche(b) <==> a == b
  {
    Xxh64AvalancheInvertible(a);
    Xxh64AvalancheInvertible(b);
  }

  /** The first step of `strongAvalanche`: the value xor-ed with two of its rotations. */
  function RotateXor(value: Word): Word
  {
    Xor(value, Xor(RotateLeft(value, 49), RotateLeft(value, 24)))
  }

  /** `strongAvalanche`: the rrmxmx finaliser, with the length added into its middle xorshift. */
  function StrongAvalanche(value: Word, length: Word): Word
  {
    var v1 := RotateXor(value);
    var v2 := Mul(v1, PRIME_MX2);
    var v3 := Xor(v2, Add(Shr(v2, 35), length));
    var v4 := Mul(v3, PRIME_MX2);
    Xor(v4, Shr(v4, 28))
  }

  /**
   * `strongAvalanche` run backwards down to its rotate-xor step: undo the
   * xorshift by 28 in two steps, multiply by the inverse of PRIME_MX2, undo
   * the length step, multiply by the inverse of PRIME_MX2 again.
   */
  function UnStrongAvalanche(value: Word, length: Word): Word
  {
    var v4 := UnXorShift(value, 28);
    var v3 := Mul(v4, PRIME_MX2_INVERSE);
    var v2 := Xor(v3, Add(Shr(v3, 35), length));
    Mul(v2, PRIME_MX2_INVERSE)
  }

  /**
   * The middle step `v ^ ((v >>> 35) + length)` undoes itself for a
   * non-negative int length: the sum stays below 2^35, so the bits from 35
   * up, and with them the sum, come out unchanged.
   */
  lemma LengthStepInvolution(v: Word, length: Word)
    requires length < 0x8000_0000
    ensures var w := Xor(v, Add(Shr(v, 35), length)); Xor(w, Add(Shr(w, 35), length)) == v
  {
    var high := Shr(v, 35);
    ShrBelow(v, 35);
    LengthStepBound(high, length);
    var m := Add(high, length);
    ShrSmall(m, 35);
    ShrXor(v, m, 35);
    XorZero(high);
    XorTwice(v, m);
  }

  /** The top 29 bits plus a non-negative int stay below 2^35, without wrapping. */
  lemma LengthStepBound(high: Word, length: Word)
    requires high < Pow2(29) && length < 0x8000_0000
    ensures Add(high, length) == high + length < Pow2(35)
  {
    Pow2Half();
    Pow2Add(29, 3);
    Pow2Add(32, 3);
    assert Pow2(3) == 8;
  }

  /**
   * `strongAvalanche` loses nothing after its first step: from the result
   * and the length, UnStrongAvalanche recovers the rotate-xor of the value.
   */
  lemma StrongAvalancheUnwinds(value: Word, length: Word)
    requires length < 0x8000_0000
    ensures UnStrongAvalanche(StrongAvalanche(value, length), length) == RotateXor(value)
  {
    var v1 := RotateXor(value);
    var v2 := Mul(v1, PRIME_MX2);
    var v3 := Xor(v2, Add(Shr(v2, 35), length));
    var v4 := Mul(v3, PRIME_MX2);
    InversesOfPrimes();
    assert StrongAvalanche(value, length) == Xor(v4, Shr(v4, 28));
    var u4 := UnXorShift(Xor(v4, Shr(v4, 28)), 28);
    assert u4 == v4 by { XorShiftTwoStep(v4, 28); }
    var u3 := Mul(u4, PRIME_MX2_INVERSE);
    assert u3 == v3 by { MulInverse(v3, PRIME_MX2, PRIME_MX2_INVERSE); }
    var u2 := Xor(u3, Add(Shr(u3, 35), length));
    assert u2 == v2 by { LengthStepInvolution(v2, length); }
    assert Mul(u2, PRIME_MX2_INVERSE) == v1 by { MulInverse(v1, PRIME_MX2, PRIME_MX2_INVERSE); }
  }

  /** For one length, two values collide in `strongAvalanche` exactly when their rotate-xors are equal. */
  lemma StrongAvalancheCollisions(a: Word, b: Word, length: Word)
    requires length < 0x8000_0000
    ensures StrongAvalanche(a, length) == StrongAvalanche(b, length) <==> RotateXor(a) == RotateXor(b)
  {
    StrongAvalancheUnwinds(a, length);
    StrongAvalancheUnwinds(b, length);
  }

  // ---------------------------------------------------------------------
  // The short bands
  // ---------------------------------------------------------------------

  /** The empty input: the finaliser applied to two secret words. */
  function HashEmpty(): Word
  {
    Xxh64Avalanche(Xor(ReadLong(SECRET, 56), ReadLong(SECRET, 64)))
  }

  /**
   * The word `hash1to3` packs: the first byte, the middle byte, the last
   * byte and the length. Bytes are unsigned here, so Java's `& 0xFF` has
   * nothing left to do.
   */
  function Combine1To3(c1: Byte, c2: Byte, c3: Byte, length: nat): Word
    requires length < 256
  {
    Or(Or(Or(Shl(c1, 16), Shl(c2, 24)), c3), Shl(length, 8))
  }

  /**
   * The packed word of `hash1to3` has c3 in bits 0-7, the length in bits
   * 8-15, c1 in bits 16-23 and c2 in bits 24-31: no two fields overlap, so
   * the or-ed word is their sum and stays below 2^32.
   */
  lemma Combine1To3Fields(c1: Byte, c2: Byte, c3: Byte, length: nat)
    requires length < 256
    ensures Combine1To3(c1, c2, c3, length) == c3 + 0x100 * length + 0x1_0000 * c1 + 0x100_0000 * c2
    ensures Combine1To3(c1, c2, c3, length) < TWO_32
    ensures Combine1To3(c1, c2, c3, length) % 0x100 == c3
    ensures Combine1To3(c1, c2, c3, length) / 0x100 % 0x100 == length
    ensures Combine1To3(c1, c2, c3, length) / 0x1_0000 % 0x100 == c1
    ensures Combine1To3(c1, c2, c3, length) / 0x100_0000 == c2
  {
    var high := 0x1_0000 * c1 + 0x100_0000 * c2;
    PackHigh(c1, c2, high);
    var middle := c3 + high;
    PackLow(c1, c2, c3, high, middle);
    PackLength(c1, c2, c3, middle, length);
    PackedBytes(c1, c2, c3, length, Combine1To3(c1, c2, c3, length));
  }

  /** The four bytes of the packed sum are its four fields. */
  lemma PackedBytes(c1: Byte, c2: Byte, c3: Byte, length: nat, combined: nat)
    requires length < 256 && combined == c3 + 0x100 * length + 0x1_0000 * c1 + 0x100_0000 * c2
    ensures combined < TWO_32
    ensures combined % 0x100 == c3 && combined / 0x100 % 0x100 == length
    ensures combined / 0x1_0000 % 0x100 == c1 && combined / 0x100_0000 == c2
  {
    var above := length + 0x100 * c1 + 0x1_0000 * c2;
    DivModSplit(c3, above, 0x100);
    DivModSplit(length, c1 + 0x100 * c2, 0x100);
    var low := c3 + 0x100 * length;
    DivModSplit(low, c1 + 0x100 * c2, 0x1_0000);
    DivModSplit(c1, c2, 0x100);
    DivModSplit(low + 0x1_0000 * c1, c2, 0x100_0000);
  }

  lemma Pow2Sixteen()
    ensures Pow2(16) == 0x1_0000
  {
    Pow2Byte();
    Pow2Double(8, 16);
  }

  lemma Pow2TwentyFour()
    ensures Pow2(24) == 0x100_0000
  {
    Pow2Sixteen();
    Pow2Add(8, 16);
  }

  /** `(c1 << 16) | (c2 << 24)`: the two shifted bytes do not overlap. */
  lemma PackHigh(c1: Byte, c2: Byte, high: nat)
    requires high == 0x1_0000 * c1 + 0x100_0000 * c2
    ensures high < TWO_32 && Or(Shl(c1, 16), Shl(c2, 24)) == high
  {
    ShiftBytes(c1, c2);
    Pow2TwentyFour();
    var low := 0x1_0000 * c1;
    OrShifted(low, c2, 24, 0x100_0000);
  }

  lemma ShiftBytes(c1: Byte, c2: Byte)
    ensures Shl(c1, 16) == 0x1_0000 * c1 && Shl(c2, 24) == 0x100_0000 * c2
  {
    Pow2TwentyFour();
    ShlExact(c1, 16, 0x1_0000);
    ShlExact(c2, 24, 0x100_0000);
  }

  /** `high | c3`: the low byte is free in `high`. */
  lemma PackLow(c1: Byte, c2: Byte, c3: Byte, high: Word, middle: nat)
    requires high == 0x1_0000 * c1 + 0x100_0000 * c2 && middle == c3 + high
    ensures Or(high, c3) == middle
  {
    Pow2Byte();
    var upper := 0x100 * c1 + 0x1_0000 * c2;
    OrShifted(c3, upper, 8, 0x100);
    BitwiseSymmetric(OrBit, high, c3, 64);
  }

  /** `middle | (length << 8)`: the second byte is free in `middle`. */
  lemma PackLength(c1: Byte, c2: Byte, c3: Byte, middle: Word, length: nat)
    requires length < 256 && middle == c3 + 0x1_0000 * c1 + 0x100_0000 * c2
    ensures Or(middle, Shl(length, 8)) == c3 + 0x100 * length + 0x1_0000 * c1 + 0x100_0000 * c2
  {
    Pow2Sixteen();
    ShlExact(length, 8, 0x100);
    var upper := c1 + 0x100 * c2;
    var shifted := 0x100 * length;
    OrLow(c3, shifted, upper, 16, 0x1_0000, middle);
    OrDisjoint(c3, length, 8, 16, 0x100);
  }

  /** `hash1to3`. */
  function Hash1To3(input: seq<Byte>, offset: nat, length: nat): Word
    requires LongHash.Window(input, offset, length) && 1 <= length <= 3
  {
    var c1 := input[offset];
    var c2 := input[offset + Shr(length, 1)];
    var c3 := input[offset + (length - 1)];
    var combined := Combine1To3(c1, c2, c3, length);
    Xxh64Avalanche(Xor(Xor(combined, ReadUnsignedInt(SECRET, 0)), ReadUnsignedInt(SECRET, 4)))
  }

  /** The word `hash4to8` builds from the first and the last four bytes. */
  function Value4To8(input: seq<Byte>, offset: nat, length: nat): Word
    requires LongHash.Window(input, offset, length) && 4 <= length <= 8
  {
    Add(ReadUnsignedInt(input, offset + length - 4), Shl(ReadUnsignedInt(input, offset), 32))
  }

  /** `hash4to8`. */
  function Hash4To8(input: seq<Byte>, offset: nat, length: nat): Word
    requires LongHash.Window(input, offset, length) && 4 <= length <= 8
  {
    var value := Value4To8(input, offset, length);
    StrongAvalanche(Xor(Xor(value, ReadLong(SECRET, 8)), ReadLong(SECRET, 16)), length)
  }

  /**
   * The sum in `hash4to8` never carries: the high 32 bits of the word are
   * the first four bytes and the low 32 bits are the last four.
   */
  lemma Value4To8Halves(input: seq<Byte>, offset: nat, length: nat)
    requires LongHash.Window(input, offset, length) && 4 <= length <= 8
    ensures Value4To8(input, offset, length) == ReadUnsigned32(input, offset + length - 4) + TWO_32 * ReadUnsigned32(input, offset)
    ensures Value4To8(input, offset, length) / TWO_32 == ReadUnsigned32(input, offset)
    ensures Value4To8(input, offset, length) % TWO_32 == ReadUnsigned32(input, offset + length - 4)
  {
    var first := ReadUnsigned32(input, offset);
    var last := ReadUnsigned32(input, offset + length - 4);
    NoCarry(last, first, Value4To8(input, offset, length));
    DivModSplit(last, first, TWO_32);
  }

  /** Adding a 32-bit value to another one shifted left by 32 places them side by side. */
  lemma NoCarry(low: Word, high: Word, value: Word)
    requires low < TWO_32 && high < TWO_32 && value == Add(low, Shl(high, 32))
    ensures value == low + TWO_32 * high
  {
    var shifted := Shl(high, 32);
    ShiftHalf(high, shifted);
    AddExact(low, shifted, low + shifted);
  }

  lemma ShiftHalf(high: Word, shifted: Word)
    requires high < TWO_32 && shifted == Shl(high, 32)
    ensures shifted == TWO_32 * high && shifted <= WORD_MODULUS - TWO_32
  {
    Pow2Half();
    HalfWordProduct(high);
    ShlExact(high, 32, TWO_32);
  }

  /** A 32-bit value times 2^32 still fits in a word. */
  lemma HalfWordProduct(high: nat)
    requires high < TWO_32
    ensures high * TWO_32 < WORD_MODULUS && TWO_32 * high <= WORD_MODULUS - TWO_32
  {
  }

  /** `hash9to16`: the first and the last word, each keyed, folded together. */
  function Hash9To16(input: seq<Byte>, offset: nat, length: nat): Word
    requires LongHash.Window(input, offset, length) && 9 <= length <= 16
  {
    var low := Xor(ReadLong(input, offset), Xor(ReadLong(SECRET, 24), ReadLong(SECRET, 32)));
    var high := Xor(ReadLong(input, offset + length - 8), Xor(ReadLong(SECRET, 40), ReadLong(SECRET, 48)));
    Avalanche(Add(Add(Add(length, ReverseBytes(low)), high), MultiplyAndFold(low, high)))
  }

  // ---------------------------------------------------------------------
  // 17 to 128 bytes
  // ---------------------------------------------------------------------

  /** The number of word-pair rounds for 17 to 128 bytes: one, plus one per 32 bytes beyond 32. */
  function MidRounds(length: nat): (rounds: nat)
    requires 17 <= length <= 128
    ensures 1 <= rounds <= 4 && 16 * rounds <= length && 32 * rounds <= 128
  {
    1 + (if length > 32 then 1 else 0) + (if length > 64 then 1 else 0) + (if length > 96 then 1 else 0)
  }

  /**
   * The nested length tests make as many rounds as the loop form, which
   * counts down from (length - 1) / 32 to zero.
   */
  lemma MidRoundsCount(length: nat)
    requires 17 <= length <= 128
    ensures MidRounds(length) == (length - 1) / 32 + 1
  {
  }

  /**
   * `mix` of the two words at `position`, keyed with the two secret words at
   * `secretOffset`: the step every round of the two middle bands adds.
   */
  function MixPair(input: seq<Byte>, position: nat, secretOffset: nat): Word
    requires position + 16 <= |input| && secretOffset + 16 <= SECRET_LENGTH
  {
    Mix(ReadLong(input, position), ReadLong(input, position + 8), ReadLong(SECRET, secretOffset), ReadLong(SECRET, secretOffset + 8))
  }

  /**
   * The accumulator after the first `rounds` rounds. Round k adds the pair
   * 16k bytes from the front, keyed with the secret from 32k, and then the
   * pair ending 16k bytes from the back, keyed with the secret from 32k + 16.
   */
  function MidSum(input: seq<Byte>, offset: nat, length: nat, rounds: nat): Word
    requires LongHash.Window(input, offset, length) && 17 <= length <= 128 && rounds <= MidRounds(length)
  {
    if rounds == 0 then Mul(length, PRIME64_1)
    else
      var k := rounds - 1;
      var front := MixPair(input, offset + 16 * k, 32 * k);
      var back := MixPair(input, offset + length - 16 * k - 16, 32 * k + 16);
      Add(Add(MidSum(input, offset, length, k), front), back)
  }

  /** The closed form of `hash17to128`, as the source states it beside the cursor code. */
  function Mid17To128(input: seq<Byte>, offset: nat, length: nat): Word
    requires LongHash.Window(input, offset, length) && 17 <= length <= 128
  {
    Avalanche(MidSum(input, offset, length, MidRounds(length)))
  }

  /**
   * `hash17to128` as the source runs it: a forward cursor reads word pairs
   * from the front, a backward cursor from the back, one round per nested
   * length test. The result is the closed form.
   */
  method Hash17To128(input: seq<Byte>, offset: nat, length: nat) returns (h: Word)
    requires LongHash.Window(input, offset, length) && 17 <= length <= 128
    ensures h == Mid17To128(input, offset, length)
  {
    var accumulator := Mul(length, PRIME64_1);
    var forward: int := offset;
    var backward: int := offset + length - 8;

    forward, backward, accumulator := CursorRound(input, offset, length, 0, forward, backward, accumulator);
    ghost var rounds := 1;
    if length > 32 {
      forward, backward, accumulator := CursorRound(input, offset, length, 1, forward, backward, accumulator);
      rounds := 2;
      if length > 64 {
        forward, backward, accumulator := CursorRound(input, offset, length, 2, forward, backward, accumulator);
        rounds := 3;
        if length > 96 {
          forward, backward, accumulator := CursorRound(input, offset, length, 3, forward, backward, accumulator);
          rounds := 4;
        }
      }
    }
    assert rounds == MidRounds(length);
    assert accumulator == MidSum(input, offset, length, rounds);
    h := Avalanche(accumulator);
  }

  /**
   * The statements each level of `hash17to128` repeats: two words read at
   * the forward cursor, two read backwards at the backward cursor, and two
   * `mix` additions keyed with the secret from 32k. Both cursors move by 16
   * bytes, and the accumulator goes from k rounds of the closed form to k + 1.
   */
  method CursorRound(input: seq<Byte>, offset: nat, length: nat, k: nat, forward: int, backward: int, accumulator: Word)
    returns (forward': int, backward': int, accumulator': Word)
    requires LongHash.Window(input, offset, length) && 17 <= length <= 128 && k < MidRounds(length)
    requires forward == offset + 16 * k && backward == offset + length - 16 * k - 8
    requires accumulator == MidSum(input, offset, length, k)
    ensures forward' == forward + 16 && backward' == backward - 16
    ensures accumulator' == MidSum(input, offset, length, k + 1)
  {
    forward' := forward;
    backward' := backward;

    var first := ReadLong(input, forward');
    forward' := forward' + 8;
    var second := ReadLong(input, forward');
    forward' := forward' + 8;

    var second2 := ReadLong(input, backward');
    backward' := backward' - 8;
    var first2 := ReadLong(input, backward');
    backward' := backward' - 8;

    ghost var front := offset + 16 * k;
    ghost var back := offset + length - 16 * k - 16;
    assert front == forward && back == backward' + 8 && back + 8 == backward;
    var secretOffset := 32 * k;
    accumulator' := Add(accumulator, Mix(first, second, ReadLong(SECRET, secretOffset), ReadLong(SECRET, secretOffset + 8)));
    accumulator' := Add(accumulator', Mix(first2, second2, ReadLong(SECRET, secretOffset + 16), ReadLong(SECRET, secretOffset + 24)));
  }

  // ---------------------------------------------------------------------
  // 129 to 240 bytes
  // ---------------------------------------------------------------------

  /** The number of 16-byte rounds of a 129 to 240 byte input. */
  function MidsizeRounds(length: nat): (rounds: nat)
    requires 129 <= length <= 240
    ensures 8 <= rounds <= 15 && 16 * rounds <= length < 16 * rounds + 16
    ensures 16 * 8 <= SECRET_MIN_SIZE
    ensures 16 * (rounds - 8) + MIDSIZE_STARTOFFSET <= SECRET_MIN_SIZE
    ensures SECRET_MIN_SIZE - MIDSIZE_LAST_OFFSET + 16 <= SECRET_MIN_SIZE <= SECRET_LENGTH
  {
    length / 16
  }

  /** The first loop after `rounds` of its eight rounds, round i keyed with the secret from 16i. */
  function MidsizeHead(input: seq<Byte>, offset: nat, length: nat, rounds: nat): Word
    requires LongHash.Window(input, offset, length) && 129 <= length <= 240 && rounds <= 8
  {
    if rounds == 0 then Mul(length, PRIME64_1)
    else
      var i := rounds - 1;
      Add(MidsizeHead(input, offset, length, i), MixPair(input, offset + 16 * i, 16 * i))
  }

  /** The last sixteen bytes, keyed with the secret from SECRET_MIN_SIZE - MIDSIZE_LAST_OFFSET. */
  function MidsizeLast(input: seq<Byte>, offset: nat, length: nat): Word
    requires LongHash.Window(input, offset, length) && 129 <= length <= 240
  {
    MixPair(input, offset + length - 16, SECRET_MIN_SIZE - MIDSIZE_LAST_OFFSET)
  }

  /**
   * The second loop after its rounds 8 to `rounds` - 1, starting from
   * `start`; round i is keyed with the secret from 16(i - 8) + MIDSIZE_STARTOFFSET.
   */
  function MidsizeTail(input: seq<Byte>, offset: nat, length: nat, start: Word, rounds: nat): Word
    requires LongHash.Window(input, offset, length) && 129 <= length <= 240 && 8 <= rounds && 16 * rounds <= length
    decreases rounds
  {
    if rounds == 8 then start
    else
      var i := rounds - 1;
      Add(MidsizeTail(input, offset, length, start, i), MixPair(input, offset + 16 * i, 16 * (i - 8) + MIDSIZE_STARTOFFSET))
  }

  /** `hash129to240`: the avalanched first loop plus the second loop, avalanched again. */
  function Mid129To240(input: seq<Byte>, offset: nat, length: nat): Word
    requires LongHash.Window(input, offset, length) && 129 <= length <= 240
  {
    var last := MidsizeLast(input, offset, length);
    Avalanche(Add(Avalanche(MidsizeHead(input, offset, length, 8)), MidsizeTail(input, offset, length, last, MidsizeRounds(length))))
  }

  /**
   * `hash129to240` as the source runs it: eight rounds over the first 128
   * bytes, avalanched; then the last sixteen bytes and the rounds from 8 up
   * to length / 16; the sum of the two, avalanched. Each loop is its own
   * method below.
   */
  method Hash129To240(input: seq<Byte>, offset: nat, length: nat) returns (h: Word)
    requires LongHash.Window(input, offset, length) && 129 <= length <= 240
    ensures h == Mid129To240(input, offset, length)
  {
    var accumulator := HeadRounds(input, offset, length);
    accumulator := Avalanche(accumulator);
    var end := Mix(
        ReadLong(input, offset + length - 16),
        ReadLong(input, offset + length - 8),
        ReadLong(SECRET, SECRET_MIN_SIZE - MIDSIZE_LAST_OFFSET),
        ReadLong(SECRET, SECRET_MIN_SIZE - MIDSIZE_LAST_OFFSET + 8));
    var rounds := length / 16;
    assert rounds == MidsizeRounds(length);
    end := TailRounds(input, offset, length, rounds, end);
    h := Avalanche(Add(accumulator, end));
  }

  /** The first loop of `hash129to240`: rounds 0 to 7, round i keyed with the secret from 16i. */
  method HeadRounds(input: seq<Byte>, offset: nat, length: nat) returns (accumulator: Word)
    requires LongHash.Window(input, offset, length) && 129 <= length <= 240
    ensures accumulator == MidsizeHead(input, offset, length, 8)
  {
    accumulator := Mul(length, PRIME64_1);
    for i := 0 to 8
      invariant accumulator == MidsizeHead(input, offset, length, i)
    {
      accumulator := MixRound(input, offset + 16 * i, 16 * i, accumulator);
    }
  }

  /**
   * The second loop of `hash129to240`: starting from the mix of the last
   * sixteen bytes, rounds 8 to `rounds` - 1, round i keyed with the secret
   * from 16(i - 8) + 3.
   */
  method TailRounds(input: seq<Byte>, offset: nat, length: nat, rounds: nat, last: Word) returns (end: Word)
    requires LongHash.Window(input, offset, length) && 129 <= length <= 240
    requires 8 <= rounds && 16 * rounds <= length && last == MidsizeLast(input, offset, length)
    ensures end == MidsizeTail(input, offset, length, last, rounds)
  {
    end := last;
    for i := 8 to rounds
      invariant end == MidsizeTail(input, offset, length, last, i)
    {
      end := MixRound(input, offset + 16 * i, 16 * (i - 8) + MIDSIZE_STARTOFFSET, end);
    }
  }

  /** The body of both loops: the two words at `position`, mixed with the secret words at `secretOffset`, added in. */
  method MixRound(input: seq<Byte>, position: nat, secretOffset: nat, accumulator: Word) returns (next: Word)
    requires position + 16 <= |input| && secretOffset + 16 <= SECRET_LENGTH
    ensures next == Add(accumulator, MixPair(input, position, secretOffset))
  {
    next := Add(accumulator, Mix(
        ReadLong(input, position),
        ReadLong(input, position + 8),
        ReadLong(SECRET, secretOffset),
        ReadLong(SECRET, secretOffset + 8)));
  }

  // ---------------------------------------------------------------------
  // The dispatcher
  // ---------------------------------------------------------------------

  /**
   * `hash64`: the hash of input[offset..offset+length], by its length band.
   * An empty input reads nothing, so any offset is accepted for it.
   */
  function Hash64(input: seq<Byte>, offset: nat, length: nat): Word
    requires length == 0 || LongHash.Window(input, offset, length)
  {
    match BandOf(length)
    case Empty => HashEmpty()
    case OneToThree => Hash1To3(input, offset, length)
    case FourToEight => Hash4To8(input, offset, length)
    case NineToSixteen => Hash9To16(input, offset, length)
    case UpTo128 => Mid17To128(input, offset, length)
    case UpTo240 => Mid129To240(input, offset, length)
    case Long => LongHash.Digest(input, offset, length)
  }

  /**
   * The long-input engine behind HASH_LONG: the scalar loop, the unrolled
   * one, or the vector one whose preferred species holds `lanes` longs.
   * Which class is loaded is decided outside this model, so it is a parameter.
   */
  datatype Engine = Scalar | Unrolled | Vector(lanes: nat)

  /** The engines the model covers: a vector engine's species is 128, 256 or 512 bits wide. */
  predicate Supported(engine: Engine)
  {
    engine.Vector? ==> LongHashVector.Species(engine.lanes)
  }

  /**
   * `hash64` as the code runs it: the length tests in order, each band's own
   * routine, the cursor and loop methods for 17 to 240 bytes, and the chosen
   * engine beyond. Whatever the engine, the result is Hash64.
   */
  method ComputeHash64(input: seq<Byte>, offset: nat, length: nat, engine: Engine) returns (h: Word)
    requires (length == 0 || LongHash.Window(input, offset, length)) && Supported(engine)
    ensures h == Hash64(input, offset, length)
  {
    if length == 0 {
      h := HashEmpty();
    } else if length < 4 {
      h := Hash1To3(input, offset, length);
    } else if length <= 8 {
      h := Hash4To8(input, offset, length);
    } else if length <= 16 {
      h := Hash9To16(input, offset, length);
    } else if length <= 128 {
      h := Hash17To128(input, offset, length);
    } else if length <= 240 {
      h := Hash129To240(input, offset, length);
    } else {
      match engine
      case Scalar =>
        h := LongHashScalar.Hash(input, offset, length);
      case Unrolled =>
        h := LongHashUnrolled.Hash(input, offset, length);
      case Vector(lanes) =>
        h := LongHashVector.Hash(input, offset, length, lanes);
    }
  }
}
