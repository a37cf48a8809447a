/**
 * What `hash64` reads: every band depends only on the `length` bytes from
 * `offset`, so the hash of a window is the hash of that window copied into
 * an array of its own, and the empty input hashes to one fixed word.
 */
module Xxh3Window {
  import opened Words
  import opened Constants
  import opened Util
  import LongHash
  import opened Xxh3

  /** The hash of a window depends on the bytes of the window only. */
  lemma Hash64Window(a: seq<Byte>, offsetA: nat, b: seq<Byte>, offsetB: nat, length: nat)
    requires LongHash.Window(a, offsetA, length) && LongHash.Window(b, offsetB, length)
    requires a[offsetA..offsetA + length] == b[offsetB..offsetB + length]
    ensures Hash64(a, offsetA, length) == Hash64(b, offsetB, length)
  {
    SameBytesOfSlices(a, offsetA, b, offsetB, length);
    match BandOf(length)
    case Empty =>
    case OneToThree => Hash1To3Window(a, offsetA, b, offsetB, length);
    case FourToEight => Hash4To8Window(a, offsetA, b, offsetB, length);
    case NineToSixteen => Hash9To16Window(a, offsetA, b, offsetB, length);
    case UpTo128 => Mid17To128Window(a, offsetA, b, offsetB, length);
    case UpTo240 => Mid129To240Window(a, offsetA, b, offsetB, length);
    case Long => LongHash.DigestWindow(a, offsetA, b, offsetB, length);
  }

  /** Offset invariance: hashing a window in place equals hashing a copy of it from offset 0. */
  lemma Hash64OfCopy(input: seq<Byte>, offset: nat, length: nat)
    requires LongHash.Window(input, offset, length)
    ensures Hash64(input, offset, length) == Hash64(input[offset..offset + length], 0, length)
  {
    var copy := input[offset..offset + length];
    assert copy[0..length] == copy;
    Hash64Window(input, offset, copy, 0, length);
  }

  /** The empty input hashes to the same word whatever the array and the offset, in range or not. */
  lemma Hash64Empty(a: seq<Byte>, offsetA: nat, b: seq<Byte>, offsetB: nat)
    ensures Hash64(a, offsetA, 0) == Hash64(b, offsetB, 0) == HashEmpty()
  {
  }

  /** `hash1to3` reads the first, the middle and the last byte of the window. */
  lemma Hash1To3Window(a: seq<Byte>, offsetA: nat, b: seq<Byte>, offsetB: nat, length: nat)
    requires SameBytes(a, offsetA, b, offsetB, length) && |a| <= MAX_ARRAY_LENGTH && |b| <= MAX_ARRAY_LENGTH && 1 <= length <= 3
    ensures Hash1To3(a, offsetA, length) == Hash1To3(b, offsetB, length)
  {
    var middle := Shr(length, 1);
    WindowByte(a, offsetA, b, offsetB, length, offsetA, offsetB);
    WindowByte(a, offsetA, b, offsetB, length, offsetA + middle, offsetB + middle);
    WindowByte(a, offsetA, b, offsetB, length, offsetA + (length - 1), offsetB + (length - 1));
  }

  /** `hash4to8` reads the first and the last four bytes of the window. */
  lemma Hash4To8Window(a: seq<Byte>, offsetA: nat, b: seq<Byte>, offsetB: nat, length: nat)
    requires SameBytes(a, offsetA, b, offsetB, length) && |a| <= MAX_ARRAY_LENGTH && |b| <= MAX_ARRAY_LENGTH && 4 <= length <= 8
    ensures Hash4To8(a, offsetA, length) == Hash4To8(b, offsetB, length)
  {
    ReadUnsignedIntWindow(a, offsetA, b, offsetB, length, 0, offsetA, offsetB);
    ReadUnsignedIntWindow(a, offsetA, b, offsetB, length, length - 4, offsetA + length - 4, offsetB + length - 4);
  }

  /** `hash9to16` reads the first and the last word of the window. */
  lemma Hash9To16Window(a: seq<Byte>, offsetA: nat, b: seq<Byte>, offsetB: nat, length: nat)
    requires SameBytes(a, offsetA, b, offsetB, length) && |a| <= MAX_ARRAY_LENGTH && |b| <= MAX_ARRAY_LENGTH && 9 <= length <= 16
    ensures Hash9To16(a, offsetA, length) == Hash9To16(b, offsetB, length)
  {
    ReadLongWindow(a, offsetA, b, offsetB, length, 0, offsetA, offsetB);
    ReadLongWindow(a, offsetA, b, offsetB, length, length - 8, offsetA + length - 8, offsetB + length - 8);
  }

  /** A word pair inside the window is mixed alike in both arrays. */
  lemma MixPairWindow(a: seq<Byte>, offsetA: nat, b: seq<Byte>, offsetB: nat, length: nat,
                      at: nat, posA: nat, posB: nat, secretOffset: nat)
    requires SameBytes(a, offsetA, b, offsetB, length)
    requires at + 16 <= length && posA == offsetA + at && posB == offsetB + at && secretOffset + 16 <= SECRET_LENGTH
    ensures MixPair(a, posA, secretOffset) == MixPair(b, posB, secretOffset)
  {
    ReadLongWindow(a, offsetA, b, offsetB, length, at, posA, posB);
    ReadLongWindow(a, offsetA, b, offsetB, length, at + 8, posA + 8, posB + 8);
  }

  /** `hash17to128` reads word pairs of the window only. */
  lemma Mid17To128Window(a: seq<Byte>, offsetA: nat, b: seq<Byte>, offsetB: nat, length: nat)
    requires SameBytes(a, offsetA, b, offsetB, length) && |a| <= MAX_ARRAY_LENGTH && |b| <= MAX_ARRAY_LENGTH && 17 <= length <= 128
    ensures Mid17To128(a, offsetA, length) == Mid17To128(b, offsetB, length)
  {
    MidSumWindow(a, offsetA, b, offsetB, length, MidRounds(length));
  }

  lemma {:induction false} MidSumWindow(a: seq<Byte>, offsetA: nat, b: seq<Byte>, offsetB: nat, length: nat, rounds: nat)
    requires SameBytes(a, offsetA, b, offsetB, length) && |a| <= MAX_ARRAY_LENGTH && |b| <= MAX_ARRAY_LENGTH && 17 <= length <= 128 && rounds <= MidRounds(length)
    ensures MidSum(a, offsetA, length, rounds) == MidSum(b, offsetB, length, rounds)
  {
    if rounds > 0 {
      MidSumWindow(a, offsetA, b, offsetB, length, rounds - 1);
      MidFrontWindow(a, offsetA, b, offsetB, length, rounds);
      MidBackWindow(a, offsetA, b, offsetB, length, rounds);
      MidSumCongruent(a, offsetA, b, offsetB, length, rounds);
    }
  }

  /** The front pair of round `rounds` - 1 lies in the window. */
  lemma MidFrontWindow(a: seq<Byte>, offsetA: nat, b: seq<Byte>, offsetB: nat, length: nat, rounds: nat)
    requires SameBytes(a, offsetA, b, offsetB, length) && 17 <= length <= 128 && 0 < rounds <= MidRounds(length)
    ensures MixPair(a, offsetA + 16 * (rounds - 1), 32 * (rounds - 1)) == MixPair(b, offsetB + 16 * (rounds - 1), 32 * (rounds - 1))
  {
    MixPairWindow(a, offsetA, b, offsetB, length, 16 * (rounds - 1), offsetA + 16 * (rounds - 1), offsetB + 16 * (rounds - 1), 32 * (rounds - 1));
  }

  /** The back pair of round `rounds` - 1 lies in the window. */
  lemma MidBackWindow(a: seq<Byte>, offsetA: nat, b: seq<Byte>, offsetB: nat, length: nat, rounds: nat)
    requires SameBytes(a, offsetA, b, offsetB, length) && 17 <= length <= 128 && 0 < rounds <= MidRounds(length)
    ensures MixPair(a, offsetA + length - 16 * (rounds - 1) - 16, 32 * (rounds - 1) + 16)
         == MixPair(b, offsetB + length - 16 * (rounds - 1) - 16, 32 * (rounds - 1) + 16)
  {
    MixPairWindow(a, offsetA, b, offsetB, length, length - 16 * (rounds - 1) - 16,
                  offsetA + length - 16 * (rounds - 1) - 16, offsetB + length - 16 * (rounds - 1) - 16, 32 * (rounds - 1) + 16);
  }

  /** Equal sums after k rounds and equal pairs in round k give equal sums after k + 1 rounds. */
  lemma MidSumCongruent(a: seq<Byte>, offsetA: nat, b: seq<Byte>, offsetB: nat, length: nat, rounds: nat)
    requires LongHash.Window(a, offsetA, length) && LongHash.Window(b, offsetB, length)
    requires 17 <= length <= 128 && 0 < rounds <= MidRounds(length)
    requires MidSum(a, offsetA, length, rounds - 1) == MidSum(b, offsetB, length, rounds - 1)
    requires MixPair(a, offsetA + 16 * (rounds - 1), 32 * (rounds - 1)) == MixPair(b, offsetB + 16 * (rounds - 1), 32 * (rounds - 1))
    requires MixPair(a, offsetA + length - 16 * (rounds - 1) - 16, 32 * (rounds - 1) + 16)
          == MixPair(b, offsetB + length - 16 * (rounds - 1) - 16, 32 * (rounds - 1) + 16)
    ensures MidSum(a, offsetA, length, rounds) == MidSum(b, offsetB, length, rounds)
  {
  }

  /** `hash129to240` reads word pairs of the window only. */
  lemma Mid129To240Window(a: seq<Byte>, offsetA: nat, b: seq<Byte>, offsetB: nat, length: nat)
    requires SameBytes(a, offsetA, b, offsetB, length) && |a| <= MAX_ARRAY_LENGTH && |b| <= MAX_ARRAY_LENGTH && 129 <= length <= 240
    ensures Mid129To240(a, offsetA, length) == Mid129To240(b, offsetB, length)
  {
    MidsizeHeadWindow(a, offsetA, b, offsetB, length, 8);
    MidsizeLastWindow(a, offsetA, b, offsetB, length);
    MidsizeTailWindow(a, offsetA, b, offsetB, length, MidsizeLast(a, offsetA, length), MidsizeRounds(length));
  }

  lemma {:induction false} MidsizeHeadWindow(a: seq<Byte>, offsetA: nat, b: seq<Byte>, offsetB: nat, length: nat, rounds: nat)
    requires SameBytes(a, offsetA, b, offsetB, length) && |a| <= MAX_ARRAY_LENGTH && |b| <= MAX_ARRAY_LENGTH && 129 <= length <= 240 && rounds <= 8
    ensures MidsizeHead(a, offsetA, length, rounds) == MidsizeHead(b, offsetB, length, rounds)
  {
    if rounds > 0 {
      MidsizeHeadWindow(a, offsetA, b, offsetB, length, rounds - 1);
      MixPairWindow(a, offsetA, b, offsetB, length, 16 * (rounds - 1), offsetA + 16 * (rounds - 1), offsetB + 16 * (rounds - 1), 16 * (rounds - 1));
    }
  }

  lemma {:induction false} MidsizeTailWindow(a: seq<Byte>, offsetA: nat, b: seq<Byte>, offsetB: nat, length: nat, start: Word, rounds: nat)
    requires SameBytes(a, offsetA, b, offsetB, length) && |a| <= MAX_ARRAY_LENGTH && |b| <= MAX_ARRAY_LENGTH && 129 <= length <= 240 && 8 <= rounds && 16 * rounds <= length
    ensures MidsizeTail(a, offsetA, length, start, rounds) == MidsizeTail(b, offsetB, length, start, rounds)
    decreases rounds
  {
    if rounds > 8 {
      MidsizeTailWindow(a, offsetA, b, offsetB, length, start, rounds - 1);
      MidsizeTailPairWindow(a, offsetA, b, offsetB, length, rounds);
      MidsizeTailCongruent(a, offsetA, b, offsetB, length, start, rounds);
    }
  }

  /** The last sixteen bytes lie in the window. */
  lemma MidsizeLastWindow(a: seq<Byte>, offsetA: nat, b: seq<Byte>, offsetB: nat, length: nat)
    requires SameBytes(a, offsetA, b, offsetB, length) && |a| <= MAX_ARRAY_LENGTH && |b| <= MAX_ARRAY_LENGTH && 129 <= length <= 240
    ensures MidsizeLast(a, offsetA, length) == MidsizeLast(b, offsetB, length)
  {
    MixPairWindow(a, offsetA, b, offsetB, length, length - 16, offsetA + length - 16, offsetB + length - 16,
                  SECRET_MIN_SIZE - MIDSIZE_LAST_OFFSET);
  }

  /** The pair of round `rounds` - 1 of the second loop lies in the window. */
  lemma MidsizeTailPairWindow(a: seq<Byte>, offsetA: nat, b: seq<Byte>, offsetB: nat, length: nat, rounds: nat)
    requires SameBytes(a, offsetA, b, offsetB, length) && 129 <= length <= 240 && 8 < rounds && 16 * rounds <= length
    ensures MixPair(a, offsetA + 16 * (rounds - 1), 16 * (rounds - 1 - 8) + MIDSIZE_STARTOFFSET)
         == MixPair(b, offsetB + 16 * (rounds - 1), 16 * (rounds - 1 - 8) + MIDSIZE_STARTOFFSET)
  {
    MixPairWindow(a, offsetA, b, offsetB, length, 16 * (rounds - 1), offsetA + 16 * (rounds - 1), offsetB + 16 * (rounds - 1),
                  16 * (rounds - 1 - 8) + MIDSIZE_STARTOFFSET);
  }

  /** Equal tails before round `rounds` - 1 and an equal pair in it give equal tails after it. */
  lemma MidsizeTailCongruent(a: seq<Byte>, offsetA: nat, b: seq<Byte>, offsetB: nat, length: nat, start: Word, rounds: nat)
    requires LongHash.Window(a, offsetA, length) && LongHash.Window(b, offsetB, length)
    requires 129 <= length <= 240 && 8 < rounds && 16 * rounds <= length
    requires MidsizeTail(a, offsetA, length, start, rounds - 1) == MidsizeTail(b, offsetB, length, start, rounds - 1)
    requires MixPair(a, offsetA + 16 * (rounds - 1), 16 * (rounds - 1 - 8) + MIDSIZE_STARTOFFSET)
          == MixPair(b, offsetB + 16 * (rounds - 1), 16 * (rounds - 1 - 8) + MIDSIZE_STARTOFFSET)
    ensures MidsizeTail(a, offsetA, length, start, rounds) == MidsizeTail(b, offsetB, length, start, rounds)
  {
  }
}
