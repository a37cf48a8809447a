/**
 * The long-input path of XXH3 (inputs of more than 240 bytes), stated once as
 * functions: eight accumulator lanes, the per-stripe `accumulate`, the
 * per-block `scramble`, the fixed order in which they are applied, and the
 * final merge. The three engines (LongHashScalar, LongHashUnrolled and
 * LongHashVector) are each proved to compute `Digest`.
 */
module LongHash {
  import opened Words
  import opened Constants
  import opened Util

  /** The eight 64-bit accumulators. */
  type Lanes = s: seq<Word> | |s| == 8 witness [0, 0, 0, 0, 0, 0, 0, 0]

  const STRIPES_PER_BLOCK: nat := 16
  const BLOCK_LENGTH: nat := 1024
  /** The secret offset of the final, overlapping stripe. */
  const LAST_STRIPE_SECRET_OFFSET: nat := 121
  /** The secret offset of the words `scramble` mixes in. */
  const SCRAMBLE_SECRET_OFFSET: nat := 128

  /**
   * The block geometry follows from the secret's length: a block is as many
   * stripes as the secret can shift by SECRET_CONSUME_RATE under a stripe.
   */
  lemma BlockGeometry()
    ensures STRIPES_PER_BLOCK == (SECRET_LENGTH - STRIPE_LENGTH) / SECRET_CONSUME_RATE
    ensures BLOCK_LENGTH == STRIPE_LENGTH * STRIPES_PER_BLOCK
    ensures LAST_STRIPE_SECRET_OFFSET == SECRET_LENGTH - STRIPE_LENGTH - SECRET_LAST_ACCUMULATOR_START
    ensures SCRAMBLE_SECRET_OFFSET == SECRET_LENGTH - STRIPE_LENGTH
  {
  }

  const INITIAL_LANES: Lanes :=
    [PRIME32_3, PRIME64_1, PRIME64_2, PRIME64_3, PRIME64_4, PRIME32_2, PRIME64_5, PRIME32_1]

  /** The other lane of lane j's pair, that is j xor 1. */
  function Partner(j: nat): (p: nat)
    requires j < 8
    ensures p < 8 && p != j && p / 2 == j / 2
  {
    if j % 2 == 0 then j + 1 else j - 1
  }

  /** The partner lane is the lane index with its lowest bit flipped. */
  lemma PartnerIsXorOne(j: nat)
    requires j < 8
    ensures Partner(j) == Bitwise(XorBit, j, 1, 3)
  {
    assert Pow2(3) == 8;
    XorOne(j, 3);
  }

  // ---------------------------------------------------------------------
  // One stripe and one scramble
  // ---------------------------------------------------------------------

  /** A stripe at `offset` lies inside the input and its secret words inside SECRET. */
  predicate StripeFits(input: seq<Byte>, offset: nat, secretOffset: nat)
  {
    offset + STRIPE_LENGTH <= |input| && secretOffset + STRIPE_LENGTH <= SECRET_LENGTH
  }

  /** The input word of lane j in the stripe at `offset`. */
  function InputWord(input: seq<Byte>, offset: nat, j: nat): Word
    requires offset + STRIPE_LENGTH <= |input| && j < 8
  {
    ReadLong(input, offset + 8 * j)
  }

  /** The secret word lane j is keyed with when the secret is read from `secretOffset`. */
  function SecretWord(secretOffset: nat, j: nat): Word
    requires secretOffset + STRIPE_LENGTH <= SECRET_LENGTH && j < 8
  {
    ReadLong(SECRET, secretOffset + 8 * j)
  }

  /**
   * A lane after one stripe: it gains the word of its partner lane plus the
   * low-times-high product of its own word keyed with its secret word.
   */
  function AccumulateLane(lane: Word, word: Word, partnerWord: Word, secretWord: Word): Word
  {
    Add(Add(lane, partnerWord), MultiplyHighLow(Xor(word, secretWord)))
  }

  /** Lane j of the stripe at `offset`. */
  function StripeLane(acc: Lanes, input: seq<Byte>, offset: nat, secretOffset: nat, j: nat): Word
    requires StripeFits(input, offset, secretOffset) && j < 8
  {
    AccumulateLane(acc[j], InputWord(input, offset, j), InputWord(input, offset, Partner(j)), SecretWord(secretOffset, j))
  }

  function Accumulate(acc: Lanes, input: seq<Byte>, offset: nat, secretOffset: nat): Lanes
    requires StripeFits(input, offset, secretOffset)
  {
    seq(8, j requires 0 <= j < 8 => StripeLane(acc, input, offset, secretOffset, j))
  }

  /** The stripe's result, lane by lane. */
  lemma AccumulateLanes(acc: Lanes, input: seq<Byte>, offset: nat, secretOffset: nat)
    requires StripeFits(input, offset, secretOffset)
    ensures Accumulate(acc, input, offset, secretOffset)
         == [StripeLane(acc, input, offset, secretOffset, 0), StripeLane(acc, input, offset, secretOffset, 1),
             StripeLane(acc, input, offset, secretOffset, 2), StripeLane(acc, input, offset, secretOffset, 3),
             StripeLane(acc, input, offset, secretOffset, 4), StripeLane(acc, input, offset, secretOffset, 5),
             StripeLane(acc, input, offset, secretOffset, 6), StripeLane(acc, input, offset, secretOffset, 7)]
  {
  }

  /** Eight lanes, each updated from its own words, make the specification's stripe. */
  lemma StripeOfLanes(after: seq<Word>, before: Lanes, input: seq<Byte>, offset: nat, secretOffset: nat)
    requires StripeFits(input, offset, secretOffset) && |after| == 8
    requires after[0] == AccumulateLane(before[0], ReadLong(input, offset), ReadLong(input, offset + 8), ReadLong(SECRET, secretOffset))
    requires after[1] == AccumulateLane(before[1], ReadLong(input, offset + 8), ReadLong(input, offset), ReadLong(SECRET, secretOffset + 8))
    requires after[2] == AccumulateLane(before[2], ReadLong(input, offset + 16), ReadLong(input, offset + 24), ReadLong(SECRET, secretOffset + 16))
    requires after[3] == AccumulateLane(before[3], ReadLong(input, offset + 24), ReadLong(input, offset + 16), ReadLong(SECRET, secretOffset + 24))
    requires after[4] == AccumulateLane(before[4], ReadLong(input, offset + 32), ReadLong(input, offset + 40), ReadLong(SECRET, secretOffset + 32))
    requires after[5] == AccumulateLane(before[5], ReadLong(input, offset + 40), ReadLong(input, offset + 32), ReadLong(SECRET, secretOffset + 40))
    requires after[6] == AccumulateLane(before[6], ReadLong(input, offset + 48), ReadLong(input, offset + 56), ReadLong(SECRET, secretOffset + 48))
    requires after[7] == AccumulateLane(before[7], ReadLong(input, offset + 56), ReadLong(input, offset + 48), ReadLong(SECRET, secretOffset + 56))
    ensures after == Accumulate(before, input, offset, secretOffset)
  {
    AccumulateLanes(before, input, offset, secretOffset);
    assert after == [after[0], after[1], after[2], after[3], after[4], after[5], after[6], after[7]];
  }

  /**
   * The lane update with its two additions in the order LongHashScalar
   * performs them for an even lane, and grouped as LongHashUnrolled writes it:
   * the wrapping sum is the same.
   */
  lemma AccumulateLaneOrders(lane: Word, word: Word, partnerWord: Word, secretWord: Word)
    ensures var product := MultiplyHighLow(Xor(word, secretWord));
            && AccumulateLane(lane, word, partnerWord, secretWord) == Add(Add(lane, product), partnerWord)
            && AccumulateLane(lane, word, partnerWord, secretWord) == Add(lane, Add(partnerWord, product))
  {
    var product := MultiplyHighLow(Xor(word, secretWord));
    AddSum3(lane, partnerWord, product);
    AddSum3(lane, product, partnerWord);
  }

  /** One lane of `scramble`: xorshift by 47, key with the secret, multiply by PRIME32_1. */
  function ScrambleLane(lane: Word, j: nat): Word
    requires j < 8
  {
    var shifted := Xor(lane, Shr(lane, 47));
    Mul(Xor(shifted, ReadLong(SECRET, SECRET_LENGTH - STRIPE_LENGTH + j * 8)), PRIME32_1)
  }

  function Scramble(acc: Lanes): Lanes
  {
    seq(8, j requires 0 <= j < 8 => ScrambleLane(acc[j], j))
  }

  // ---------------------------------------------------------------------
  // The order of stripes and scrambles
  // ---------------------------------------------------------------------

  /** The window `input[offset..offset+length]` exists in an array a Java int can index. */
  predicate Window(input: seq<Byte>, offset: nat, length: nat)
  {
    offset + length <= |input| <= MAX_ARRAY_LENGTH
  }

  /** The whole blocks of a window; a last block that ends exactly at the end is not one. */
  function BlockCount(length: nat): nat
    requires length > 0
  {
    (length - 1) / BLOCK_LENGTH
  }

  /** The stripes after the last whole block; the final stripe is not among them. */
  function TrailingStripes(length: nat): nat
    requires length > 0
  {
    ((length - 1) - BLOCK_LENGTH * BlockCount(length)) / STRIPE_LENGTH
  }

  /**
   * Where the stripes fall: the whole blocks and then the trailing stripes
   * lie inside the window and stop short of its last byte, fewer than a block
   * of trailing stripes are left, and the final stripe, which ends at the
   * window's end, starts no later than the trailing stripes end. So the
   * stripes read every byte of the window.
   */
  lemma LongGeometry(length: nat)
    requires length >= STRIPE_LENGTH
    ensures TrailingStripes(length) < STRIPES_PER_BLOCK
    ensures BlockCount(length) * BLOCK_LENGTH + TrailingStripes(length) * STRIPE_LENGTH < length
    ensures length - STRIPE_LENGTH <= BlockCount(length) * BLOCK_LENGTH + TrailingStripes(length) * STRIPE_LENGTH
  {
  }

  /**
   * The lanes after `count` consecutive stripes from `base`, the stripe at
   * base + 64s keyed with the secret from 8s: the stripe loop of a block, and
   * the loop over the trailing stripes.
   */
  function Stripes(acc: Lanes, input: seq<Byte>, base: nat, count: nat): Lanes
    requires base + count * STRIPE_LENGTH <= |input| && count <= STRIPES_PER_BLOCK
  {
    if count == 0 then acc
    else Accumulate(Stripes(acc, input, base, count - 1), input,
                    base + (count - 1) * STRIPE_LENGTH, (count - 1) * SECRET_CONSUME_RATE)
  }

  /** The lanes after the first `count` whole blocks: each is sixteen stripes, then one scramble. */
  function Blocks(input: seq<Byte>, offset: nat, count: nat): Lanes
    requires offset + count * BLOCK_LENGTH <= |input|
  {
    if count == 0 then INITIAL_LANES
    else Scramble(Stripes(Blocks(input, offset, count - 1), input,
                          offset + (count - 1) * BLOCK_LENGTH, STRIPES_PER_BLOCK))
  }

  /** Every stripe of a run that fits in the input fits in it, up to its end. */
  lemma StripeInRun(base: nat, stripe: nat, count: nat, size: nat)
    requires stripe < count && base + count * STRIPE_LENGTH <= size
    ensures base + (stripe + 1) * STRIPE_LENGTH <= size
  {
    var end: nat := (stripe + 1) * STRIPE_LENGTH;
    assert end == 64 * stripe + 64;
    assert count * STRIPE_LENGTH == 64 * count;
  }

  /** One more stripe, at `at` = base + 64 count, extends a run of stripes. */
  lemma StripesStep(acc: Lanes, input: seq<Byte>, base: nat, count: nat, next: nat, at: nat, secretOffset: nat)
    requires next == count + 1
    requires at == base + count * STRIPE_LENGTH && secretOffset == count * SECRET_CONSUME_RATE
    requires at + STRIPE_LENGTH <= |input|
    requires count < STRIPES_PER_BLOCK
    ensures Accumulate(Stripes(acc, input, base, count), input, at, secretOffset) == Stripes(acc, input, base, next)
  {
  }

  /** Scrambling after the sixteen stripes of block `count`, at `base`, completes that block. */
  lemma BlocksStep(input: seq<Byte>, offset: nat, count: nat, next: nat, base: nat, stripes: nat)
    requires next == count + 1
    requires base == offset + count * BLOCK_LENGTH && base + BLOCK_LENGTH <= |input|
    requires stripes == STRIPES_PER_BLOCK
    ensures Scramble(Stripes(Blocks(input, offset, count), input, base, stripes)) == Blocks(input, offset, next)
  {
  }

  /** The lanes after every block, the trailing stripes and the final stripe. */
  function FinalLanes(input: seq<Byte>, offset: nat, length: nat): Lanes
    requires Window(input, offset, length) && length >= STRIPE_LENGTH
  {
    LongGeometry(length);
    var blockCount := BlockCount(length);
    var trailing := Stripes(Blocks(input, offset, blockCount), input,
                            offset + blockCount * BLOCK_LENGTH, TrailingStripes(length));
    Accumulate(trailing, input, offset + length - STRIPE_LENGTH, LAST_STRIPE_SECRET_OFFSET)
  }

  /** The final stripe after the blocks and the trailing stripes gives the final lanes. */
  lemma FinalStep(input: seq<Byte>, offset: nat, length: nat, blockCount: nat, base: nat, stripeCount: nat,
                   at: nat, secretOffset: nat)
    requires Window(input, offset, length) && length >= STRIPE_LENGTH
    requires blockCount == BlockCount(length) && stripeCount == TrailingStripes(length)
    requires base == offset + blockCount * BLOCK_LENGTH
    requires at == offset + length - STRIPE_LENGTH && secretOffset == LAST_STRIPE_SECRET_OFFSET
    requires base + stripeCount * STRIPE_LENGTH <= |input| && stripeCount <= STRIPES_PER_BLOCK
    ensures Accumulate(Stripes(Blocks(input, offset, blockCount), input, base, stripeCount), input, at, secretOffset)
         == FinalLanes(input, offset, length)
  {
  }

  // ---------------------------------------------------------------------
  // Only the window is read
  // ---------------------------------------------------------------------

  /**
   * A stripe inside the window depends on the window's bytes only: the
   * stripe at window position `at` reads the same words from either array.
   */
  lemma AccumulateWindow(acc: Lanes, a: seq<Byte>, offsetA: nat, b: seq<Byte>, offsetB: nat,
                         length: nat, at: nat, posA: nat, posB: nat, secretOffset: nat)
    requires SameBytes(a, offsetA, b, offsetB, length)
    requires at + STRIPE_LENGTH <= length && secretOffset + STRIPE_LENGTH <= SECRET_LENGTH
    requires posA == offsetA + at && posB == offsetB + at
    ensures Accumulate(acc, a, posA, secretOffset) == Accumulate(acc, b, posB, secretOffset)
  {
    var x := Accumulate(acc, a, posA, secretOffset);
    var y := Accumulate(acc, b, posB, secretOffset);
    forall j | 0 <= j < 8
      ensures x[j] == y[j]
    {
      StripeLaneWindow(acc, a, offsetA, b, offsetB, length, at, posA, posB, secretOffset, j);
    }
  }

  /** One lane of a stripe inside the window reads the same two words from either array. */
  lemma StripeLaneWindow(acc: Lanes, a: seq<Byte>, offsetA: nat, b: seq<Byte>, offsetB: nat,
                         length: nat, at: nat, posA: nat, posB: nat, secretOffset: nat, j: nat)
    requires SameBytes(a, offsetA, b, offsetB, length)
    requires at + STRIPE_LENGTH <= length && secretOffset + STRIPE_LENGTH <= SECRET_LENGTH
    requires posA == offsetA + at && posB == offsetB + at && j < 8
    ensures StripeLane(acc, a, posA, secretOffset, j) == StripeLane(acc, b, posB, secretOffset, j)
  {
    InputWordWindow(a, offsetA, b, offsetB, length, at, posA, posB, j);
    InputWordWindow(a, offsetA, b, offsetB, length, at, posA, posB, Partner(j));
  }

  /** Word j of a stripe inside the window is the same in either array. */
  lemma InputWordWindow(a: seq<Byte>, offsetA: nat, b: seq<Byte>, offsetB: nat,
                        length: nat, at: nat, posA: nat, posB: nat, j: nat)
    requires SameBytes(a, offsetA, b, offsetB, length)
    requires at + STRIPE_LENGTH <= length && posA == offsetA + at && posB == offsetB + at && j < 8
    ensures InputWord(a, posA, j) == InputWord(b, posB, j)
  {
    ReadLongWindow(a, offsetA, b, offsetB, length, at + 8 * j, posA + 8 * j, posB + 8 * j);
  }

  /**
   * A run of stripes inside the window depends on the window's bytes only:
   * the run starting at window position `start` is the same in both arrays.
   */
  lemma {:induction false} StripesWindow(acc: Lanes, a: seq<Byte>, offsetA: nat, b: seq<Byte>, offsetB: nat,
                                         length: nat, start: nat, baseA: nat, baseB: nat, count: nat)
    requires SameBytes(a, offsetA, b, offsetB, length)
    requires start + count * STRIPE_LENGTH <= length && count <= STRIPES_PER_BLOCK
    requires baseA == offsetA + start && baseB == offsetB + start
    ensures Stripes(acc, a, baseA, count) == Stripes(acc, b, baseB, count)
  {
    if count > 0 {
      var previous := count - 1;
      StripesWindow(acc, a, offsetA, b, offsetB, length, start, baseA, baseB, previous);
      var before := Stripes(acc, a, baseA, previous);
      var at := start + previous * STRIPE_LENGTH;
      var posA := baseA + previous * STRIPE_LENGTH;
      var posB := baseB + previous * STRIPE_LENGTH;
      var secretOffset := previous * SECRET_CONSUME_RATE;
      AccumulateWindow(before, a, offsetA, b, offsetB, length, at, posA, posB, secretOffset);
      StripesStep(acc, a, baseA, previous, count, posA, secretOffset);
      StripesStep(acc, b, baseB, previous, count, posB, secretOffset);
    }
  }

  /** The whole blocks inside the window depend on the window's bytes only. */
  lemma {:induction false} BlocksWindow(a: seq<Byte>, offsetA: nat, b: seq<Byte>, offsetB: nat,
                                        length: nat, count: nat)
    requires SameBytes(a, offsetA, b, offsetB, length)
    requires count * BLOCK_LENGTH <= length
    ensures Blocks(a, offsetA, count) == Blocks(b, offsetB, count)
  {
    if count > 0 {
      var previous := count - 1;
      BlocksWindow(a, offsetA, b, offsetB, length, previous);
      var blocks := Blocks(a, offsetA, previous);
      var start := previous * BLOCK_LENGTH;
      var baseA := offsetA + start;
      var baseB := offsetB + start;
      var stripes := STRIPES_PER_BLOCK;
      StripesWindow(blocks, a, offsetA, b, offsetB, length, start, baseA, baseB, stripes);
      BlocksStep(a, offsetA, previous, count, baseA, stripes);
      BlocksStep(b, offsetB, previous, count, baseB, stripes);
    }
  }

  // ---------------------------------------------------------------------
  // Merge and the whole digest
  // ---------------------------------------------------------------------

  /** Pair i of the merge: `mix` of lanes 2i and 2i+1 with their secret words. */
  function MergePair(acc: Lanes, i: nat): Word
    requires i < 4
  {
    Mix(acc[2 * i], acc[2 * i + 1],
        ReadLong(SECRET, SECRET_MERGE_ACCUMULATORS_START + 16 * i),
        ReadLong(SECRET, SECRET_MERGE_ACCUMULATORS_START + 16 * i + 8))
  }

  /** length * PRIME64_1 plus the first `pairs` merge pairs, in order. */
  function MergeSum(length: Word, acc: Lanes, pairs: nat): Word
    requires pairs <= 4
  {
    if pairs == 0 then Mul(length, PRIME64_1)
    else Add(MergeSum(length, acc, pairs - 1), MergePair(acc, pairs - 1))
  }

  function Merge(length: Word, acc: Lanes): Word
  {
    Avalanche(MergeSum(length, acc, 4))
  }

  /** The 64-bit hash of a long input, as every long-input engine computes it. */
  function Digest(input: seq<Byte>, offset: nat, length: nat): Word
    requires Window(input, offset, length) && length >= STRIPE_LENGTH
  {
    Merge(length, FinalLanes(input, offset, length))
  }

  /**
   * The digest depends on the bytes of the window only: two inputs holding
   * the same bytes at their offsets hash alike.
   */
  lemma DigestWindow(a: seq<Byte>, offsetA: nat, b: seq<Byte>, offsetB: nat, length: nat)
    requires SameBytes(a, offsetA, b, offsetB, length) && |a| <= MAX_ARRAY_LENGTH && |b| <= MAX_ARRAY_LENGTH && length >= STRIPE_LENGTH
    ensures Digest(a, offsetA, length) == Digest(b, offsetB, length)
  {
    LongGeometry(length);
    var blockCount := BlockCount(length);
    var stripeCount := TrailingStripes(length);
    var start := blockCount * BLOCK_LENGTH;
    var baseA := offsetA + blockCount * BLOCK_LENGTH;
    var baseB := offsetB + blockCount * BLOCK_LENGTH;
    BlocksWindow(a, offsetA, b, offsetB, length, blockCount);
    var blocks := Blocks(a, offsetA, blockCount);
    StripesWindow(blocks, a, offsetA, b, offsetB, length, start, baseA, baseB, stripeCount);
    var trailing := Stripes(blocks, a, baseA, stripeCount);
    var last := length - STRIPE_LENGTH;
    var atA := offsetA + length - STRIPE_LENGTH;
    var atB := offsetB + length - STRIPE_LENGTH;
    var secretOffset := LAST_STRIPE_SECRET_OFFSET;
    AccumulateWindow(trailing, a, offsetA, b, offsetB, length, last, atA, atB, secretOffset);
    var afterA := Accumulate(trailing, a, atA, secretOffset);
    FinalStep(a, offsetA, length, blockCount, baseA, stripeCount, atA, secretOffset);
    FinalStep(b, offsetB, length, blockCount, baseB, stripeCount, atB, secretOffset);
  }

}
