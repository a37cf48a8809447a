/**
 * LongHashUnrolled.java: the long-input engine with its eight accumulators
 * held in the locals lane0..lane7 instead of an array. The stripe update,
 * the scramble and the merge are written out lane by lane; the block, stripe
 * and final-stripe schedule is the scalar engine's. Every method here is
 * proved to compute what the specification in LongHash says, so the engine
 * returns LongHash.Digest, the value LongHashScalar.Hash returns.
 */
module LongHashUnrolled {
  import opened Words
  import opened Constants
  import opened Util
  import LongHash

  /** `hash`: the unrolled engine computes the long-input digest. */
  method Hash(input: seq<Byte>, offset: nat, length: nat) returns (h: Word)
    requires LongHash.Window(input, offset, length) && length >= STRIPE_LENGTH
    ensures h == LongHash.Digest(input, offset, length)
  {
    var lane0: Word := PRIME32_3;
    var lane1: Word := PRIME64_1;
    var lane2: Word := PRIME64_2;
    var lane3: Word := PRIME64_3;
    var lane4: Word := PRIME64_4;
    var lane5: Word := PRIME32_2;
    var lane6: Word := PRIME64_5;
    var lane7: Word := PRIME32_1;
    assert [lane0, lane1, lane2, lane3, lane4, lane5, lane6, lane7] == LongHash.INITIAL_LANES;

    LongHash.BlockGeometry();
    var stripesPerBlock := (SECRET_LENGTH - STRIPE_LENGTH) / SECRET_CONSUME_RATE;
    var blockLength := STRIPE_LENGTH * stripesPerBlock;
    var blockCount := (length - 1) / blockLength;
    assert stripesPerBlock == LongHash.STRIPES_PER_BLOCK;
    assert blockLength == LongHash.BLOCK_LENGTH && blockCount == LongHash.BlockCount(length);

    for block := 0 to blockCount
      invariant [lane0, lane1, lane2, lane3, lane4, lane5, lane6, lane7] == LongHash.Blocks(input, offset, block)
    {
      var blockOffset := offset + block * blockLength;
      lane0, lane1, lane2, lane3, lane4, lane5, lane6, lane7 :=
        AccumulateStripes(lane0, lane1, lane2, lane3, lane4, lane5, lane6, lane7, input, blockOffset, stripesPerBlock);
      lane0, lane1, lane2, lane3, lane4, lane5, lane6, lane7 :=
        Scramble(lane0, lane1, lane2, lane3, lane4, lane5, lane6, lane7);
      LongHash.BlocksStep(input, offset, block, block + 1, blockOffset, stripesPerBlock);
    }

    var stripeCount := ((length - 1) - (blockLength * blockCount)) / STRIPE_LENGTH;
    assert stripeCount == LongHash.TrailingStripes(length);
    LongHash.LongGeometry(length);
    var trailingOffset := offset + blockCount * blockLength;
    lane0, lane1, lane2, lane3, lane4, lane5, lane6, lane7 :=
      AccumulateStripes(lane0, lane1, lane2, lane3, lane4, lane5, lane6, lane7, input, trailingOffset, stripeCount);

    var lastOffset := offset + length - STRIPE_LENGTH;
    var lastSecretOffset := SECRET_LENGTH - STRIPE_LENGTH - SECRET_LAST_ACCUMULATOR_START;
    lane0, lane1, lane2, lane3, lane4, lane5, lane6, lane7 :=
      Accumulate(lane0, lane1, lane2, lane3, lane4, lane5, lane6, lane7, input, lastOffset, lastSecretOffset);
    LongHash.FinalStep(input, offset, length, blockCount, trailingOffset, stripeCount, lastOffset, lastSecretOffset);

    h := Merge(lane0, lane1, lane2, lane3, lane4, lane5, lane6, lane7, length);
  }

  /**
   * The stripe loop of one block, and of the trailing stripes: `count`
   * stripes from `base`, the stripe at base + 64s keyed with the secret from 8s.
   */
  method AccumulateStripes(lane0: Word, lane1: Word, lane2: Word, lane3: Word,
                           lane4: Word, lane5: Word, lane6: Word, lane7: Word,
                           input: seq<Byte>, base: nat, count: nat)
    returns (next0: Word, next1: Word, next2: Word, next3: Word, next4: Word, next5: Word, next6: Word, next7: Word)
    requires base + count * STRIPE_LENGTH <= |input| && count <= LongHash.STRIPES_PER_BLOCK
    ensures [next0, next1, next2, next3, next4, next5, next6, next7]
         == LongHash.Stripes([lane0, lane1, lane2, lane3, lane4, lane5, lane6, lane7], input, base, count)
  {
    var initial: LongHash.Lanes := [lane0, lane1, lane2, lane3, lane4, lane5, lane6, lane7];
    next0, next1, next2, next3, next4, next5, next6, next7 := lane0, lane1, lane2, lane3, lane4, lane5, lane6, lane7;
    for stripe := 0 to count
      invariant RunHolds(next0, next1, next2, next3, next4, next5, next6, next7, initial, input, base, stripe)
    {
      LongHash.StripeInRun(base, stripe, count, |input|);
      next0, next1, next2, next3, next4, next5, next6, next7 :=
        AccumulateStripe(next0, next1, next2, next3, next4, next5, next6, next7, initial, input, base, stripe);
    }
  }

  /** The eight locals are the lanes after the first `count` stripes of the run at `base`. */
  ghost predicate RunHolds(lane0: Word, lane1: Word, lane2: Word, lane3: Word,
                           lane4: Word, lane5: Word, lane6: Word, lane7: Word,
                           initial: LongHash.Lanes, input: seq<Byte>, base: nat, count: nat)
  {
    && base + count * STRIPE_LENGTH <= |input| && count <= LongHash.STRIPES_PER_BLOCK
    && [lane0, lane1, lane2, lane3, lane4, lane5, lane6, lane7] == LongHash.Stripes(initial, input, base, count)
  }

  /** One pass of the stripe loop: stripe `stripe` of the run at `base` extends the run. */
  method AccumulateStripe(lane0: Word, lane1: Word, lane2: Word, lane3: Word,
                          lane4: Word, lane5: Word, lane6: Word, lane7: Word,
                          ghost initial: LongHash.Lanes, input: seq<Byte>, base: nat, stripe: nat)
    returns (next0: Word, next1: Word, next2: Word, next3: Word, next4: Word, next5: Word, next6: Word, next7: Word)
    requires base + (stripe + 1) * STRIPE_LENGTH <= |input| && stripe < LongHash.STRIPES_PER_BLOCK
    requires RunHolds(lane0, lane1, lane2, lane3, lane4, lane5, lane6, lane7, initial, input, base, stripe)
    ensures RunHolds(next0, next1, next2, next3, next4, next5, next6, next7, initial, input, base, stripe + 1)
  {
    var off := base + stripe * STRIPE_LENGTH;
    var secretOffset := stripe * SECRET_CONSUME_RATE;
    LongHash.StripesStep(initial, input, base, stripe, stripe + 1, off, secretOffset);
    next0, next1, next2, next3, next4, next5, next6, next7 :=
      Accumulate(lane0, lane1, lane2, lane3, lane4, lane5, lane6, lane7, input, off, secretOffset);
  }

  /**
   * One stripe, lines as the engine writes them: each lane gains its
   * partner's word plus the low-times-high product of its own keyed word.
   * The eight lanes together are the specification's stripe.
   */
  method Accumulate(lane0: Word, lane1: Word, lane2: Word, lane3: Word,
                    lane4: Word, lane5: Word, lane6: Word, lane7: Word,
                    input: seq<Byte>, off: nat, secretOffset: nat)
    returns (next0: Word, next1: Word, next2: Word, next3: Word, next4: Word, next5: Word, next6: Word, next7: Word)
    requires LongHash.StripeFits(input, off, secretOffset)
    ensures [next0, next1, next2, next3, next4, next5, next6, next7]
         == LongHash.Accumulate([lane0, lane1, lane2, lane3, lane4, lane5, lane6, lane7], input, off, secretOffset)
  {
    var value0 := ReadLong(input, off);
    var value1 := ReadLong(input, off + 8);
    var value2 := ReadLong(input, off + 16);
    var value3 := ReadLong(input, off + 24);
    var value4 := ReadLong(input, off + 32);
    var value5 := ReadLong(input, off + 40);
    var value6 := ReadLong(input, off + 48);
    var value7 := ReadLong(input, off + 56);

    next0 := UnrolledLane(lane0, value0, value1, ReadLong(SECRET, secretOffset));
    next1 := UnrolledLane(lane1, value1, value0, ReadLong(SECRET, secretOffset + 8));
    next2 := UnrolledLane(lane2, value2, value3, ReadLong(SECRET, secretOffset + 16));
    next3 := UnrolledLane(lane3, value3, value2, ReadLong(SECRET, secretOffset + 24));
    next4 := UnrolledLane(lane4, value4, value5, ReadLong(SECRET, secretOffset + 32));
    next5 := UnrolledLane(lane5, value5, value4, ReadLong(SECRET, secretOffset + 40));
    next6 := UnrolledLane(lane6, value6, value7, ReadLong(SECRET, secretOffset + 48));
    next7 := UnrolledLane(lane7, value7, value6, ReadLong(SECRET, secretOffset + 56));
    StripeOfLocals(lane0, lane1, lane2, lane3, lane4, lane5, lane6, lane7,
                   next0, next1, next2, next3, next4, next5, next6, next7, input, off, secretOffset);
  }

  /** Eight locals each updated by its own unrolled line are the specification's stripe. */
  lemma StripeOfLocals(lane0: Word, lane1: Word, lane2: Word, lane3: Word,
                       lane4: Word, lane5: Word, lane6: Word, lane7: Word,
                       next0: Word, next1: Word, next2: Word, next3: Word,
                       next4: Word, next5: Word, next6: Word, next7: Word,
                       input: seq<Byte>, off: nat, secretOffset: nat)
    requires LongHash.StripeFits(input, off, secretOffset)
    requires next0 == LongHash.AccumulateLane(lane0, ReadLong(input, off), ReadLong(input, off + 8), ReadLong(SECRET, secretOffset))
    requires next1 == LongHash.AccumulateLane(lane1, ReadLong(input, off + 8), ReadLong(input, off), ReadLong(SECRET, secretOffset + 8))
    requires next2 == LongHash.AccumulateLane(lane2, ReadLong(input, off + 16), ReadLong(input, off + 24), ReadLong(SECRET, secretOffset + 16))
    requires next3 == LongHash.AccumulateLane(lane3, ReadLong(input, off + 24), ReadLong(input, off + 16), ReadLong(SECRET, secretOffset + 24))
    requires next4 == LongHash.AccumulateLane(lane4, ReadLong(input, off + 32), ReadLong(input, off + 40), ReadLong(SECRET, secretOffset + 32))
    requires next5 == LongHash.AccumulateLane(lane5, ReadLong(input, off + 40), ReadLong(input, off + 32), ReadLong(SECRET, secretOffset + 40))
    requires next6 == LongHash.AccumulateLane(lane6, ReadLong(input, off + 48), ReadLong(input, off + 56), ReadLong(SECRET, secretOffset + 48))
    requires next7 == LongHash.AccumulateLane(lane7, ReadLong(input, off + 56), ReadLong(input, off + 48), ReadLong(SECRET, secretOffset + 56))
    ensures [next0, next1, next2, next3, next4, next5, next6, next7]
         == LongHash.Accumulate([lane0, lane1, lane2, lane3, lane4, lane5, lane6, lane7], input, off, secretOffset)
  {
    var after := [next0, next1, next2, next3, next4, next5, next6, next7];
    var before: LongHash.Lanes := [lane0, lane1, lane2, lane3, lane4, lane5, lane6, lane7];
    LongHash.StripeOfLanes(after, before, input, off, secretOffset);
  }

  /**
   * One line of the unrolled stripe, `lane += partnerWord +
   * multiplyHighLow(word ^ secretWord)`: the sum grouped this way is the
   * specification's lane update.
   */
  method UnrolledLane(lane: Word, word: Word, partnerWord: Word, secretWord: Word) returns (next: Word)
    ensures next == LongHash.AccumulateLane(lane, word, partnerWord, secretWord)
  {
    next := Add(lane, Add(partnerWord, MultiplyHighLow(Xor(word, secretWord))));
    LongHash.AccumulateLaneOrders(lane, word, partnerWord, secretWord);
  }

  /** The eight scramble lines: lane j is xorshifted by 47, keyed with secret word j and multiplied by PRIME32_1. */
  method Scramble(lane0: Word, lane1: Word, lane2: Word, lane3: Word,
                  lane4: Word, lane5: Word, lane6: Word, lane7: Word)
    returns (next0: Word, next1: Word, next2: Word, next3: Word, next4: Word, next5: Word, next6: Word, next7: Word)
    ensures [next0, next1, next2, next3, next4, next5, next6, next7]
         == LongHash.Scramble([lane0, lane1, lane2, lane3, lane4, lane5, lane6, lane7])
  {
    next0 := Mul(Xor(Xor(lane0, Shr(lane0, 47)), ReadLong(SECRET, SECRET_LENGTH - STRIPE_LENGTH + 0 * 8)), PRIME32_1);
    next1 := Mul(Xor(Xor(lane1, Shr(lane1, 47)), ReadLong(SECRET, SECRET_LENGTH - STRIPE_LENGTH + 1 * 8)), PRIME32_1);
    next2 := Mul(Xor(Xor(lane2, Shr(lane2, 47)), ReadLong(SECRET, SECRET_LENGTH - STRIPE_LENGTH + 2 * 8)), PRIME32_1);
    next3 := Mul(Xor(Xor(lane3, Shr(lane3, 47)), ReadLong(SECRET, SECRET_LENGTH - STRIPE_LENGTH + 3 * 8)), PRIME32_1);
    next4 := Mul(Xor(Xor(lane4, Shr(lane4, 47)), ReadLong(SECRET, SECRET_LENGTH - STRIPE_LENGTH + 4 * 8)), PRIME32_1);
    next5 := Mul(Xor(Xor(lane5, Shr(lane5, 47)), ReadLong(SECRET, SECRET_LENGTH - STRIPE_LENGTH + 5 * 8)), PRIME32_1);
    next6 := Mul(Xor(Xor(lane6, Shr(lane6, 47)), ReadLong(SECRET, SECRET_LENGTH - STRIPE_LENGTH + 6 * 8)), PRIME32_1);
    next7 := Mul(Xor(Xor(lane7, Shr(lane7, 47)), ReadLong(SECRET, SECRET_LENGTH - STRIPE_LENGTH + 7 * 8)), PRIME32_1);
    ghost var after := [next0, next1, next2, next3, next4, next5, next6, next7];
    ghost var before: LongHash.Lanes := [lane0, lane1, lane2, lane3, lane4, lane5, lane6, lane7];
    assert forall j :: 0 <= j < 8 ==> after[j] == LongHash.ScrambleLane(before[j], j);
  }

  /** The written-out merge: length * PRIME64_1 plus `mix` of the four lane pairs, then `avalanche`. */
  method Merge(lane0: Word, lane1: Word, lane2: Word, lane3: Word,
               lane4: Word, lane5: Word, lane6: Word, lane7: Word, length: nat) returns (h: Word)
    requires length < WORD_MODULUS
    ensures h == LongHash.Merge(length, [lane0, lane1, lane2, lane3, lane4, lane5, lane6, lane7])
  {
    ghost var lanes: LongHash.Lanes := [lane0, lane1, lane2, lane3, lane4, lane5, lane6, lane7];
    var result := Mul(length, PRIME64_1);
    assert result == LongHash.MergeSum(length, lanes, 0);
    result := Add(result, Mix(lane0, lane1,
                              ReadLong(SECRET, SECRET_MERGE_ACCUMULATORS_START + 16 * 0),
                              ReadLong(SECRET, SECRET_MERGE_ACCUMULATORS_START + 16 * 0 + 8)));
    assert result == LongHash.MergeSum(length, lanes, 1);
    result := Add(result, Mix(lane2, lane3,
                              ReadLong(SECRET, SECRET_MERGE_ACCUMULATORS_START + 16 * 1),
                              ReadLong(SECRET, SECRET_MERGE_ACCUMULATORS_START + 16 * 1 + 8)));
    assert result == LongHash.MergeSum(length, lanes, 2);
    result := Add(result, Mix(lane4, lane5,
                              ReadLong(SECRET, SECRET_MERGE_ACCUMULATORS_START + 16 * 2),
                              ReadLong(SECRET, SECRET_MERGE_ACCUMULATORS_START + 16 * 2 + 8)));
    assert result == LongHash.MergeSum(length, lanes, 3);
    result := Add(result, Mix(lane6, lane7,
                              ReadLong(SECRET, SECRET_MERGE_ACCUMULATORS_START + 16 * 3),
                              ReadLong(SECRET, SECRET_MERGE_ACCUMULATORS_START + 16 * 3 + 8)));
    assert result == LongHash.MergeSum(length, lanes, 4);
    h := Avalanche(result);
  }
}
