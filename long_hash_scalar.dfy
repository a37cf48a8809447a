/**
 * LongHashScalar.java: the long-input engine over an array of eight
 * accumulators that `accumulate` and `scramble` update in place, driven by
 * nested block and stripe loops, a loop over the trailing stripes, one final
 * stripe, and a four-pair merge.
 */
module LongHashScalar {
  import opened Words
  import opened Constants
  import opened Util
  import LongHash

  /** `hash`: the engine computes the long-input digest. */
  method Hash(input: seq<Byte>, offset: nat, length: nat) returns (h: Word)
    requires LongHash.Window(input, offset, length) && length >= STRIPE_LENGTH
    ensures h == LongHash.Digest(input, offset, length)
  {
    var accumulators := new Word[8] [PRIME32_3, PRIME64_1, PRIME64_2, PRIME64_3, PRIME64_4, PRIME32_2, PRIME64_5, PRIME32_1];
    assert accumulators[..] == LongHash.INITIAL_LANES;

    LongHash.BlockGeometry();
    var stripesPerBlock := (SECRET_LENGTH - STRIPE_LENGTH) / SECRET_CONSUME_RATE;
    var blockLength := STRIPE_LENGTH * stripesPerBlock;
    var blockCount := (length - 1) / blockLength;
    assert stripesPerBlock == LongHash.STRIPES_PER_BLOCK;
    assert blockLength == LongHash.BLOCK_LENGTH && blockCount == LongHash.BlockCount(length);

    for block := 0 to blockCount
      invariant accumulators[..] == LongHash.Blocks(input, offset, block)
    {
      var blockOffset := offset + block * blockLength;
      AccumulateStripes(accumulators, input, blockOffset, stripesPerBlock);
      Scramble(accumulators);
      LongHash.BlocksStep(input, offset, block, block + 1, blockOffset, stripesPerBlock);
    }

    var stripeCount := ((length - 1) - (blockLength * blockCount)) / STRIPE_LENGTH;
    assert stripeCount == LongHash.TrailingStripes(length);
    LongHash.LongGeometry(length);
    var trailingOffset := offset + blockCount * blockLength;
    AccumulateStripes(accumulators, input, trailingOffset, stripeCount);

    var lastOffset := offset + length - STRIPE_LENGTH;
    var lastSecretOffset := SECRET_LENGTH - STRIPE_LENGTH - SECRET_LAST_ACCUMULATOR_START;
    Accumulate(accumulators, input, lastOffset, lastSecretOffset);
    LongHash.FinalStep(input, offset, length, blockCount, trailingOffset, stripeCount, lastOffset, lastSecretOffset);

    h := Merge(accumulators, length);
  }

  /** The merge: length * PRIME64_1 plus `mix` of each lane pair, then `avalanche`. */
  method Merge(accumulators: array<Word>, length: nat) returns (h: Word)
    requires accumulators.Length == 8 && length < WORD_MODULUS
    ensures h == LongHash.Merge(length, accumulators[..])
  {
    var lanes := accumulators[..];
    var result := Mul(length, PRIME64_1);
    for i := 0 to 4
      invariant result == LongHash.MergeSum(length, lanes, i)
    {
      result := Add(result, Mix(
        lanes[2 * i],
        lanes[2 * i + 1],
        ReadLong(SECRET, SECRET_MERGE_ACCUMULATORS_START + 16 * i),
        ReadLong(SECRET, SECRET_MERGE_ACCUMULATORS_START + 16 * i + 8)));
    }
    h := Avalanche(result);
  }

  /**
   * The stripe loop of one block, and of the trailing stripes: `count`
   * stripes starting at `base`, each with its own window of the secret.
   */
  method AccumulateStripes(accumulators: array<Word>, input: seq<Byte>, base: nat, count: nat)
    requires accumulators.Length == 8
    requires base + count * STRIPE_LENGTH <= |input| && count <= LongHash.STRIPES_PER_BLOCK
    modifies accumulators
    ensures accumulators[..] == LongHash.Stripes(old(accumulators[..]), input, base, count)
  {
    ghost var initial: LongHash.Lanes := accumulators[..];
    for stripe := 0 to count
      invariant base + stripe * STRIPE_LENGTH <= |input|
      invariant accumulators[..] == LongHash.Stripes(initial, input, base, stripe)
    {
      LongHash.StripeInRun(base, stripe, count, |input|);
      AccumulateStripe(accumulators, initial, input, base, stripe);
    }
  }

  /** One pass of the stripe loop: stripe `stripe` of the run at `base` extends the run. */
  method AccumulateStripe(accumulators: array<Word>, ghost initial: LongHash.Lanes, input: seq<Byte>, base: nat, stripe: nat)
    requires accumulators.Length == 8
    requires base + (stripe + 1) * STRIPE_LENGTH <= |input| && stripe < LongHash.STRIPES_PER_BLOCK
    requires accumulators[..] == LongHash.Stripes(initial, input, base, stripe)
    modifies accumulators
    ensures accumulators[..] == LongHash.Stripes(initial, input, base, stripe + 1)
  {
    var stripeOffset := base + stripe * STRIPE_LENGTH;
    var secretOffset := stripe * SECRET_CONSUME_RATE;
    Accumulate(accumulators, input, stripeOffset, secretOffset);
  }

  /**
   * `accumulate`: the sixteen in-place additions of one stripe, four for each
   * word pair. Each lane ends as the specification's lane update, and no
   * other state changes.
   */
  method Accumulate(accumulators: array<Word>, input: seq<Byte>, offset: nat, secretOffset: nat)
    requires accumulators.Length == 8
    requires LongHash.StripeFits(input, offset, secretOffset)
    modifies accumulators
    ensures accumulators[..] == LongHash.Accumulate(old(accumulators[..]), input, offset, secretOffset)
  {
    ghost var before: LongHash.Lanes := accumulators[..];
    AccumulatePair(accumulators, input, offset, secretOffset, 0);
    AccumulatePair(accumulators, input, offset, secretOffset, 2);
    AccumulatePair(accumulators, input, offset, secretOffset, 4);
    AccumulatePair(accumulators, input, offset, secretOffset, 6);
    LongHash.StripeOfLanes(accumulators[..], before, input, offset, secretOffset);
  }

  /**
   * The four statements of `accumulate` for the word pair of lanes `lane` and
   * `lane + 1`: each lane gains its product first and its partner's word
   * second. The other lanes keep their values.
   */
  method AccumulatePair(accumulators: array<Word>, input: seq<Byte>, offset: nat, secretOffset: nat, lane: nat)
    requires accumulators.Length == 8 && lane + 1 < 8
    requires offset + 8 * lane + 16 <= |input| && secretOffset + 8 * lane + 16 <= SECRET_LENGTH
    modifies accumulators
    ensures accumulators[lane] == LongHash.AccumulateLane(old(accumulators[lane]), ReadLong(input, offset + 8 * lane),
                                                          ReadLong(input, offset + 8 * lane + 8), ReadLong(SECRET, secretOffset + 8 * lane))
    ensures accumulators[lane + 1] == LongHash.AccumulateLane(old(accumulators[lane + 1]), ReadLong(input, offset + 8 * lane + 8),
                                                              ReadLong(input, offset + 8 * lane), ReadLong(SECRET, secretOffset + 8 * lane + 8))
    ensures forall j :: 0 <= j < 8 && j != lane && j != lane + 1 ==> accumulators[j] == old(accumulators[j])
  {
    var value := ReadLong(input, offset + 8 * lane);
    accumulators[lane] := Add(accumulators[lane], MultiplyHighLow(Xor(value, ReadLong(SECRET, secretOffset + 8 * lane))));
    accumulators[lane + 1] := Add(accumulators[lane + 1], value);
    ghost var first := value;

    value := ReadLong(input, offset + 8 * lane + 8);
    accumulators[lane + 1] := Add(accumulators[lane + 1], MultiplyHighLow(Xor(value, ReadLong(SECRET, secretOffset + 8 * lane + 8))));
    accumulators[lane] := Add(accumulators[lane], value);
    LanePair(old(accumulators[lane]), old(accumulators[lane + 1]), accumulators[lane], accumulators[lane + 1], first, value,
             ReadLong(SECRET, secretOffset + 8 * lane), ReadLong(SECRET, secretOffset + 8 * lane + 8));
  }

  /**
   * The two lanes of a word pair, as `accumulate` leaves them, are the
   * specification's: the even lane receives its product before its partner's
   * word, the other order of the same wrapping sum.
   */
  lemma LanePair(lane0: Word, lane1: Word, new0: Word, new1: Word, word0: Word, word1: Word, secret0: Word, secret1: Word)
    requires new0 == Add(Add(lane0, MultiplyHighLow(Xor(word0, secret0))), word1)
    requires new1 == Add(Add(lane1, word0), MultiplyHighLow(Xor(word1, secret1)))
    ensures new0 == LongHash.AccumulateLane(lane0, word0, word1, secret0)
    ensures new1 == LongHash.AccumulateLane(lane1, word1, word0, secret1)
  {
    LongHash.AccumulateLaneOrders(lane0, word0, word1, secret0);
  }

  /** `scramble`: each lane in turn is replaced by its scrambled value. */
  method Scramble(accumulators: array<Word>)
    requires accumulators.Length == 8
    modifies accumulators
    ensures accumulators[..] == LongHash.Scramble(old(accumulators[..]))
  {
    for lane := 0 to accumulators.Length
      invariant forall j :: 0 <= j < lane ==> accumulators[j] == LongHash.ScrambleLane(old(accumulators[j]), j)
      invariant forall j :: lane <= j < 8 ==> accumulators[j] == old(accumulators[j])
    {
      var accumulator := accumulators[lane];
      accumulator := Xor(accumulator, Shr(accumulator, 47));
      accumulator := Xor(accumulator, ReadLong(SECRET, SECRET_LENGTH - STRIPE_LENGTH + lane * 8));
      accumulator := Mul(accumulator, PRIME32_1);
      accumulators[lane] := accumulator;
    }
  }
}
