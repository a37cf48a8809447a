/**
 * LongHashVector.java: the long-input engine over the same eight-lane
 * array as LongHashScalar, with `accumulate` and `scramble` written as
 * lane-wise vector operations over chunks of `lanes` longs. A long vector
 * is a `seq<Word>` and a byte vector a `seq<Byte>` of eight bytes per long;
 * each operation is the lane-wise function it names. The swap of each word
 * with its partner is the byte shuffle BYTE_SHUFFLE followed by a
 * little-endian reinterpretation.
 */
module LongHashVector {
  import opened Words
  import opened Constants
  import opened Util
  import LongHash

  // ---------------------------------------------------------------------
  // The species and the byte shuffle
  // ---------------------------------------------------------------------

  /**
   * The preferred species holds `lanes` longs: a 128-, 256- or 512-bit
   * vector. Each chunk then covers whole pairs of adjacent lanes and the
   * chunks tile the eight accumulators.
   */
  predicate Species(lanes: nat)
  {
    lanes == 2 || lanes == 4 || lanes == 8
  }

  /** The byte species of the same bit width: 16, 32 or 64 bytes. */
  predicate ByteSpecies(size: nat)
  {
    size == 16 || size == 32 || size == 64
  }

  /** `loopBound(length)`: `length` rounded down to a multiple of the species length. */
  function LoopBound(length: nat, lanes: nat): nat
    requires Species(lanes)
  {
    if lanes == 2 then length - length % 2
    else if lanes == 4 then length - length % 4
    else length - length % 8
  }

  /** For every species the chunk loop runs over all eight lanes. */
  lemma LoopBoundCoversLanes(lanes: nat)
    requires Species(lanes)
    ensures LoopBound(8, lanes) == 8
  {
  }

  /**
   * Lane i is where a chunk of the loop starts: a multiple of the species
   * length, which is 2, 4 or 8, so always an even lane.
   */
  predicate ChunkStart(i: nat, lanes: nat)
  {
    i % 2 == 0 && (lanes == 4 ==> i % 4 == 0) && (lanes == 8 ==> i % 8 == 0)
  }

  /** BYTE_SHUFFLE: byte i of the result is byte (i / 8 ^ 1) * 8 + i % 8 of the source. */
  function ByteShuffle(i: nat): nat
  {
    Bitwise(XorBit, i / 8, 1, 32) * 8 + i % 8
  }

  /**
   * The shuffle moves each byte to the same place in the partner word: byte
   * t of word j comes from byte t of word j xor 1.
   */
  lemma ByteShuffleSwapsWords(i: nat)
    requires i < 64
    ensures ByteShuffle(i) == 8 * LongHash.Partner(i / 8) + i % 8
  {
    Pow2Half();
    XorOne(i / 8, 32);
  }

  /** Applying the shuffle twice gives every byte back its place. */
  lemma ByteShuffleInvolution(i: nat)
    requires i < 64
    ensures ByteShuffle(i) < 64 && ByteShuffle(ByteShuffle(i)) == i
  {
    ByteShuffleSwapsWords(i);
    var j := ByteShuffle(i);
    assert j / 8 == LongHash.Partner(i / 8) && j % 8 == i % 8;
    ByteShuffleSwapsWords(j);
  }

  // ---------------------------------------------------------------------
  // Vector operations, lane by lane
  // ---------------------------------------------------------------------

  /** `rearrange(BYTE_SHUFFLE)` on a byte vector of whole word pairs. */
  function Rearrange(v: seq<Byte>): (r: seq<Byte>)
    requires ByteSpecies(|v|)
    ensures |r| == |v|
  {
    seq(|v|, i requires 0 <= i < |v| => ShuffleInside(i, |v|); v[ByteShuffle(i)])
  }

  /** The shuffle stays inside a vector of whole word pairs. */
  lemma ShuffleInside(i: nat, size: nat)
    requires i < size && ByteSpecies(size)
    ensures ByteShuffle(i) < size
  {
    ByteShuffleSwapsWords(i);
  }

  /** `reinterpretAsLongs()`: each eight bytes, least significant first, are one long. */
  function ReinterpretAsLongs(v: seq<Byte>): (r: seq<Word>)
    requires |v| % 8 == 0
    ensures |r| == |v| / 8
  {
    seq(|v| / 8, j requires 0 <= j < |v| / 8 => ReadLong(v, 8 * j))
  }

  /** `and(mask)`: each lane and-ed with a broadcast scalar. */
  function AndLanes(v: seq<Word>, mask: Word): (r: seq<Word>)
    ensures |r| == |v|
  {
    seq(|v|, j requires 0 <= j < |v| => And(v[j], mask))
  }

  /** `lanewise(LSHR, n)`. */
  function ShrLanes(v: seq<Word>, n: nat): (r: seq<Word>)
    requires n < 64
    ensures |r| == |v|
  {
    seq(|v|, j requires 0 <= j < |v| => Shr(v[j], n))
  }

  /** `lanewise(XOR, w)` on long vectors. */
  function XorLanes(v: seq<Word>, w: seq<Word>): (r: seq<Word>)
    requires |v| == |w|
    ensures |r| == |v|
  {
    seq(|v|, j requires 0 <= j < |v| => Xor(v[j], w[j]))
  }

  /** `add(w)`. */
  function AddLanes(v: seq<Word>, w: seq<Word>): (r: seq<Word>)
    requires |v| == |w|
    ensures |r| == |v|
  {
    seq(|v|, j requires 0 <= j < |v| => Add(v[j], w[j]))
  }

  /** `mul(w)`. */
  function MulLanes(v: seq<Word>, w: seq<Word>): (r: seq<Word>)
    requires |v| == |w|
    ensures |r| == |v|
  {
    seq(|v|, j requires 0 <= j < |v| => Mul(v[j], w[j]))
  }

  /** `mul(c)` with a broadcast scalar. */
  function MulScalar(v: seq<Word>, c: Word): (r: seq<Word>)
    ensures |r| == |v|
  {
    seq(|v|, j requires 0 <= j < |v| => Mul(v[j], c))
  }

  // ---------------------------------------------------------------------
  // One chunk of `accumulate` and of `scramble`
  // ---------------------------------------------------------------------

  /** Reading a long from a slice reads it from the array at the shifted position. */
  lemma ReadLongOfSlice(data: seq<Byte>, offset: nat, size: nat, at: nat, position: nat)
    requires offset + size <= |data| && at + 8 <= size && position == offset + at
    ensures ReadLong(data[offset..offset + size], at) == ReadLong(data, position)
  {
    var slice := data[offset..offset + size];
    assert SameBytes(slice, 0, data, offset, size);
    ReadLongWindow(slice, 0, data, offset, size, at, at, position);
  }

  /** A lane of the keyed vector is the xor of the input word and the secret word. */
  lemma KeyLane(x: seq<Byte>, y: seq<Byte>, k: nat)
    requires |x| == |y| && |x| % 8 == 0 && k < |x| / 8
    ensures ReinterpretAsLongs(XorBytes(x, y))[k] == Xor(ReadLong(x, 8 * k), ReadLong(y, 8 * k))
  {
    var keyed := XorBytes(x, y);
    var xs, ys := x[8 * k..8 * k + 8], y[8 * k..8 * k + 8];
    assert keyed[8 * k..8 * k + 8] == XorBytes(xs, ys);
    ReadLongLittleEndian(keyed, 8 * k);
    ReadLongLittleEndian(x, 8 * k);
    ReadLongLittleEndian(y, 8 * k);
    XorLittleEndian(xs, ys);
  }

  /** A lane of the shuffled vector is the partner lane's word. */
  lemma SwappedLane(v: seq<Byte>, k: nat)
    requires ByteSpecies(|v|) && k < |v| / 8
    ensures LongHash.Partner(k) < |v| / 8
    ensures ReinterpretAsLongs(Rearrange(v))[k] == ReadLong(v, 8 * LongHash.Partner(k))
  {
    var shuffled := Rearrange(v);
    var from := 8 * LongHash.Partner(k);
    forall t | 8 * k <= t < 8 * k + 8
      ensures shuffled[t] == v[t - 8 * k + from]
    {
      ShuffledByte(v, k, t);
    }
    assert SameBytes(shuffled, 8 * k, v, from, 8);
    ReadLongWindow(shuffled, 8 * k, v, from, 8, 0, 8 * k, from);
  }

  /** Byte t of the shuffled vector, inside word k, is the same byte of word k's partner. */
  lemma ShuffledByte(v: seq<Byte>, k: nat, t: nat)
    requires ByteSpecies(|v|) && 8 * k <= t < 8 * k + 8 && t < |v|
    ensures 8 * LongHash.Partner(k) + (t - 8 * k) < |v|
    ensures Rearrange(v)[t] == v[8 * LongHash.Partner(k) + (t - 8 * k)]
  {
    ByteShuffleSwapsWords(t);
    assert t / 8 == k && t % 8 == t - 8 * k;
  }

  /**
   * The words of a chunk's vectors, loaded from lane `i`, are the stripe's
   * words of lanes i + k: so a lane computed from the chunk's words is the
   * specification's lane i + k of the stripe. The partner of lane i + k is
   * inside the same chunk because a chunk starts at an even lane.
   */
  lemma ChunkOfStripe(acc: LongHash.Lanes, input: seq<Byte>, offset: nat, secretOffset: nat, lanes: nat, i: nat, k: nat,
                      value: Word)
    requires LongHash.StripeFits(input, offset, secretOffset) && Species(lanes)
    requires i % 2 == 0 && i + lanes <= 8 && k < lanes && LongHash.Partner(k) < lanes
    requires value == LongHash.AccumulateLane(acc[i..i + lanes][k],
                                              ReadLong(input[offset + i * 8..offset + i * 8 + 8 * lanes], 8 * k),
                                              ReadLong(input[offset + i * 8..offset + i * 8 + 8 * lanes], 8 * LongHash.Partner(k)),
                                              ReadLong(SECRET[secretOffset + i * 8..secretOffset + i * 8 + 8 * lanes], 8 * k))
    ensures value == LongHash.StripeLane(acc, input, offset, secretOffset, i + k)
  {
    ChunkWords(input, offset, secretOffset, lanes, i, k);
    assert acc[i..i + lanes][k] == acc[i + k];
  }

  /** The words a chunk at lane i reads for its lane k are the stripe's words for lane i + k. */
  lemma ChunkWords(input: seq<Byte>, offset: nat, secretOffset: nat, lanes: nat, i: nat, k: nat)
    requires LongHash.StripeFits(input, offset, secretOffset) && Species(lanes)
    requires i % 2 == 0 && i + lanes <= 8 && k < lanes && LongHash.Partner(k) < lanes
    ensures LongHash.Partner(i + k) == i + LongHash.Partner(k)
    ensures ReadLong(input[offset + i * 8..offset + i * 8 + 8 * lanes], 8 * k) == LongHash.InputWord(input, offset, i + k)
    ensures ReadLong(input[offset + i * 8..offset + i * 8 + 8 * lanes], 8 * LongHash.Partner(k))
            == LongHash.InputWord(input, offset, LongHash.Partner(i + k))
    ensures ReadLong(SECRET[secretOffset + i * 8..secretOffset + i * 8 + 8 * lanes], 8 * k) == LongHash.SecretWord(secretOffset, i + k)
  {
    PartnerInChunk(i, k);
    ChunkInputWord(input, offset, lanes, i, k, i + k);
    ChunkInputWord(input, offset, lanes, i, LongHash.Partner(k), LongHash.Partner(i + k));
    ChunkSecretWord(secretOffset, lanes, i, k, i + k);
  }

  /** Lane k of a chunk that starts at an even lane i has its partner at i plus the partner of k. */
  lemma PartnerInChunk(i: nat, k: nat)
    requires i % 2 == 0 && i + k < 8
    ensures LongHash.Partner(i + k) == i + LongHash.Partner(k)
  {
  }

  /** Word k of the chunk's input vector at lane i is input word j = i + k of the stripe. */
  lemma ChunkInputWord(input: seq<Byte>, offset: nat, lanes: nat, i: nat, k: nat, j: nat)
    requires offset + STRIPE_LENGTH <= |input| && i + lanes <= 8 && k < lanes && j == i + k
    ensures ReadLong(input[offset + i * 8..offset + i * 8 + 8 * lanes], 8 * k) == LongHash.InputWord(input, offset, j)
  {
    ReadLongOfSlice(input, offset + i * 8, 8 * lanes, 8 * k, offset + 8 * j);
  }

  /** Word k of the chunk's secret vector at lane i is secret word j = i + k of the stripe. */
  lemma ChunkSecretWord(secretOffset: nat, lanes: nat, i: nat, k: nat, j: nat)
    requires secretOffset + STRIPE_LENGTH <= SECRET_LENGTH && i + lanes <= 8 && k < lanes && j == i + k
    ensures ReadLong(SECRET[secretOffset + i * 8..secretOffset + i * 8 + 8 * lanes], 8 * k) == LongHash.SecretWord(secretOffset, j)
  {
    ReadLongOfSlice(SECRET, secretOffset + i * 8, 8 * lanes, 8 * k, secretOffset + 8 * j);
  }

  /** `high.mul(low)` is the scalar engine's `multiplyHighLow`. */
  lemma ProductOfHalves(key: Word)
    ensures Mul(Shr(key, 32), And(key, 0xFFFF_FFFF)) == MultiplyHighLow(key)
  {
  }

  /**
   * The body of the `accumulate` chunk loop: the input bytes keyed with the
   * secret bytes and read as longs, split into halves and multiplied; the
   * shuffled input read as longs; both added to the accumulators. Lane k of
   * the result is the stripe's lane update of accumulator k from input word
   * k, the word of its partner k xor 1, and secret word k.
   */
  method AccumulateChunk(accumulatorsVector: seq<Word>, inputVector: seq<Byte>, secretVector: seq<Byte>) returns (result: seq<Word>)
    requires |inputVector| == |secretVector| == 8 * |accumulatorsVector| && Species(|accumulatorsVector|)
    ensures |result| == |accumulatorsVector|
    ensures forall k :: 0 <= k < |result| ==>
              && LongHash.Partner(k) < |result|
              && result[k] == LongHash.AccumulateLane(accumulatorsVector[k], ReadLong(inputVector, 8 * k),
                                                      ReadLong(inputVector, 8 * LongHash.Partner(k)), ReadLong(secretVector, 8 * k))
  {
    var key := ReinterpretAsLongs(XorBytes(inputVector, secretVector));
    var low := AndLanes(key, 0xFFFF_FFFF);
    var high := ShrLanes(key, 32);
    var product := MulLanes(high, low);
    var swapped := ReinterpretAsLongs(Rearrange(inputVector));
    result := AddLanes(AddLanes(accumulatorsVector, swapped), product);
    forall k | 0 <= k < |result|
      ensures LongHash.Partner(k) < |result|
      ensures result[k] == LongHash.AccumulateLane(accumulatorsVector[k], ReadLong(inputVector, 8 * k),
                                                   ReadLong(inputVector, 8 * LongHash.Partner(k)), ReadLong(secretVector, 8 * k))
    {
      KeyLane(inputVector, secretVector, k);
      SwappedLane(inputVector, k);
      ProductOfHalves(key[k]);
    }
  }

  /**
   * The body of the `scramble` chunk loop for the chunk at lane `i`: load the
   * scramble secret's longs for these lanes, xorshift by 47, key, multiply by
   * PRIME32_1. Lane k of the result is the specification's scrambled lane i + k.
   */
  method ScrambleChunk(vector: seq<Word>, i: nat) returns (result: seq<Word>)
    requires Species(|vector|) && i + |vector| <= 8
    ensures |result| == |vector|
    ensures forall k :: 0 <= k < |result| ==> result[k] == LongHash.ScrambleLane(vector[k], i + k)
  {
    var bytes := SECRET[(SECRET_LENGTH - STRIPE_LENGTH) + i * 8..(SECRET_LENGTH - STRIPE_LENGTH) + i * 8 + 8 * |vector|];
    var secret := ReinterpretAsLongs(bytes);
    var shifted := XorLanes(vector, ShrLanes(vector, 47));
    var keyed := XorLanes(shifted, secret);
    result := MulScalar(keyed, PRIME32_1);
    forall k | 0 <= k < |result|
      ensures result[k] == LongHash.ScrambleLane(vector[k], i + k)
    {
      ScrambleSecretLane(bytes, |vector|, i, k);
      assert shifted[k] == Xor(vector[k], Shr(vector[k], 47));
      assert result[k] == Mul(Xor(shifted[k], secret[k]), PRIME32_1);
    }
  }

  /** Lane k of the scramble secret loaded at lane i is the scramble secret word of lane i + k. */
  lemma ScrambleSecretLane(bytes: seq<Byte>, lanes: nat, i: nat, k: nat)
    requires i + lanes <= 8 && k < lanes
    requires bytes == SECRET[(SECRET_LENGTH - STRIPE_LENGTH) + i * 8..(SECRET_LENGTH - STRIPE_LENGTH) + i * 8 + 8 * lanes]
    ensures ReinterpretAsLongs(bytes)[k] == ReadLong(SECRET, SECRET_LENGTH - STRIPE_LENGTH + (i + k) * 8)
  {
    ReadLongOfSlice(SECRET, (SECRET_LENGTH - STRIPE_LENGTH) + i * 8, 8 * lanes, 8 * k, SECRET_LENGTH - STRIPE_LENGTH + (i + k) * 8);
  }

  // ---------------------------------------------------------------------
  // The engine
  // ---------------------------------------------------------------------

  /** `hash`: the vector engine, for any of the modelled species, computes the long-input digest. */
  method Hash(input: seq<Byte>, offset: nat, length: nat, lanes: nat) returns (h: Word)
    requires LongHash.Window(input, offset, length) && length >= STRIPE_LENGTH && Species(lanes)
    ensures h == LongHash.Digest(input, offset, length)
  {
    var accumulators := new Word[8] [PRIME32_3, PRIME64_1, PRIME64_2, PRIME64_3, PRIME64_4, PRIME32_2, PRIME64_5, PRIME32_1];
    assert accumulators[..] == LongHash.INITIAL_LANES;

    LongHash.BlockGeometry();
    var stripesPerBlock := (SECRET_LENGTH - STRIPE_LENGTH) / SECRET_CONSUME_RATE;
    var blockLength := STRIPE_LENGTH * stripesPerBlock;
    var blockCount := (length - 1) / blockLength;
    assert stripesPerBlock == LongHash.STRIPES_PER_BLOCK;
    assert blockLength == LongHash.BLOCK_LENGTH && blockCount == LongHash.BlockCount(length);

    for block := 0 to blockCount
      invariant accumulators[..] == LongHash.Blocks(input, offset, block)
    {
      var blockOffset := offset + block * blockLength;
      AccumulateStripes(accumulators, input, blockOffset, stripesPerBlock, lanes);
      Scramble(accumulators, lanes);
      LongHash.BlocksStep(input, offset, block, block + 1, blockOffset, stripesPerBlock);
    }

    var stripeCount := ((length - 1) - (blockLength * blockCount)) / STRIPE_LENGTH;
    assert stripeCount == LongHash.TrailingStripes(length);
    LongHash.LongGeometry(length);
    var trailingOffset := offset + blockCount * blockLength;
    AccumulateStripes(accumulators, input, trailingOffset, stripeCount, lanes);

    var lastOffset := offset + length - STRIPE_LENGTH;
    var lastSecretOffset := SECRET_LENGTH - STRIPE_LENGTH - SECRET_LAST_ACCUMULATOR_START;
    Accumulate(accumulators, input, lastOffset, lastSecretOffset, lanes);
    LongHash.FinalStep(input, offset, length, blockCount, trailingOffset, stripeCount, lastOffset, lastSecretOffset);

    h := Merge(length, accumulators[..]);
    MergeIsSpecified(length, accumulators[..]);
  }

  /** The stripe loop of one block, and of the trailing stripes. */
  method AccumulateStripes(accumulators: array<Word>, input: seq<Byte>, base: nat, count: nat, lanes: nat)
    requires accumulators.Length == 8 && Species(lanes)
    requires base + count * STRIPE_LENGTH <= |input| && count <= LongHash.STRIPES_PER_BLOCK
    modifies accumulators
    ensures accumulators[..] == LongHash.Stripes(old(accumulators[..]), input, base, count)
  {
    ghost var initial: LongHash.Lanes := accumulators[..];
    for stripe := 0 to count
      invariant base + stripe * STRIPE_LENGTH <= |input|
      invariant accumulators[..] == LongHash.Stripes(initial, input, base, stripe)
    {
      LongHash.StripeInRun(base, stripe, count, |input|);
      AccumulateStripe(accumulators, initial, input, base, stripe, lanes);
    }
  }

  /** One pass of the stripe loop: stripe `stripe` of the run at `base` extends the run. */
  method AccumulateStripe(accumulators: array<Word>, ghost initial: LongHash.Lanes, input: seq<Byte>, base: nat, stripe: nat,
                          lanes: nat)
    requires accumulators.Length == 8 && Species(lanes)
    requires base + (stripe + 1) * STRIPE_LENGTH <= |input| && stripe < LongHash.STRIPES_PER_BLOCK
    requires accumulators[..] == LongHash.Stripes(initial, input, base, stripe)
    modifies accumulators
    ensures accumulators[..] == LongHash.Stripes(initial, input, base, stripe + 1)
  {
    var stripeOffset := base + stripe * STRIPE_LENGTH;
    var secretOffset := stripe * SECRET_CONSUME_RATE;
    Accumulate(accumulators, input, stripeOffset, secretOffset, lanes);
  }

  /**
   * `accumulate`: the chunk loop. Each pass loads `lanes` accumulators and
   * the matching input and secret bytes, and stores the chunk's result back;
   * when the loop ends every lane holds the specification's stripe.
   */
  method Accumulate(accumulators: array<Word>, input: seq<Byte>, offset: nat, secretOffset: nat, lanes: nat)
    requires accumulators.Length == 8 && Species(lanes)
    requires LongHash.StripeFits(input, offset, secretOffset)
    modifies accumulators
    ensures accumulators[..] == LongHash.Accumulate(old(accumulators[..]), input, offset, secretOffset)
  {
    ghost var before: LongHash.Lanes := accumulators[..];
    LoopBoundCoversLanes(lanes);
    var i := 0;
    while i < LoopBound(accumulators.Length, lanes)
      invariant AccumulatedUpTo(accumulators, before, input, offset, secretOffset, i, lanes)
      decreases 8 - i
    {
      AccumulateStep(accumulators, before, input, offset, secretOffset, i, lanes);
      i := i + lanes;
    }
    AccumulatedAll(accumulators, before, input, offset, secretOffset, i, lanes);
  }

  /** When the loop has passed every lane, the array is the stripe's lanes. */
  lemma AccumulatedAll(accumulators: array<Word>, before: LongHash.Lanes, input: seq<Byte>, offset: nat,
                       secretOffset: nat, i: nat, lanes: nat)
    requires LongHash.StripeFits(input, offset, secretOffset)
    requires AccumulatedUpTo(accumulators, before, input, offset, secretOffset, i, lanes) && i >= 8
    ensures accumulators[..] == LongHash.Accumulate(before, input, offset, secretOffset)
  {
  }

  /** The first i lanes hold the stripe's lanes, the others are untouched, and i starts a chunk. */
  ghost predicate AccumulatedUpTo(accumulators: array<Word>, before: LongHash.Lanes, input: seq<Byte>, offset: nat,
                                  secretOffset: nat, i: nat, lanes: nat)
    requires LongHash.StripeFits(input, offset, secretOffset)
    reads accumulators
  {
    && accumulators.Length == 8 && Species(lanes) && ChunkStart(i, lanes) && i <= 8
    && (forall j :: 0 <= j < i ==> accumulators[j] == LongHash.StripeLane(before, input, offset, secretOffset, j))
    && (forall j :: i <= j < 8 ==> accumulators[j] == before[j])
  }

  /** One pass of the `accumulate` chunk loop: the chunk at lane i. */
  method AccumulateStep(accumulators: array<Word>, ghost before: LongHash.Lanes, input: seq<Byte>, offset: nat,
                        secretOffset: nat, i: nat, lanes: nat)
    requires LongHash.StripeFits(input, offset, secretOffset)
    requires AccumulatedUpTo(accumulators, before, input, offset, secretOffset, i, lanes) && i < 8
    modifies accumulators
    ensures AccumulatedUpTo(accumulators, before, input, offset, secretOffset, i + lanes, lanes)
  {
    ChunkNext(i, lanes);
    var accumulatorsVector := accumulators[i..i + lanes];
    var inputVector := input[offset + i * 8..offset + i * 8 + 8 * lanes];
    var secretVector := SECRET[secretOffset + i * 8..secretOffset + i * 8 + 8 * lanes];
    var result := AccumulateChunk(accumulatorsVector, inputVector, secretVector);
    assert accumulatorsVector == before[i..i + lanes];
    forall k | 0 <= k < lanes
      ensures result[k] == LongHash.StripeLane(before, input, offset, secretOffset, i + k)
    {
      ChunkOfStripe(before, input, offset, secretOffset, lanes, i, k, result[k]);
    }
    IntoArray(accumulators, result, i);
  }

  /** `scramble`: the chunk loop over the accumulators with the scramble secret. */
  method Scramble(accumulators: array<Word>, lanes: nat)
    requires accumulators.Length == 8 && Species(lanes)
    modifies accumulators
    ensures accumulators[..] == LongHash.Scramble(old(accumulators[..]))
  {
    ghost var before: LongHash.Lanes := accumulators[..];
    LoopBoundCoversLanes(lanes);
    var i := 0;
    while i < LoopBound(accumulators.Length, lanes)
      invariant ScrambledUpTo(accumulators, before, i, lanes)
      decreases 8 - i
    {
      ScrambleStep(accumulators, before, i, lanes);
      i := i + lanes;
    }
    ScrambledAll(accumulators, before, i, lanes);
  }

  /** When the loop has passed every lane, the array is the scrambled lanes. */
  lemma ScrambledAll(accumulators: array<Word>, before: LongHash.Lanes, i: nat, lanes: nat)
    requires ScrambledUpTo(accumulators, before, i, lanes) && i >= 8
    ensures accumulators[..] == LongHash.Scramble(before)
  {
  }

  /** The first i lanes are scrambled, the others untouched, and i starts a chunk. */
  ghost predicate ScrambledUpTo(accumulators: array<Word>, before: LongHash.Lanes, i: nat, lanes: nat)
    reads accumulators
  {
    && accumulators.Length == 8 && Species(lanes) && ChunkStart(i, lanes) && i <= 8
    && (forall j :: 0 <= j < i ==> accumulators[j] == LongHash.ScrambleLane(before[j], j))
    && (forall j :: i <= j < 8 ==> accumulators[j] == before[j])
  }

  /** One pass of the `scramble` chunk loop: the chunk at lane i. */
  method ScrambleStep(accumulators: array<Word>, ghost before: LongHash.Lanes, i: nat, lanes: nat)
    requires ScrambledUpTo(accumulators, before, i, lanes) && i < 8
    modifies accumulators
    ensures ScrambledUpTo(accumulators, before, i + lanes, lanes)
  {
    ChunkNext(i, lanes);
    var vector := accumulators[i..i + lanes];
    var result := ScrambleChunk(vector, i);
    assert vector == before[i..i + lanes];
    IntoArray(accumulators, result, i);
  }

  /** A chunk that starts below lane 8 ends at lane 8 at the latest, where the next chunk starts. */
  lemma ChunkNext(i: nat, lanes: nat)
    requires Species(lanes) && ChunkStart(i, lanes) && i < 8
    ensures i + lanes <= 8 && ChunkStart(i + lanes, lanes)
  {
  }

  /** `intoArray(accumulators, i)`: the vector's lanes overwrite the array from index i; nothing else changes. */
  method IntoArray(accumulators: array<Word>, vector: seq<Word>, i: nat)
    requires i + |vector| <= accumulators.Length
    modifies accumulators
    ensures forall j :: i <= j < i + |vector| ==> accumulators[j] == vector[j - i]
    ensures forall j :: 0 <= j < accumulators.Length && !(i <= j < i + |vector|) ==> accumulators[j] == old(accumulators[j])
  {
    forall j | 0 <= j < |vector| {
      accumulators[i + j] := vector[j];
    }
  }

  /** `merge`: length * PRIME64_1 plus `mix` of the four lane pairs, written out, then `avalanche`. */
  function Merge(length: nat, accumulators: seq<Word>): Word
    requires length < WORD_MODULUS && |accumulators| == 8
  {
    var result := Mul(length, PRIME64_1);
    var result1 := Add(result, Mix(accumulators[2 * 0], accumulators[2 * 0 + 1],
                                   ReadLong(SECRET, SECRET_MERGE_ACCUMULATORS_START + 16 * 0),
                                   ReadLong(SECRET, SECRET_MERGE_ACCUMULATORS_START + 16 * 0 + 8)));
    var result2 := Add(result1, Mix(accumulators[2 * 1], accumulators[2 * 1 + 1],
                                    ReadLong(SECRET, SECRET_MERGE_ACCUMULATORS_START + 16 * 1),
                                    ReadLong(SECRET, SECRET_MERGE_ACCUMULATORS_START + 16 * 1 + 8)));
    var result3 := Add(result2, Mix(accumulators[2 * 2], accumulators[2 * 2 + 1],
                                    ReadLong(SECRET, SECRET_MERGE_ACCUMULATORS_START + 16 * 2),
                                    ReadLong(SECRET, SECRET_MERGE_ACCUMULATORS_START + 16 * 2 + 8)));
    var result4 := Add(result3, Mix(accumulators[2 * 3], accumulators[2 * 3 + 1],
                                    ReadLong(SECRET, SECRET_MERGE_ACCUMULATORS_START + 16 * 3),
                                    ReadLong(SECRET, SECRET_MERGE_ACCUMULATORS_START + 16 * 3 + 8)));
    Avalanche(result4)
  }

  /** The written-out merge is the specification's four-pair merge, that is the scalar engine's merge loop. */
  lemma MergeIsSpecified(length: nat, accumulators: seq<Word>)
    requires length < WORD_MODULUS && |accumulators| == 8
    ensures Merge(length, accumulators) == LongHash.Merge(length, accumulators)
  {
    var lanes: LongHash.Lanes := accumulators;
    assert LongHash.MergeSum(length, lanes, 1) == Add(Mul(length, PRIME64_1), LongHash.MergePair(lanes, 0));
    assert LongHash.MergeSum(length, lanes, 2) == Add(LongHash.MergeSum(length, lanes, 1), LongHash.MergePair(lanes, 1));
    assert LongHash.MergeSum(length, lanes, 3) == Add(LongHash.MergeSum(length, lanes, 2), LongHash.MergePair(lanes, 2));
  }
}
