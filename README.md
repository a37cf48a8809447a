# XXH3-64 in Dafny

A model of the Java port of the 64-bit XXH3 hash (default secret, no seed)
in the package `org.weakref.xxh`.

`Xxh3.hash64` sorts its input window `input[offset..offset+length]` by
length into seven bands:

- the empty input;
- 1 to 3 bytes;
- 4 to 8 bytes;
- 9 to 16 bytes;
- 17 to 128 bytes;
- 129 to 240 bytes;
- longer inputs.

The short bands are closed formulas over a few words read from both ends of the window.

Longer inputs go to a long-input engine. The engine keeps eight 64-bit accumulator lanes:

- it adds each 64-byte stripe into them;
- it scrambles them after every 1024-byte block;
- it accumulates one last stripe that ends at the window's end;
- it merges the eight lanes into the result.

The source has three such engines:

- a scalar loop over an array of lanes;
- an unrolled version over eight locals;
- a Java Vector API version that works on chunks of 2, 4 or 8 lanes at once.

The model is split into these modules:

- `words.dfy` (`Words`): Java `long` arithmetic over `Word`, an integer in `[0, 2^64)`.
  - `+` and `*` wrap modulo 2^64.
  - `>>>` halves repeatedly.
  - `&`, `|` and `^` fold over the 64 bits.
  - It also holds byte strings and `Long.reverseBytes`.
- `constants.dfy` (`Constants`): the stripe geometry, the primes and the 192-byte secret.
- `util.dfy` (`Util`): Util.java. This covers the little-endian reads, `multiplyAndFold`, `mix`, `multiplyHighLow` and `avalanche`.
- `xxh3.dfy` (`Xxh3`):
  - the band choice and the short bands, as functions;
  - `hash17to128` as the source's cursor code, and `hash129to240` as its two loops, each proved equal to a closed form;
  - `hash64` as a dispatching method over each of the three engines.
- `xxh3_window.dfy` (`Xxh3Window`): every band reads only the bytes of its window. So the hash does not depend on the offset.
- `long_hash.dfy` (`LongHash`): the long-input path stated once, as functions.
  - These give one stripe, one scramble, the stripe and block schedule, the merge, and the whole `Digest`.
  - It also proves that the schedule reads the window only.
- `long_hash_scalar.dfy`, `long_hash_unrolled.dfy` and `long_hash_vector.dfy`: the three engines, each imperative as in the source. Each is proved to compute `LongHash.Digest`, so all three agree.
  - The scalar engine works on an `array` of lanes.
  - The unrolled engine works on eight locals.
  - The vector engine works on the array, one chunk at a time. Vectors are sequences, and each lane-wise operation is a function.

## Model

| member | source | states |
|---|---|---|
| Xxh3.Hash64 | src/main/java/org/weakref/xxh/Xxh3.java:46-73 | `hash64` as one function of the window: the routine of its length band; it admits a length-0 call at any offset, as the source does; ComputeHash64 computes it with any engine, and Hash64Window and Hash64OfCopy show that it depends on the window's bytes only |
| Xxh3.BandOf | src/main/java/org/weakref/xxh/Xxh3.java:46-65 | the band is Empty iff the length is 0, 1-3 bytes iff 1 <= length <= 3, and so on up to Long iff length > 240, so exactly one band is taken for every length |
| Xxh3.ComputeHash64 | src/main/java/org/weakref/xxh/Xxh3.java:33-73 | `hash64` with the length tests in order, the cursor and loop methods for 17 to 240 bytes and any of the scalar, unrolled or vector (128/256/512-bit) engines beyond: the result is `Hash64` whichever engine is used |
| Xxh3Window.Hash64Empty | src/main/java/org/weakref/xxh/Xxh3.java:48-50 | for length 0 the hash is the same for every array and every offset, in range or not: the finaliser of two secret words |
| Xxh3.HashEmpty | src/main/java/org/weakref/xxh/Xxh3.java:48-50 | the empty-input hash: `xxh64Avalanche` of the xor of the secret words at 56 and 64, read from no input (Hash64Empty) |
| Xxh3.Xxh64Avalanche | src/main/java/org/weakref/xxh/Xxh3.java:226-234 | the XXH64 finaliser: xorshift by 33, times PRIME64_2, xorshift by 29, times PRIME64_3, xorshift by 32; UnXxh64Avalanche inverts it (Xxh64AvalancheInvertible) |
| Xxh3.Xxh64AvalancheInvertible | src/main/java/org/weakref/xxh/Xxh3.java:226-234 | UnXxh64Avalanche recovers every argument: undo the xorshift by 32, multiply by the inverse of PRIME64_3, undo the xorshift by 29 in two steps, multiply by the inverse of PRIME64_2, undo the xorshift by 33 |
| Xxh3.Xxh64AvalancheInjective | src/main/java/org/weakref/xxh/Xxh3.java:226-234 | two words have the same XXH64 final iff they are equal |
| Words.XorShiftTwoStep | src/main/java/org/weakref/xxh/Xxh3.java:230 | an xorshift by 22 to 31 bits, a shift below half the word, is undone by `y ^ (y >>> s) ^ (y >>> 2s)` |
| Xxh3.StrongAvalanche | src/main/java/org/weakref/xxh/Xxh3.java:240-247 | the rrmxmx finaliser: rotate-xor, times PRIME_MX2, xor with `(v >>> 35) + length`, times PRIME_MX2, xorshift by 28; after the rotate-xor it is inverted for each length (StrongAvalancheUnwinds) |
| Xxh3.LengthStepInvolution | src/main/java/org/weakref/xxh/Xxh3.java:244 | for a non-negative int length, `v ^ ((v >>> 35) + length)` undoes itself: the sum stays below 2^35, so bits 35 and up, and with them the sum, are unchanged |
| Xxh3.StrongAvalancheUnwinds | src/main/java/org/weakref/xxh/Xxh3.java:240-247 | from the result and the length, UnStrongAvalanche recovers the rotate-xor `v ^ rotl(v, 49) ^ rotl(v, 24)` of the value |
| Xxh3.StrongAvalancheCollisions | src/main/java/org/weakref/xxh/Xxh3.java:240-247 | for one length, two values give the same result iff their rotate-xors are equal |
| Words.RotateLeft | src/main/java/org/weakref/xxh/Xxh3.java:242 | `Long.rotateLeft` as `(v << n) \| (v >>> (64 - n))`; its value is RotateLeftValue and rotating back is RotateLeftInverse |
| Words.RotateLeftValue | src/main/java/org/weakref/xxh/Xxh3.java:242 | the low 64 - n bits move up by n places and the top n bits come round to the bottom: rotl(v, n) = (v mod 2^(64-n)) 2^n + v / 2^(64-n) |
| Words.RotateLeftInverse | src/main/java/org/weakref/xxh/Xxh3.java:242 | rotating left by n and then by 64 - n gives the word back |
| Xxh3Window.Hash64Window | src/main/java/org/weakref/xxh/Xxh3.java:46-73 | two inputs whose windows hold the same bytes hash alike, in every band: no byte outside the window is read |
| Xxh3Window.Hash64OfCopy | src/main/java/org/weakref/xxh/Xxh3.java:46-73 | offset invariance: the hash at `offset` equals the hash of the copied window at offset 0 |
| Xxh3Window.Hash1To3Window | src/main/java/org/weakref/xxh/Xxh3.java:75-82 | `hash1to3` reads only the first, middle and last byte of its window |
| Xxh3.Hash1To3 | src/main/java/org/weakref/xxh/Xxh3.java:75-82 | `hash1to3`: the packed first, middle and last byte and the length (Combine1To3Fields), keyed with the first two secret ints and finalised by `xxh64Avalanche` |
| Xxh3.Combine1To3Fields | src/main/java/org/weakref/xxh/Xxh3.java:77-80 | the packed word is c3 + 2^8 length + 2^16 c1 + 2^24 c2, below 2^32, and each of its four bytes returns its own field |
| Xxh3Window.Hash4To8Window | src/main/java/org/weakref/xxh/Xxh3.java:84-88 | `hash4to8` reads only the first and the last four bytes of its window |
| Xxh3.Hash4To8 | src/main/java/org/weakref/xxh/Xxh3.java:84-88 | `hash4to8`: the first four bytes over the last four (Value4To8Halves), keyed with the secret words at 8 and 16 and finalised by `strongAvalanche` with the length |
| Xxh3.Value4To8Halves | src/main/java/org/weakref/xxh/Xxh3.java:86 | the added value has the first four bytes as its high half and the last four as its low half: the addition never carries |
| Xxh3.NoCarry | src/main/java/org/weakref/xxh/Xxh3.java:86 | a 32-bit value plus another shifted left by 32 is their exact side-by-side sum |
| Xxh3Window.Hash9To16Window | src/main/java/org/weakref/xxh/Xxh3.java:90-96 | `hash9to16` reads only the first and the last word of its window |
| Xxh3.Hash9To16 | src/main/java/org/weakref/xxh/Xxh3.java:90-96 | `hash9to16`: the first and the last word, each keyed with two secret words; their sum with the length, the byte-reversed first word and their fold, avalanched |
| Xxh3.MidRounds | src/main/java/org/weakref/xxh/Xxh3.java:132-173 | the nested length tests run 1 to 4 rounds; their pairs fit in the window and their secret words in the first 128 secret bytes |
| Xxh3.MidRoundsCount | src/main/java/org/weakref/xxh/Xxh3.java:102-115 | the nested tests make (length - 1) / 32 + 1 rounds, the round count of the counting-down loop form; that the loop's sum equals the closed form is not proved |
| Xxh3.Hash17To128 | src/main/java/org/weakref/xxh/Xxh3.java:98-191 | the cursor code returns the closed form: the avalanche of length * PRIME64_1 plus four `mix` pairs per round, front and back |
| Xxh3.CursorRound | src/main/java/org/weakref/xxh/Xxh3.java:117-131 | one level of the cursor code moves each cursor by 16 bytes and takes the accumulator from k rounds of the closed form to k + 1 |
| Xxh3.Mid17To128 | src/main/java/org/weakref/xxh/Xxh3.java:175-190 | the closed form of `hash17to128`: the avalanche of length * PRIME64_1 plus, for each of MidRounds(length) rounds k, the pair 16k from the front and the pair ending 16k from the back; Hash17To128 computes it |
| Xxh3Window.Mid17To128Window | src/main/java/org/weakref/xxh/Xxh3.java:175-190 | the 17 to 128 byte hash reads only pairs inside the window |
| Xxh3Window.MidSumWindow | src/main/java/org/weakref/xxh/Xxh3.java:175-188 | every prefix of the rounds of the closed form reads only the window |
| Xxh3.MidsizeRounds | src/main/java/org/weakref/xxh/Xxh3.java:214-221 | length / 16 is 8 to 15 rounds; each round's pair lies in the window and every secret read stays inside SECRET_MIN_SIZE |
| Xxh3.Hash129To240 | src/main/java/org/weakref/xxh/Xxh3.java:197-224 | the two loops return the closed form: the first eight pairs avalanched, plus the last sixteen bytes and the pairs from 8 to length / 16, avalanched |
| Xxh3.HeadRounds | src/main/java/org/weakref/xxh/Xxh3.java:199-206 | the first loop ends with length * PRIME64_1 plus the `mix` of the first eight pairs, pair i keyed from 16i |
| Xxh3.TailRounds | src/main/java/org/weakref/xxh/Xxh3.java:214-221 | the second loop adds pairs 8 to rounds - 1 to the last pair's `mix`, pair i keyed from 16(i - 8) + 3 |
| Xxh3.Mid129To240 | src/main/java/org/weakref/xxh/Xxh3.java:197-224 | the closed form of `hash129to240`: the avalanched first eight pairs plus the last sixteen bytes and the pairs from 8 to length / 16, avalanched; Hash129To240 computes it |
| Xxh3.MixRound | src/main/java/org/weakref/xxh/Xxh3.java:201-205 | the step of both midsize loops (also lines 216-220), which HeadRounds and TailRounds use: the accumulator plus the `mix` of the two words at the position, keyed with the two secret words at the secret offset; not a property of its own |
| Xxh3Window.Mid129To240Window | src/main/java/org/weakref/xxh/Xxh3.java:197-224 | the 129 to 240 byte hash reads only the window |
| Xxh3Window.MidsizeHeadWindow | src/main/java/org/weakref/xxh/Xxh3.java:200-206 | every prefix of the first loop reads only the window |
| Xxh3Window.MidsizeLastWindow | src/main/java/org/weakref/xxh/Xxh3.java:208-212 | the last sixteen bytes lie in the window |
| Xxh3Window.MidsizeTailWindow | src/main/java/org/weakref/xxh/Xxh3.java:215-221 | every prefix of the second loop reads only the window, whatever its start value |
| Util.ReadLong | src/main/java/org/weakref/xxh/Util.java:47-50 | `readLong`: the eight bytes at the offset as a little-endian word (ReadLongLittleEndian, ReadLongBytes) |
| Util.ReadLongLittleEndian | src/main/java/org/weakref/xxh/Util.java:47-50 | `readLong` is the little-endian value of the eight bytes at the offset |
| Util.ReadLongBytes | src/main/java/org/weakref/xxh/Util.java:47-50 | byte k of the word read is the byte at offset + k; the word's eight bytes are the slice read |
| Util.ReadLongWindow | src/main/java/org/weakref/xxh/Util.java:47-50 | a read depends only on its eight bytes: equal windows give equal words at equal positions |
| Util.ReadUnsignedInt | src/main/java/org/weakref/xxh/Util.java:52-55 | the signed int widened to a long and masked with 0xFFFFFFFF is the unsigned value of the four bytes |
| Util.SignExtensionLow32 | src/main/java/org/weakref/xxh/Util.java:54 | sign extension to 64 bits leaves the low 32 bits unchanged |
| Util.ReadUnsignedIntWindow | src/main/java/org/weakref/xxh/Util.java:52-55 | the four-byte read depends only on its four bytes |
| Util.UnsignedMultiplyHigh | src/main/java/org/weakref/xxh/Util.java:43 | `Math.unsignedMultiplyHigh`: the upper 64 bits of the exact product; with the wrapped product it rebuilds the product (ProductHalves) |
| Util.MultiplyAndFold | src/main/java/org/weakref/xxh/Util.java:40-45 | `multiplyAndFold`: the low half of the 128-bit product xor-ed with its high half; it does not depend on the order of its arguments (MultiplyAndFoldSymmetric) |
| Util.ProductHalves | src/main/java/org/weakref/xxh/Util.java:40-45 | the wrapped product and `unsignedMultiplyHigh` are the low and the high half of the exact 128-bit product |
| Util.MultiplyAndFoldSymmetric | src/main/java/org/weakref/xxh/Util.java:40-45 | `multiplyAndFold` does not depend on the order of its arguments |
| Util.Mix | src/main/java/org/weakref/xxh/Util.java:35-38 | `mix`: the fold of the two words, each xor-ed with its own secret word; swapping the two keyed words leaves it unchanged (MixSymmetric) |
| Util.MixSymmetric | src/main/java/org/weakref/xxh/Util.java:35-38 | swapping the two words together with their secret words leaves `mix` unchanged |
| Util.MultiplyHighLow | src/main/java/org/weakref/xxh/Util.java:57-60 | `multiplyHighLow`: the low 32 bits times the high 32 bits, which never wraps (MultiplyHighLowExact) |
| Util.MultiplyHighLowExact | src/main/java/org/weakref/xxh/Util.java:57-60 | the product of the low and the high 32 bits never wraps: it is the exact natural product |
| Util.Avalanche | src/main/java/org/weakref/xxh/Util.java:27-33 | `avalanche`: xorshift by 37, times PRIME_MX1, xorshift by 32; Unavalanche inverts it (AvalancheInvertible) |
| Util.AvalancheInvertible | src/main/java/org/weakref/xxh/Util.java:27-33 | `avalanche` can be undone: undo the xorshift by 32, multiply by the inverse of PRIME_MX1, undo the xorshift by 37 |
| Util.AvalancheInjective | src/main/java/org/weakref/xxh/Util.java:27-33 | two words have the same avalanche iff they are equal |
| Words.XorShiftInvolution | src/main/java/org/weakref/xxh/Util.java:29-31 | `x ^ (x >>> s)` undoes itself for every shift s of 32 to 63 |
| Words.MulInverse | src/main/java/org/weakref/xxh/Util.java:30 | multiplying by a word's inverse modulo 2^64 undoes a wrapping multiplication |
| Words.ReverseBytes | src/main/java/org/weakref/xxh/Xxh3.java:95 | `Long.reverseBytes`: the word of the same eight bytes in the opposite order (ReverseBytesBytes, ReverseBytesInvolution) |
| Words.ReverseBytesBytes | src/main/java/org/weakref/xxh/Xxh3.java:95 | byte k of `Long.reverseBytes(w)` is byte 7 - k of w |
| Words.ReverseBytesInvolution | src/main/java/org/weakref/xxh/Xxh3.java:95 | reversing the bytes twice gives the word back |
| LongHash.BlockGeometry | src/main/java/org/weakref/xxh/LongHashScalar.java:40-41 | sixteen stripes per block and 1024 bytes per block follow from the secret's length; the last-stripe and scramble secret offsets are 121 and 128 |
| LongHash.Partner | src/main/java/org/weakref/xxh/LongHashScalar.java:73-103 | each lane's partner is the other lane of its word pair: a different lane, in the same pair |
| LongHash.PartnerIsXorOne | src/main/java/org/weakref/xxh/LongHashVector.java:42 | the partner of lane j is j xor 1 |
| LongHash.LongGeometry | src/main/java/org/weakref/xxh/LongHashScalar.java:42-57 | fewer than sixteen trailing stripes remain; the blocks and the trailing stripes stop short of the window's end; the final stripe starts no later than they end, so every byte is read |
| LongHash.AccumulateLane | src/main/java/org/weakref/xxh/LongHashScalar.java:73-79 | one lane after a stripe: it gains its partner's word plus `multiplyHighLow` of its own word keyed with its secret word; the engines' orders of the additions agree (AccumulateLaneOrders) |
| LongHash.Accumulate | src/main/java/org/weakref/xxh/LongHashScalar.java:71-104 | `accumulate` on values: lane j of the stripe is AccumulateLane of lane j, input word j, the partner's input word and secret word j (AccumulateLanes); the three engines' `accumulate` compute it |
| LongHash.AccumulateLanes | src/main/java/org/weakref/xxh/LongHashScalar.java:71-104 | a proof helper with no property of its own: it unfolds the stripe into the display of its eight lane updates, in lane order |
| LongHash.ScrambleLane | src/main/java/org/weakref/xxh/LongHashScalar.java:109-113 | one lane of `scramble`: (lane ^ lane >>> 47 ^ secret word j of the last 64 secret bytes) * PRIME32_1 |
| LongHash.Scramble | src/main/java/org/weakref/xxh/LongHashScalar.java:106-115 | `scramble` on values: every lane scrambled with its own secret word; the three engines' `scramble` compute it |
| LongHash.Stripes | src/main/java/org/weakref/xxh/LongHashScalar.java:45-47 | a run of `count` stripes from `base`, stripe s read at base + 64s and keyed from 8s: the stripe loop of a block and of the trailing stripes (StripesStep extends it by one) |
| LongHash.Blocks | src/main/java/org/weakref/xxh/LongHashScalar.java:44-50 | the whole blocks, each sixteen stripes and then a scramble, from the initial lanes |
| LongHash.FinalLanes | src/main/java/org/weakref/xxh/LongHashScalar.java:38-57 | the lanes after the blocks, the trailing stripes and the final stripe that ends at the window's end (LongGeometry: every byte is read) |
| LongHash.Merge | src/main/java/org/weakref/xxh/LongHashScalar.java:59-68 | `merge`: the avalanche of length * PRIME64_1 plus the `mix` of the four lane pairs, each keyed from 11 + 16i; the engines' merges compute it |
| LongHash.Digest | src/main/java/org/weakref/xxh/LongHashScalar.java:36-69 | the long-input hash: the merge of the final lanes; all three engines return it, and it depends on the window only (DigestWindow) |
| LongHash.AccumulateLaneOrders | src/main/java/org/weakref/xxh/LongHashScalar.java:73-79 | the lane update gives the same wrapping sum whether the product or the partner's word is added first, and also grouped as the unrolled engine writes it |
| LongHash.AccumulateWindow | src/main/java/org/weakref/xxh/LongHashScalar.java:71-104 | a stripe inside the window reads only the window |
| LongHash.StripesWindow | src/main/java/org/weakref/xxh/LongHashScalar.java:44-55 | a run of stripes inside the window reads only the window |
| LongHash.BlocksWindow | src/main/java/org/weakref/xxh/LongHashScalar.java:44-50 | the whole blocks read only the window |
| LongHash.DigestWindow | src/main/java/org/weakref/xxh/LongHashScalar.java:36-69 | the long-input digest depends on the window's bytes only |
| LongHashScalar.Hash | src/main/java/org/weakref/xxh/LongHashScalar.java:36-69 | the scalar engine returns `LongHash.Digest`: initial lanes, blocks of sixteen stripes and a scramble, the trailing stripes, the final stripe and the merge |
| LongHashScalar.AccumulateStripes | src/main/java/org/weakref/xxh/LongHashScalar.java:44-55 | the stripe loop leaves the lanes after `count` stripes from `base`, stripe s keyed from 8s |
| LongHashScalar.AccumulateStripe | src/main/java/org/weakref/xxh/LongHashScalar.java:45-47 | one pass of the stripe loop: the array goes from `stripe` to `stripe + 1` stripes of the run |
| LongHashScalar.Accumulate | src/main/java/org/weakref/xxh/LongHashScalar.java:71-104 | the sixteen in-place additions leave each lane as the stripe's lane update, nothing else changed |
| LongHashScalar.AccumulatePair | src/main/java/org/weakref/xxh/LongHashScalar.java:73-79 | the four statements for a word pair update exactly its two lanes |
| LongHashScalar.LanePair | src/main/java/org/weakref/xxh/LongHashScalar.java:73-79 | the order of the additions in a pair gives the specification's lane updates |
| LongHashScalar.Scramble | src/main/java/org/weakref/xxh/LongHashScalar.java:106-115 | each lane becomes (lane ^ lane >>> 47 ^ secret word) * PRIME32_1 |
| LongHashScalar.Merge | src/main/java/org/weakref/xxh/LongHashScalar.java:59-68 | the merge loop returns the avalanche of length * PRIME64_1 plus the `mix` of the four lane pairs |
| LongHashUnrolled.Hash | src/main/java/org/weakref/xxh/LongHashUnrolled.java:36-158 | the unrolled engine on eight locals returns `LongHash.Digest`, the same value as the scalar engine |
| LongHashUnrolled.AccumulateStripes | src/main/java/org/weakref/xxh/LongHashUnrolled.java:86-108 | the stripe loop over the locals leaves the lanes after `count` stripes |
| LongHashUnrolled.AccumulateStripe | src/main/java/org/weakref/xxh/LongHashUnrolled.java:91-107 | one pass of the stripe loop over the locals: the lanes go from `stripe` to `stripe + 1` stripes of the run |
| LongHashUnrolled.Accumulate | src/main/java/org/weakref/xxh/LongHashUnrolled.java:110-129 | eight reads and eight lane updates give the specification's stripe |
| LongHashUnrolled.UnrolledLane | src/main/java/org/weakref/xxh/LongHashUnrolled.java:122 | `lane += partner + multiplyHighLow(word ^ secret)` is the scalar engine's lane update |
| LongHashUnrolled.Scramble | src/main/java/org/weakref/xxh/LongHashUnrolled.java:75-83 | the eight written-out scramble lines are the specification's scramble |
| LongHashUnrolled.Merge | src/main/java/org/weakref/xxh/LongHashUnrolled.java:131-157 | the four written-out `mix` additions are the specification's merge |
| LongHashVector.LoopBoundCoversLanes | src/main/java/org/weakref/xxh/LongHashVector.java:72 | for every preferred species the chunk loops run to lane 8 |
| LongHashVector.ByteShuffleSwapsWords | src/main/java/org/weakref/xxh/LongHashVector.java:42 | BYTE_SHUFFLE takes byte t of word j from byte t of word j xor 1 |
| LongHashVector.ByteShuffleInvolution | src/main/java/org/weakref/xxh/LongHashVector.java:42 | the shuffle stays in 64 bytes and applying it twice is the identity |
| LongHashVector.KeyLane | src/main/java/org/weakref/xxh/LongHashVector.java:77-79 | lane k of the xor of the byte vectors read as longs is the xor of the words read at 8k |
| LongHashVector.SwappedLane | src/main/java/org/weakref/xxh/LongHashVector.java:85-87 | lane k of the shuffled input read as longs is the partner lane's input word |
| LongHashVector.ProductOfHalves | src/main/java/org/weakref/xxh/LongHashVector.java:81-83 | a proof helper with no property of its own: `high.mul(low)` is `multiplyHighLow`, which holds because the multiply commutes |
| LongHashVector.AccumulateChunk | src/main/java/org/weakref/xxh/LongHashVector.java:73-92 | lane k of a chunk is the scalar lane update from input word k, the partner's word and secret word k |
| LongHashVector.ChunkOfStripe | src/main/java/org/weakref/xxh/LongHashVector.java:73-75 | the words of a chunk loaded at lane i are the stripe's words for lanes i + k, so lane k of the chunk is lane i + k of the stripe |
| LongHashVector.Accumulate | src/main/java/org/weakref/xxh/LongHashVector.java:70-94 | the vector `accumulate` leaves the array as the scalar engine's stripe |
| LongHashVector.AccumulateStep | src/main/java/org/weakref/xxh/LongHashVector.java:73-92 | one chunk moves the boundary between updated and untouched lanes by one species length |
| LongHashVector.ScrambleChunk | src/main/java/org/weakref/xxh/LongHashVector.java:99-105 | lane k of a scrambled chunk at lane i is the scalar engine's scrambled lane i + k |
| LongHashVector.Scramble | src/main/java/org/weakref/xxh/LongHashVector.java:96-107 | the vector `scramble` leaves the array as the scalar engine's scramble |
| LongHashVector.ScrambleStep | src/main/java/org/weakref/xxh/LongHashVector.java:98-106 | one chunk moves the boundary between scrambled and untouched lanes by one species length |
| LongHashVector.IntoArray | src/main/java/org/weakref/xxh/LongHashVector.java:92 | `intoArray` overwrites exactly the chunk's lanes |
| LongHashVector.Merge | src/main/java/org/weakref/xxh/LongHashVector.java:109-134 | the vector engine's `merge`, written out pair by pair; equal to the specification's merge (MergeIsSpecified) |
| LongHashVector.AccumulateStripes | src/main/java/org/weakref/xxh/LongHashVector.java:52-63 | the stripe loops of the vector engine leave the lanes after `count` stripes from `base` |
| LongHashVector.AccumulateStripe | src/main/java/org/weakref/xxh/LongHashVector.java:53-55 | one pass of the stripe loop: the array goes from `stripe` to `stripe + 1` stripes of the run |
| LongHashVector.MergeIsSpecified | src/main/java/org/weakref/xxh/LongHashVector.java:109-134 | the written-out merge equals the specification's merge, which is the scalar merge loop |
| LongHashVector.Hash | src/main/java/org/weakref/xxh/LongHashVector.java:44-68 | the vector engine returns `LongHash.Digest` for every species of 2, 4 or 8 lanes |

## Left out

- XxhNative.java, BenchmarkXxh3.java and TestXxh3.java: a binding to the native library, benchmarks and unit tests comparing against it; none is part of this model.
- LongHashVector.java:136-142 (`main`): a benchmark loop.
- The reflective lookup of HASH_LONG (Xxh3.java:33-44) is not modelled. The engine is a parameter of `Xxh3.ComputeHash64`.
- The source loads `LongHashVector128`, which is not part of this model. The three engines modelled are the two named at lines 37-38 and `LongHashVector`.
- VarHandle and `ByteOrder` reads are modelled as explicit little-endian byte arithmetic.
- Native byte order in `reinterpretAsLongs` is not modelled; the vector engine is modelled as little-endian.
- Vector species other than 128, 256 and 512 bits are not modelled.
- Each chunk covers whole pairs of adjacent lanes. Lane-wise vector operations are modelled on sequences, not on hardware registers.
- Constants.java is not part of this model.
  - The prime values are those of the published xxHash reference.
  - The 192-byte secret is left arbitrary. Every property proved holds for any secret of that length.
- An out-of-range window has no error path. Java throws an array index exception there. For a non-zero length the model instead requires `input[offset..offset+length]` to exist. A length-0 call is admitted at any offset, because Java reads no byte for it and returns the empty-input hash (Xxh3.java:48-50).
- Java `int` overflow of offsets is not modelled. The model requires the array to have at most 2^31 - 1 bytes, as a Java array has (`LongHash.Window`), and every offset computed is at most offset + length, which is at most the array length. So the source's int arithmetic does not wrap for any window the model admits.
- Bytes are unsigned (0 to 255). The source reads signed bytes and masks them with `& 0xFF` before use.
- Xxh3.StrongAvalanche: the first step, `v ^ rotl(v, 49) ^ rotl(v, 24)`, is not proved invertible. It is linear over bits but has no short xorshift inverse. Every step after it is undone for every length from 0 to 2^31 - 1 (StrongAvalancheUnwinds). So the model proves that equal results come from equal rotate-xors, not from equal values.
- Xxh3.MidRoundsCount: only the round count of the commented counting-down loop (Xxh3.java:102-115) is proved to agree with the closed form. The claim that that loop's order of additions gives the same sum is not proved.
- The source's statement blocks are split into methods, without changing the order of statements within a block:
  - `Xxh3.CursorRound`: one level of the nested tests;
  - `Xxh3.MixRound`: the body of both midsize loops;
  - `LongHashScalar.AccumulatePair`: four statements of `accumulate`;
  - the `AccumulateStripe`, `AccumulateStep` and `ScrambleStep` methods: one pass of a loop;
  - `LongHashUnrolled.UnrolledLane`: one lane line.
- LongHashUnrolled.Accumulate: the three copies of the stripe code (LongHashUnrolled.java:56-72, 91-107 and 113-129) are one method, called from all three places.
- LongHashVector.Merge reads the lanes as a sequence taken from the array after the last stripe. The source's `merge` only reads the array.
