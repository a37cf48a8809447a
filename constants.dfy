/**
 * The fixed parameters of XXH3: the stripe geometry of the long-input
 * engine, the offsets at which it consumes the secret, the prime
 * multipliers, and the 192-byte default secret.
 *
 * Constants.java is not part of this model. The prime values are those of
 * the published xxHash reference; the secret is left arbitrary (only its
 * length is fixed), since every property proved here is structural.
 */
module Constants {
  import opened Words

  const STRIPE_LENGTH: nat := 64
  const SECRET_CONSUME_RATE: nat := 8
  const SECRET_LAST_ACCUMULATOR_START: nat := 7
  const SECRET_MERGE_ACCUMULATORS_START: nat := 11
  const SECRET_LENGTH: nat := 192

  /** Largest length of a Java array, so every int offset in range stays below 2^31. */
  const MAX_ARRAY_LENGTH: nat := 0x7FFF_FFFF

  type SecretBytes = s: seq<Byte> | |s| == SECRET_LENGTH witness seq(192, _ => 0)

  /** The default secret: 192 bytes, contents not fixed by this model. */
  const SECRET: SecretBytes

  const PRIME32_1: Word := 0x9E37_79B1
  const PRIME32_2: Word := 0x85EB_CA77
  const PRIME32_3: Word := 0xC2B2_AE3D
  const PRIME64_1: Word := 0x9E37_79B1_85EB_CA87
  const PRIME64_2: Word := 0xC2B2_AE3D_27D4_EB4F
  const PRIME64_3: Word := 0x1656_67B1_9E37_79F9
  const PRIME64_4: Word := 0x85EB_CA77_C2B2_AE63
  const PRIME64_5: Word := 0x27D4_EB2F_1656_67C5
  const PRIME_MX1: Word := 0x1656_6791_9E37_79F9
  const PRIME_MX2: Word := 0x9FB2_1C65_1E98_DF25
}
