/**
 * Java's `long` as an unsigned 64-bit word: an integer in [0, 2^64).
 * Addition and multiplication wrap modulo 2^64, `>>>` is division by a power
 * of two, and the bitwise operators are folds over the bits of their
 * operands. Bytes are octets in [0, 256): the source always reads them
 * through `& 0xFF` or a little-endian view, which sees the same octet.
 */
module Words {

  const WORD_MODULUS: nat := 0x1_0000_0000_0000_0000
  const TWO_32: nat := 0x1_0000_0000

  type Word = w: int | 0 <= w < WORD_MODULUS
  type Byte = b: int | 0 <= b < 256

  function Pow2(n: nat): (r: nat)
    ensures r >= 1
  {
    if n == 0 then 1 else 2 * Pow2(n - 1)
  }

  lemma {:induction false} Pow2Add(a: nat, b: nat)
    ensures Pow2(a + b) == Pow2(a) * Pow2(b)
  {
    if a > 0 {
      var previous := a - 1;
      var sum := previous + b;
      Pow2Add(previous, b);
      assert Pow2(a + b) == 2 * Pow2(sum);
      MulAssoc2(Pow2(previous), Pow2(b));
    }
  }

  /** 2^8 is the number of byte values. */
  lemma Pow2Byte()
    ensures Pow2(8) == 256
  {
  }

  /** 2^32 is the modulus of an unsigned int. */
  lemma Pow2Half()
    ensures Pow2(32) == TWO_32
  {
    Pow2Byte();
    Pow2Double(8, 16);
    Pow2Double(16, 32);
  }

  /** 2^64 is the modulus of a word. */
  lemma Pow2Word()
    ensures Pow2(64) == WORD_MODULUS
  {
    Pow2Half();
    Pow2Double(32, 64);
  }

  /** 2^(2n) is 2^n squared. */
  lemma Pow2Double(n: nat, m: nat)
    requires m == 2 * n
    ensures Pow2(m) == Pow2(n) * Pow2(n)
  {
    Pow2Add(n, n);
  }

  // ---------------------------------------------------------------------
  // Bitwise operators
  // ---------------------------------------------------------------------

  /** The three bitwise operators of Java, applied one bit at a time. */
  datatype BitOp = AndBit | OrBit | XorBit

  function ApplyBit(op: BitOp, x: nat, y: nat): nat
  {
    match op
    case AndBit => if x == 1 && y == 1 then 1 else 0
    case OrBit => if x == 1 || y == 1 then 1 else 0
    case XorBit => if x == y then 0 else 1
  }

  /** The low `n` bits of `a op b`, computed from the least significant bit up. */
  function Bitwise(op: BitOp, a: nat, b: nat, n: nat): nat
  {
    if n == 0 then 0
    else ApplyBit(op, a % 2, b % 2) + 2 * Bitwise(op, a / 2, b / 2, n - 1)
  }

  /** The result of a bitwise operator on `n` bits has at most `n` bits. */
  lemma {:induction false} BitwiseBound(op: BitOp, a: nat, b: nat, n: nat)
    ensures Bitwise(op, a, b, n) < Pow2(n)
  {
    if n > 0 {
      BitwiseBound(op, a / 2, b / 2, n - 1);
    }
  }

  function And(a: Word, b: Word): Word
  {
    BitwiseBound(AndBit, a, b, 64);
    Pow2Word();
    Bitwise(AndBit, a, b, 64)
  }

  function Or(a: Word, b: Word): Word
  {
    BitwiseBound(OrBit, a, b, 64);
    Pow2Word();
    Bitwise(OrBit, a, b, 64)
  }

  function Xor(a: Word, b: Word): Word
  {
    BitwiseBound(XorBit, a, b, 64);
    Pow2Word();
    Bitwise(XorBit, a, b, 64)
  }

  /** Bitwise operators commute. */
  lemma {:induction false} BitwiseSymmetric(op: BitOp, a: nat, b: nat, n: nat)
    ensures Bitwise(op, a, b, n) == Bitwise(op, b, a, n)
  {
    if n > 0 {
      BitwiseSymmetric(op, a / 2, b / 2, n - 1);
    }
  }

  /** Halving a split operand halves its low part and keeps its high part. */
  lemma HalveSplit(x: nat, hx: nat, whole: nat, half: nat, big: nat)
    requires whole == 2 * half && big == x + whole * hx
    ensures big % 2 == x % 2 && big / 2 == x / 2 + half * hx
  {
    MulAssoc2(half, hx);
    DivModSplit(x % 2, x / 2 + half * hx, 2);
  }

  /**
   * A bitwise operator works on the low `m` bits and the bits above them
   * independently: the operands may be split at any bit position.
   */
  lemma BitwiseSplit(op: BitOp, x: nat, y: nat, hx: nat, hy: nat, m: nat, n: nat)
    requires x < Pow2(m) && y < Pow2(m)
    ensures Bitwise(op, x + Pow2(m) * hx, y + Pow2(m) * hy, m + n)
         == Bitwise(op, x, y, m) + Pow2(m) * Bitwise(op, hx, hy, n)
  {
    NatProduct(Pow2(m), hx);
    NatProduct(Pow2(m), hy);
    BitwiseSplitAt(op, x, y, hx, hy, m, n, m + n, Pow2(m), x + Pow2(m) * hx, y + Pow2(m) * hy);
  }

  /** BitwiseSplit with the split operands, the width and 2^m given by name. */
  lemma {:induction false} BitwiseSplitAt(op: BitOp, x: nat, y: nat, hx: nat, hy: nat, m: nat, n: nat,
                                          width: nat, whole: nat, bigX: nat, bigY: nat)
    requires width == m + n && whole == Pow2(m) && x < whole && y < whole
    requires bigX == x + whole * hx && bigY == y + whole * hy
    ensures Bitwise(op, bigX, bigY, width) == Bitwise(op, x, y, m) + whole * Bitwise(op, hx, hy, n)
  {
    if m > 0 {
      var previous := m - 1;
      var half := Pow2(previous);
      NatProduct(half, hx);
      NatProduct(half, hy);
      var lowX, lowY := x / 2, y / 2;
      var halfX: nat, halfY: nat := lowX + half * hx, lowY + half * hy;
      HalveSplit(x, hx, whole, half, bigX);
      HalveSplit(y, hy, whole, half, bigY);
      var rest := previous + n;
      BitwiseSplitAt(op, lowX, lowY, hx, hy, previous, n, rest, half, halfX, halfY);
      var low := Bitwise(op, lowX, lowY, previous);
      var w := Bitwise(op, hx, hy, n);
      var total := Bitwise(op, bigX, bigY, width);
      var lowAll := Bitwise(op, x, y, m);
      BitwiseStep(op, bigX, bigY, width, rest, halfX, halfY);
      BitwiseStep(op, x, y, m, previous, lowX, lowY);
      SplitCombine(total, ApplyBit(op, x % 2, y % 2), Bitwise(op, halfX, halfY, rest), low, half, whole, w, lowAll);
    }
  }

  /** The arithmetic that joins the lowest bit to the split of the halved operands. */
  lemma SplitCombine(total: int, bit: int, rest: int, low: int, half: int, whole: int, w: int, lowAll: int)
    requires total == bit + 2 * rest && rest == low + half * w && lowAll == bit + 2 * low && whole == 2 * half
    ensures total == lowAll + whole * w
  {
    MulAssoc2(half, w);
  }

  /** One bit of a bitwise operator, and the rest on the halved operands. */
  lemma BitwiseStep(op: BitOp, a: nat, b: nat, n: nat, previous: nat, halfA: nat, halfB: nat)
    requires n == previous + 1 && halfA == a / 2 && halfB == b / 2
    ensures Bitwise(op, a, b, n) == ApplyBit(op, a % 2, b % 2) + 2 * Bitwise(op, halfA, halfB, previous)
  {
  }

  lemma NatProduct(a: nat, b: nat)
    ensures a * b >= 0
  {
  }

  lemma MulAssoc2(a: int, b: int)
    ensures 2 * (a * b) == (2 * a) * b
  {
  }

  /** Or and xor with zero return the low bits of the other operand. */
  lemma {:induction false} BitwiseZero(op: BitOp, a: nat, n: nat)
    requires op != AndBit
    requires a < Pow2(n)
    ensures Bitwise(op, a, 0, n) == a
  {
    if n > 0 {
      BitwiseZero(op, a / 2, n - 1);
    }
  }

  /**
   * Or-ing a value below 2^k with a multiple of 2^k adds them: the two have
   * no bit in common.
   */
  lemma OrDisjoint(low: nat, high: nat, k: nat, width: nat, whole: nat)
    requires k <= width && whole == Pow2(k) && low < whole && high < Pow2(width - k)
    ensures Bitwise(OrBit, low, whole * high, width) == low + whole * high
  {
    var rest := width - k;
    var bigY := whole * high;
    BitwiseSplitAt(OrBit, low, 0, 0, high, k, rest, width, whole, low, bigY);
    BitwiseZero(OrBit, low, k);
    BitwiseSymmetric(OrBit, 0, high, rest);
    BitwiseZero(OrBit, high, rest);
  }

  /** The product of `high` with 2^k stays below 2^64 only if `high` is below 2^(64-k). */
  lemma QuotientRoom(high: nat, k: nat, whole: nat)
    requires k <= 64 && whole == Pow2(k) && whole * high < WORD_MODULUS
    ensures high < Pow2(64 - k)
  {
    var room := Pow2(64 - k);
    Pow2Add(k, 64 - k);
    Pow2Word();
    if high >= room {
      MulMonotoneLeft(whole, room, high);
      assert false;
    }
  }

  lemma MulMonotoneLeft(p: nat, a: nat, b: nat)
    requires a <= b
    ensures p * a <= p * b
  {
  }

  /** Or of a word below 2^k with a multiple of 2^k: their sum. */
  lemma OrShifted(low: Word, high: nat, k: nat, whole: nat)
    requires k <= 64 && whole == Pow2(k) && low < whole && whole * high < WORD_MODULUS
    ensures Or(low, whole * high) == low + whole * high
  {
    QuotientRoom(high, k, whole);
    OrDisjoint(low, high, k, 64, whole);
  }

  /**
   * Or of a word with a value below 2^k works on the low k bits only: the
   * high part of the word passes through.
   */
  lemma OrLow(x: nat, y: Word, hx: nat, k: nat, whole: nat, bigX: Word)
    requires k <= 64 && whole == Pow2(k) && x < whole && y < whole && bigX == x + whole * hx
    ensures Or(bigX, y) == Bitwise(OrBit, x, y, k) + whole * hx
  {
    NatProduct(whole, hx);
    QuotientRoom(hx, k, whole);
    var rest := 64 - k;
    BitwiseSplitAt(OrBit, x, y, hx, 0, k, rest, 64, whole, bigX, y);
    BitwiseZero(OrBit, hx, rest);
  }

  /** An addition that does not overflow is the plain sum. */
  lemma AddExact(a: Word, b: Word, sum: nat)
    requires sum == a + b && sum < WORD_MODULUS
    ensures Add(a, b) == sum
  {
  }

  /** A shift that loses no bits is the product with 2^n. */
  lemma ShlExact(a: Word, n: nat, whole: nat)
    requires n < 64 && whole == Pow2(n) && a * whole < WORD_MODULUS
    ensures Shl(a, n) == a * whole
  {
    ShlMul(a, n);
    var product: nat := a * whole;
    assert a * Pow2(n) == product;
    SmallMod(product);
  }

  /** A value below 2^64 is its own reduction. */
  lemma SmallMod(p: nat)
    requires p < WORD_MODULUS
    ensures p % WORD_MODULUS == p
  {
  }

  /** And with zero is zero. */
  lemma {:induction false} AndZero(a: nat, n: nat)
    ensures Bitwise(AndBit, a, 0, n) == 0
  {
    if n > 0 {
      AndZero(a / 2, n - 1);
    }
  }

  /** And with `n` one bits keeps the value when it has at most `n` bits. */
  lemma {:induction false} AndOnes(a: nat, n: nat)
    requires a < Pow2(n)
    ensures Bitwise(AndBit, a, Pow2(n) - 1, n) == a
  {
    if n > 0 {
      assert (Pow2(n) - 1) % 2 == 1 && (Pow2(n) - 1) / 2 == Pow2(n - 1) - 1;
      AndOnes(a / 2, n - 1);
    }
  }

  /** `x ^ 1` flips the lowest bit: it pairs 2i with 2i + 1. */
  lemma XorOne(x: nat, n: nat)
    requires 0 < n && x < Pow2(n)
    ensures Bitwise(XorBit, x, 1, n) == if x % 2 == 0 then x + 1 else x - 1
  {
    BitwiseZero(XorBit, x / 2, n - 1);
  }

  /** Xor-ing the same value in twice gives the first operand back. */
  lemma {:induction false} BitwiseXorTwice(a: nat, b: nat, n: nat)
    requires a < Pow2(n)
    ensures Bitwise(XorBit, Bitwise(XorBit, a, b, n), b, n) == a
  {
    if n > 0 {
      var previous := n - 1;
      var halfA, halfB := a / 2, b / 2;
      BitwiseXorTwice(halfA, halfB, previous);
      var c := Bitwise(XorBit, a, b, n);
      var rest := Bitwise(XorBit, halfA, halfB, previous);
      BitwiseStep(XorBit, a, b, n, previous, halfA, halfB);
      assert c % 2 == ApplyBit(XorBit, a % 2, b % 2) && c / 2 == rest;
      BitwiseStep(XorBit, c, b, n, previous, rest, halfB);
    }
  }

  /** `(a ^ b) ^ b == a` on words. */
  lemma XorTwice(a: Word, b: Word)
    ensures Xor(Xor(a, b), b) == a
  {
    Pow2Word();
    BitwiseXorTwice(a, b, 64);
  }

  /**
   * A shift by at least half the word moves the high bits below the low
   * bits' top, so `x ^ (x >>> s)` keeps the high bits of `x` as they were.
   */
  lemma ShrOfXorShift(x: Word, s: nat)
    requires 32 <= s < 64
    ensures Shr(Xor(x, Shr(x, s)), s) == Shr(x, s)
  {
    var whole := Pow2(s);
    var rest := 64 - s;
    var room := Pow2(rest);
    var high := x / whole;
    var low := x % whole;
    ShrDiv(x, s);
    var y := Shr(x, s);
    Pow2Word();
    Pow2Add(s, rest);
    DivModParts(x, whole);
    QuotientBelowRoom(x, whole, room);
    assert room <= whole by {
      Pow2Add(rest, s - rest);
      MulMonotoneLeft(room, 1, Pow2(s - rest));
    }
    var z := Xor(x, y);
    var lowXor := Bitwise(XorBit, low, y, s);
    BitwiseSplitAt(XorBit, low, y, high, 0, s, rest, 64, whole, x, y);
    BitwiseZero(XorBit, high, rest);
    BitwiseBound(XorBit, low, y, s);
    assert z == lowXor + whole * high;
    ShrDiv(z, s);
    DivModSplit(lowXor, high, whole);
  }

  /** A value is its remainder plus the divisor times its quotient. */
  lemma DivModParts(x: nat, whole: nat)
    requires whole > 0
    ensures x == x % whole + whole * (x / whole)
  {
  }

  /** A value below whole * room divided by `whole` is below `room`. */
  lemma QuotientBelowRoom(x: nat, whole: nat, room: nat)
    requires whole > 0 && x < whole * room
    ensures x / whole < room
  {
    if x / whole >= room {
      MulMonotoneLeft(whole, room, x / whole);
      assert false;
    }
  }

  /** `x ^ (x >>> s)` undoes itself for a shift of at least half the word. */
  lemma XorShiftInvolution(x: Word, s: nat)
    requires 32 <= s < 64
    ensures Xor(Xor(x, Shr(x, s)), Shr(Xor(x, Shr(x, s)), s)) == x
  {
    ShrOfXorShift(x, s);
    XorTwice(x, Shr(x, s));
  }

  /** Multiplying by a word's inverse modulo 2^64 undoes the multiplication. */
  lemma MulInverse(x: Word, p: Word, q: Word)
    requires (p * q) % WORD_MODULUS == 1
    ensures Mul(Mul(x, p), q) == x
  {
    var e := (p * q) / WORD_MODULUS;
    assert p * q == 1 + WORD_MODULUS * e;
    var d := (x * p) / WORD_MODULUS;
    var r := Mul(x, p);
    assert x * p == r + WORD_MODULUS * d;
    assert r * q == x * (p * q) - WORD_MODULUS * (d * q) by {
      assert r * q == (x * p) * q - (WORD_MODULUS * d) * q;
      assert (x * p) * q == x * (p * q);
      assert (WORD_MODULUS * d) * q == WORD_MODULUS * (d * q);
    }
    assert x * (p * q) == x + WORD_MODULUS * (x * e) by {
      assert x * (1 + WORD_MODULUS * e) == x + x * (WORD_MODULUS * e);
      assert x * (WORD_MODULUS * e) == WORD_MODULUS * (x * e);
    }
    DivModSplit(x, x * e - d * q, WORD_MODULUS);
  }

  /** Xor is associative, bit by bit. */
  lemma {:induction false} BitwiseXorAssoc(a: nat, b: nat, c: nat, n: nat)
    ensures Bitwise(XorBit, Bitwise(XorBit, a, b, n), c, n) == Bitwise(XorBit, a, Bitwise(XorBit, b, c, n), n)
  {
    if n > 0 {
      var previous := n - 1;
      BitwiseXorAssoc(a / 2, b / 2, c / 2, previous);
      var ab := Bitwise(XorBit, a, b, n);
      var bc := Bitwise(XorBit, b, c, n);
      var abRest := Bitwise(XorBit, a / 2, b / 2, previous);
      var bcRest := Bitwise(XorBit, b / 2, c / 2, previous);
      BitwiseStep(XorBit, a, b, n, previous, a / 2, b / 2);
      BitwiseStep(XorBit, b, c, n, previous, b / 2, c / 2);
      assert ab % 2 == ApplyBit(XorBit, a % 2, b % 2) && ab / 2 == abRest;
      assert bc % 2 == ApplyBit(XorBit, b % 2, c % 2) && bc / 2 == bcRest;
      BitwiseStep(XorBit, ab, c, n, previous, abRest, c / 2);
      BitwiseStep(XorBit, a, bc, n, previous, a / 2, bcRest);
    }
  }

  /** `(a ^ b) ^ c == a ^ (b ^ c)` on words. */
  lemma XorAssoc(a: Word, b: Word, c: Word)
    ensures Xor(Xor(a, b), c) == Xor(a, Xor(b, c))
  {
    BitwiseXorAssoc(a, b, c, 64);
  }

  /** `a ^ 0 == a` on words. */
  lemma XorZero(a: Word)
    ensures Xor(a, 0) == a
  {
    Pow2Word();
    BitwiseZero(XorBit, a, 64);
  }

  /** Xor of two values of m bits is the same on any wider width. */
  lemma BitwiseXorWiden(a: nat, b: nat, m: nat, n: nat)
    requires m <= n && a < Pow2(m) && b < Pow2(m)
    ensures Bitwise(XorBit, a, b, n) == Bitwise(XorBit, a, b, m)
  {
    var rest := n - m;
    var whole := Pow2(m);
    BitwiseSplitAt(XorBit, a, b, 0, 0, m, rest, n, whole, a, b);
    BitwiseZero(XorBit, 0, rest);
  }

  /** 2^m is at most 2^n when m is at most n. */
  lemma Pow2Monotone(m: nat, n: nat)
    requires m <= n
    ensures Pow2(m) <= Pow2(n)
  {
    Pow2Add(m, n - m);
    MulMonotoneLeft(Pow2(m), 1, Pow2(n - m));
  }

  /** A word shifted right by s has at most 64 - s bits. */
  lemma ShrBelow(x: Word, s: nat)
    requires s < 64
    ensures Shr(x, s) < Pow2(64 - s)
  {
    ShrDiv(x, s);
    Pow2Word();
    Pow2Add(s, 64 - s);
    QuotientBelowRoom(x, Pow2(s), Pow2(64 - s));
  }

  /** A shift by at least a value's width leaves nothing. */
  lemma ShrSmall(x: Word, s: nat)
    requires s < 64 && x < Pow2(s)
    ensures Shr(x, s) == 0
  {
    ShrDiv(x, s);
    DivModSplit(x, 0, Pow2(s));
  }

  /** Two right shifts are one by their total distance. */
  lemma ShrShr(x: Word, a: nat, b: nat)
    requires a + b < 64
    ensures Shr(Shr(x, a), b) == Shr(x, a + b)
  {
    ShrDiv(x, a);
    ShrDiv(Shr(x, a), b);
    ShrDiv(x, a + b);
    Pow2Add(a, b);
    DivDiv(x, Pow2(a), Pow2(b));
  }

  /** `>>>` distributes over `^`: the high bits of an xor are the xor of the high bits. */
  lemma ShrXor(a: Word, b: Word, s: nat)
    requires s < 64
    ensures Shr(Xor(a, b), s) == Xor(Shr(a, s), Shr(b, s))
  {
    var whole := Pow2(s);
    var rest := 64 - s;
    var room := Pow2(rest);
    Pow2Word();
    Pow2Add(s, rest);
    DivModParts(a, whole);
    DivModParts(b, whole);
    var ha, hb := a / whole, b / whole;
    QuotientBelowRoom(a, whole, room);
    QuotientBelowRoom(b, whole, room);
    ShrDiv(a, s);
    ShrDiv(b, s);
    var la, lb := a % whole, b % whole;
    var low := Bitwise(XorBit, la, lb, s);
    var high := Bitwise(XorBit, ha, hb, rest);
    BitwiseSplitAt(XorBit, la, lb, ha, hb, s, rest, 64, whole, a, b);
    BitwiseBound(XorBit, la, lb, s);
    ShrDiv(Xor(a, b), s);
    DivModSplit(low, high, whole);
    BitwiseXorWiden(ha, hb, rest, 64);
  }

  /**
   * `y ^ (y >>> s) ^ (y >>> 2s)`: the inverse of an xorshift by s when s is
   * below half the word but three shifts reach past it.
   */
  function UnXorShift(y: Word, s: nat): Word
    requires 22 <= s < 32
  {
    Xor(Xor(y, Shr(y, s)), Shr(y, 2 * s))
  }

  /** An xorshift by 22 to 31 bits is undone in two steps. */
  lemma XorShiftTwoStep(x: Word, s: nat)
    requires 22 <= s < 32
    ensures UnXorShift(Xor(x, Shr(x, s)), s) == x
  {
    var a := Shr(x, s);
    var b := Shr(x, 2 * s);
    var y := Xor(x, a);
    XorShiftOnce(x, s, a, b, y);
    XorShiftTwice(x, s, a, b, y);
    XorAssoc(y, a, b);
    XorTwice(x, a);
    XorTwice(x, b);
  }

  /** Shifting `x ^ (x >>> s)` by s again leaves `(x >>> s) ^ (x >>> 2s)`. */
  lemma XorShiftOnce(x: Word, s: nat, a: Word, b: Word, y: Word)
    requires s < 32 && a == Shr(x, s) && b == Shr(x, 2 * s) && y == Xor(x, a)
    ensures Shr(y, s) == Xor(a, b)
  {
    ShrShr(x, s, s);
    ShrXor(x, a, s);
  }

  /** Shifting `x ^ (x >>> s)` by 2s leaves `x >>> 2s` when 3s reaches past the word. */
  lemma XorShiftTwice(x: Word, s: nat, a: Word, b: Word, y: Word)
    requires 22 <= s < 32 && a == Shr(x, s) && b == Shr(x, 2 * s) && y == Xor(x, a)
    ensures Shr(y, 2 * s) == b
  {
    var twice := 2 * s;
    ShrXor(x, a, twice);
    ShrBelow(x, s);
    Pow2Monotone(64 - s, twice);
    ShrSmall(a, twice);
    XorZero(b);
  }

  /** `v & 0xFFFFFFFFL` is the remainder of `v` modulo 2^32. */
  lemma AndLow32(v: Word)
    ensures And(v, 0xFFFF_FFFF) == v % TWO_32
  {
    Pow2Half();
    var lo := v % TWO_32;
    var hi := v / TWO_32;
    assert v == lo + Pow2(32) * hi;
    assert 0xFFFF_FFFF == (Pow2(32) - 1) + Pow2(32) * 0;
    BitwiseSplit(AndBit, lo, Pow2(32) - 1, hi, 0, 32, 32);
    AndOnes(lo, 32);
    AndZero(hi, 32);
  }

  // ---------------------------------------------------------------------
  // Arithmetic and shifts
  // ---------------------------------------------------------------------

  /** Java `long` addition: wraps modulo 2^64. */
  function Add(a: Word, b: Word): Word
  {
    (a + b) % WORD_MODULUS
  }

  /** Java `long` multiplication: the low 64 bits of the exact product. */
  function Mul(a: Word, b: Word): Word
  {
    (a * b) % WORD_MODULUS
  }

  /**
   * Wrapping addition is associative and commutative: a chain of three
   * additions is the exact sum reduced once, however it is grouped.
   */
  lemma AddSum3(a: Word, b: Word, c: Word)
    ensures Add(Add(a, b), c) == (a + b + c) % WORD_MODULUS
    ensures Add(a, Add(b, c)) == (a + b + c) % WORD_MODULUS
  {
    if a + b >= WORD_MODULUS {
      DivModSplit(a + b - WORD_MODULUS, 1, WORD_MODULUS);
    }
    if b + c >= WORD_MODULUS {
      DivModSplit(b + c - WORD_MODULUS, 1, WORD_MODULUS);
    }
    ReduceOnce(a + b, c);
    ReduceOnce(b + c, a);
  }

  /** Reducing the first summand before adding does not change the remainder. */
  lemma ReduceOnce(x: nat, c: nat)
    requires x < 2 * WORD_MODULUS
    ensures (x % WORD_MODULUS + c) % WORD_MODULUS == (x + c) % WORD_MODULUS
  {
    if x >= WORD_MODULUS {
      DivModSplit(x - WORD_MODULUS, 1, WORD_MODULUS);
      assert x % WORD_MODULUS == x - WORD_MODULUS;
      var s := x - WORD_MODULUS + c;
      assert (s + WORD_MODULUS) % WORD_MODULUS == s % WORD_MODULUS by {
        DivModSplit(s % WORD_MODULUS, s / WORD_MODULUS + 1, WORD_MODULUS);
        DivModSplit(s % WORD_MODULUS, s / WORD_MODULUS, WORD_MODULUS);
      }
    }
  }

  /**
   * `>>>`: the logical right shift, for a shift distance below 64, as `n`
   * halvings (ShrDiv: the quotient by 2^n).
   */
  function Shr(a: Word, n: nat): (r: Word)
    requires n < 64
    ensures r <= a
  {
    if n == 0 then a else Shr(a, n - 1) / 2
  }

  /** Shifting right by `n` divides by 2^n. */
  lemma {:induction false} ShrDiv(a: Word, n: nat)
    requires n < 64
    ensures Shr(a, n) == a / Pow2(n)
  {
    if n > 0 {
      ShrDiv(a, n - 1);
      DivDiv(a, Pow2(n - 1), 2);
    }
  }

  /** Shifting right by 32 leaves the high half of the word. */
  lemma ShrBy32(a: Word)
    ensures Shr(a, 32) == a / TWO_32
  {
    ShrDiv(a, 32);
    Pow2Half();
  }

  /**
   * `<<`: the left shift, dropping the bits pushed past bit 63, as `n`
   * doublings (ShlMul: the product with 2^n, reduced).
   */
  function Shl(a: Word, n: nat): Word
    requires n < 64
  {
    if n == 0 then a else (2 * Shl(a, n - 1)) % WORD_MODULUS
  }

  /** Shifting left by `n` multiplies by 2^n modulo 2^64. */
  lemma {:induction false} ShlMul(a: Word, n: nat)
    requires n < 64
    ensures Shl(a, n) == (a * Pow2(n)) % WORD_MODULUS
  {
    if n > 0 {
      var previous := n - 1;
      ShlMul(a, previous);
      var p: nat := a * Pow2(previous);
      assert a * Pow2(n) == 2 * p by {
        MulAssoc2(Pow2(previous), a);
      }
      ModDouble(p);
    }
  }

  /** Doubling commutes with the reduction modulo 2^64. */
  lemma ModDouble(p: nat)
    ensures (2 * (p % WORD_MODULUS)) % WORD_MODULUS == (2 * p) % WORD_MODULUS
  {
    var q := p / WORD_MODULUS;
    var r := p % WORD_MODULUS;
    assert 2 * p == 2 * r + WORD_MODULUS * (2 * q);
    if 2 * r < WORD_MODULUS {
      DivModSplit(2 * r, 2 * q, WORD_MODULUS);
    } else {
      DivModSplit(2 * r - WORD_MODULUS, 2 * q + 1, WORD_MODULUS);
      DivModSplit(2 * r - WORD_MODULUS, 1, WORD_MODULUS);
    }
  }

  /** `Long.rotateLeft(v, n)`: `(v << n) | (v >>> (64 - n))`. */
  function RotateLeft(v: Word, n: nat): Word
    requires 0 < n < 64
  {
    Or(Shl(v, n), Shr(v, 64 - n))
  }

  /**
   * The rotation as a value: with whole = 2^n and room = 2^(64 - n), the low
   * 64 - n bits move up by n places and the top n bits come round to the
   * bottom.
   */
  lemma RotateLeftValue(v: Word, n: nat, whole: nat, room: nat)
    requires 0 < n < 64 && whole == Pow2(n) && room == Pow2(64 - n)
    ensures v / room < whole
    ensures RotateLeft(v, n) == (v % room) * whole + v / room
  {
    SplitWord(v, n, whole, room);
    RotateLeftParts(v, n, whole, room, v % room, v / room);
  }

  /** 2^(64 - n) times 2^n is 2^64. */
  lemma SplitModulus(n: nat, whole: nat, room: nat)
    requires n <= 64 && whole == Pow2(n) && room == Pow2(64 - n)
    ensures room * whole == WORD_MODULUS && whole * room == WORD_MODULUS
  {
    Pow2Add(64 - n, n);
    Pow2Word();
  }

  /** A word is its remainder by 2^(64 - n) plus 2^(64 - n) times a quotient below 2^n. */
  lemma SplitWord(v: Word, n: nat, whole: nat, room: nat)
    requires n <= 64 && whole == Pow2(n) && room == Pow2(64 - n)
    ensures v == v % room + room * (v / room) && v % room < room && 0 <= v / room < whole
  {
    SplitModulus(n, whole, room);
    DivModParts(v, room);
    QuotientBelowRoom(v, room, whole);
    QuotientNonNegative(v, room);
  }

  /** A natural number divided by a positive one gives a natural number. */
  lemma QuotientNonNegative(x: nat, d: nat)
    requires d > 0
    ensures x / d >= 0
  {
  }

  /** The rotation of `low + room * high`, for a low part below `room` and a high part below `whole`. */
  lemma RotateLeftParts(v: Word, n: nat, whole: nat, room: nat, low: nat, high: nat)
    requires 0 < n < 64 && whole == Pow2(n) && room == Pow2(64 - n)
    requires v == low + room * high && low < room && high < whole
    ensures RotateLeft(v, n) == low * whole + high
  {
    SplitModulus(n, whole, room);
    SplitProduct(v, low, high, whole, room);
    ShlParts(v, n, whole, low, high);
    ShrParts(v, 64 - n, room, low, high);
    OrShifted(high, low, n, whole);
    BitwiseSymmetric(OrBit, low * whole, high, 64);
  }

  /** Shifting `low + room * high` left by n leaves `low` moved up: the high part is pushed out. */
  lemma ShlParts(v: Word, n: nat, whole: nat, low: nat, high: nat)
    requires n < 64 && whole == Pow2(n)
    requires v * whole == low * whole + WORD_MODULUS * high && low * whole < WORD_MODULUS
    ensures Shl(v, n) == low * whole
  {
    ShlMul(v, n);
    DivModSplit(low * whole, high, WORD_MODULUS);
  }

  /** Shifting `low + room * high` right by m, with room = 2^m and low below it, leaves `high`. */
  lemma ShrParts(v: Word, m: nat, room: nat, low: nat, high: nat)
    requires m < 64 && room == Pow2(m) && v == low + room * high && low < room
    ensures Shr(v, m) == high
  {
    ShrDiv(v, m);
    DivModSplit(low, high, room);
  }

  /**
   * `low + room * high` times `whole`, where room * whole is 2^64: the low
   * part moves up and the high part becomes a multiple of 2^64.
   */
  lemma SplitProduct(v: Word, low: nat, high: nat, whole: nat, room: nat)
    requires room * whole == WORD_MODULUS && v == low + room * high && low < room && high < whole
    ensures low * whole < WORD_MODULUS && whole * low == low * whole
    ensures v * whole == low * whole + WORD_MODULUS * high
  {
    MulMonotoneLeft(whole, low + 1, room);
    Distribute(whole, low, 1);
    Distribute(whole, low, room * high);
    MulAssoc3(room, high, whole);
  }

  /** `a * (b + c) == a * b + a * c`, in both orders of the product. */
  lemma Distribute(a: nat, b: nat, c: nat)
    ensures a * (b + c) == a * b + a * c && (b + c) * a == b * a + c * a
  {
  }

  /** `(a * b) * c == (a * c) * b`. */
  lemma MulAssoc3(a: nat, b: nat, c: nat)
    ensures (a * b) * c == (a * c) * b
  {
  }

  /** Rotating left by n and then by 64 - n gives the word back. */
  lemma RotateLeftInverse(v: Word, n: nat)
    requires 0 < n < 64
    ensures RotateLeft(RotateLeft(v, n), 64 - n) == v
  {
    var m := 64 - n;
    var whole := Pow2(n);
    var room := Pow2(m);
    SplitWord(v, n, whole, room);
    var low := v % room;
    var high := v / room;
    RotateLeftParts(v, n, whole, room, low, high);
    SplitModulus(n, whole, room);
    SplitProduct(v, low, high, whole, room);
    var r := high + whole * low;
    assert RotateLeft(v, n) == r;
    assert 64 - m == n;
    RotateLeftParts(r, m, room, whole, high, low);
    assert high * room == room * high;
  }

  // ---------------------------------------------------------------------
  // Bytes
  // ---------------------------------------------------------------------

  /** The little-endian value of a byte string: the sum of bs[k] * 256^k. */
  function LittleEndian(bs: seq<Byte>): (r: nat)
    ensures r < Pow2(8 * |bs|)
  {
    if |bs| == 0 then 0
    else
      Pow2Add(8, 8 * (|bs| - 1));
      Pow2Byte();
      bs[0] + 256 * LittleEndian(bs[1..])
  }

  /** Byte `k` of a value, counting from the least significant byte. */
  function ByteOf(w: nat, k: nat): Byte
  {
    (w / Pow2(8 * k)) % 256
  }

  /** The low `n` bytes of a value, least significant first. */
  function LowBytes(w: nat, n: nat): (bs: seq<Byte>)
    ensures |bs| == n
  {
    seq(n, k requires 0 <= k < n => ByteOf(w, k))
  }

  /** The eight bytes of a word, least significant first. */
  function ToBytes(w: Word): (bs: seq<Byte>)
    ensures |bs| == 8
  {
    LowBytes(w, 8)
  }

  /** A multiple of a positive `p` strictly between -p and p is zero. */
  lemma MultipleBetween(p: int, d: int)
    requires p > 0 && -p < p * d < p
    ensures d == 0
  {
  }

  /** Division and remainder undo `x + p * y` when `x` is below `p`. */
  lemma DivModSplit(x: int, y: int, p: int)
    requires p > 0 && 0 <= x < p
    ensures (x + p * y) / p == y && (x + p * y) % p == x
  {
    var a := x + p * y;
    var q := a / p;
    var r := a % p;
    assert p * q + r == a;
    assert p * (q - y) == x - r by {
      assert p * (q - y) == p * q - p * y;
    }
    MultipleBetween(p, q - y);
  }

  /** Dividing twice is dividing by the product. */
  lemma DivDiv(a: nat, b: nat, c: nat)
    requires b > 0 && c > 0
    ensures a / b / c == a / (b * c)
  {
    var q := a / (b * c);
    var r := a % (b * c);
    assert a == (b * c) * q + r;
    var rq := r / b;
    var rr := r % b;
    assert r == b * rq + rr;
    assert a == rr + b * (c * q + rq) by {
      assert (b * c) * q == b * (c * q);
    }
    DivModSplit(rr, c * q + rq, b);
    assert rq < c;
    DivModSplit(rq, q, c);
  }

  /** Byte `k` of a little-endian value is the `k`-th byte of the string. */
  lemma {:induction false} ByteOfLittleEndian(bs: seq<Byte>, k: nat)
    requires k < |bs|
    ensures ByteOf(LittleEndian(bs), k) == bs[k]
  {
    var tail := bs[1..];
    var rest := LittleEndian(tail);
    var value := LittleEndian(bs);
    LittleEndianFirst(bs);
    DivModSplit(bs[0], rest, 256);
    if k == 0 {
      ByteOfZero(value);
    } else {
      var previous := k - 1;
      ByteOfLittleEndian(tail, previous);
      ByteOfNext(value, previous);
    }
  }

  /** Byte `k + 1` of `w` is byte `k` of `w / 256`. */
  lemma ByteOfNext(w: nat, k: nat)
    ensures ByteOf(w, k + 1) == ByteOf(w / 256, k)
  {
    Pow2Byte();
    Pow2Add(8, 8 * k);
    DivDiv(w, 256, Pow2(8 * k));
  }

  /** A value below 256^n is the little-endian value of its low `n` bytes. */
  lemma {:induction false} LittleEndianOfBytes(w: nat, n: nat)
    requires w < Pow2(8 * n)
    ensures LittleEndian(LowBytes(w, n)) == w
  {
    var bs := LowBytes(w, n);
    if n == 0 {
      assert w == 0;
    } else {
      var rest := LowBytes(w / 256, n - 1);
      assert bs[1..] == rest by {
        forall k | 0 <= k < n - 1
          ensures bs[1..][k] == rest[k]
        {
          ByteOfNext(w, k);
        }
      }
      QuotientBelowPow2(w, n);
      LittleEndianOfBytes(w / 256, n - 1);
      ByteOfZero(w);
      assert LittleEndian(bs) == bs[0] + 256 * LittleEndian(bs[1..]);
    }
  }

  /** A value below 256^n, shifted down by a byte, is below 256^(n - 1). */
  lemma QuotientBelowPow2(w: nat, n: nat)
    requires n > 0 && w < Pow2(8 * n)
    ensures w / 256 < Pow2(8 * (n - 1))
  {
    var rest := 8 * (n - 1);
    Pow2Byte();
    Pow2Add(8, rest);
    assert 8 + rest == 8 * n;
  }

  /** Byte 0 of a value is its remainder modulo 256. */
  lemma ByteOfZero(w: nat)
    ensures ByteOf(w, 0) == w % 256
  {
    assert Pow2(8 * 0) == 1;
  }

  /** A word is the little-endian value of its eight bytes. */
  lemma LittleEndianToBytes(w: Word)
    ensures LittleEndian(ToBytes(w)) == w
  {
    Pow2Word();
    LittleEndianOfBytes(w, 8);
  }

  /** The bytes of a little-endian word are the bytes it was built from. */
  lemma ToBytesLittleEndian(bs: seq<Byte>)
    requires |bs| == 8
    ensures LittleEndian(bs) < WORD_MODULUS
    ensures ToBytes(LittleEndian(bs)) == bs
  {
    var w := LittleEndian(bs);
    assert w < WORD_MODULUS by {
      Pow2Word();
      assert 8 * |bs| == 64;
    }
    var out := ToBytes(w);
    forall k | 0 <= k < 8
      ensures out[k] == bs[k]
    {
      ByteOfLittleEndian(bs, k);
    }
    assert out == bs;
  }

  /** Xor of two bytes. */
  function XorByte(x: Byte, y: Byte): Byte
  {
    BitwiseBound(XorBit, x, y, 8);
    Pow2Byte();
    Bitwise(XorBit, x, y, 8)
  }

  /** Byte-wise xor of two byte strings of the same length. */
  function XorBytes(a: seq<Byte>, b: seq<Byte>): (r: seq<Byte>)
    requires |a| == |b|
    ensures |r| == |a|
  {
    seq(|a|, k requires 0 <= k < |a| => XorByte(a[k], b[k]))
  }

  /** Xor-ing bytes and then reading them is xor-ing the values read. */
  lemma {:induction false} XorLittleEndian(a: seq<Byte>, b: seq<Byte>)
    requires |a| == |b|
    ensures Bitwise(XorBit, LittleEndian(a), LittleEndian(b), 8 * |a|) == LittleEndian(XorBytes(a, b))
  {
    if |a| > 0 {
      var x := XorBytes(a, b);
      XorLittleEndian(a[1..], b[1..]);
      XorFirstByte(a, b);
      assert x[0] == Bitwise(XorBit, a[0], b[0], 8);
      assert x[1..] == XorBytes(a[1..], b[1..]);
      assert LittleEndian(x) == x[0] + 256 * LittleEndian(x[1..]);
    }
  }

  /** A bitwise xor of two little-endian values splits off their first bytes. */
  lemma XorFirstByte(a: seq<Byte>, b: seq<Byte>)
    requires |a| == |b| > 0
    ensures Bitwise(XorBit, LittleEndian(a), LittleEndian(b), 8 * |a|)
         == Bitwise(XorBit, a[0], b[0], 8) + 256 * Bitwise(XorBit, LittleEndian(a[1..]), LittleEndian(b[1..]), 8 * (|a| - 1))
  {
    LittleEndianFirst(a);
    LittleEndianFirst(b);
    SplitAt(XorBit, a[0], b[0], LittleEndian(a[1..]), LittleEndian(b[1..]), 8 * (|a| - 1), LittleEndian(a), LittleEndian(b), 8 * |a|);
  }

  /** The first byte of a little-endian string is its least significant digit. */
  lemma LittleEndianFirst(bs: seq<Byte>)
    requires |bs| > 0
    ensures LittleEndian(bs) == bs[0] + 256 * LittleEndian(bs[1..])
  {
  }

  /** SplitFirstByte for operands given by name. */
  lemma SplitAt(op: BitOp, x: Byte, y: Byte, hx: nat, hy: nat, n: nat, bigX: nat, bigY: nat, width: nat)
    requires bigX == x + 256 * hx && bigY == y + 256 * hy && width == 8 + n
    ensures Bitwise(op, bigX, bigY, width) == Bitwise(op, x, y, 8) + 256 * Bitwise(op, hx, hy, n)
  {
    SplitFirstByte(op, x, y, hx, hy, n);
    BitwiseArguments(op, bigX, bigY, width, x + 256 * hx, y + 256 * hy, 8 + n);
  }

  /** BitwiseSplit at a width of one byte. */
  lemma SplitFirstByte(op: BitOp, x: Byte, y: Byte, hx: nat, hy: nat, n: nat)
    ensures Bitwise(op, x + 256 * hx, y + 256 * hy, 8 + n) == Bitwise(op, x, y, 8) + 256 * Bitwise(op, hx, hy, n)
  {
    assert Pow2(8) == 256 by { Pow2Byte(); }
    ByteSplit(op, x, y, hx, hy, 8, n);
  }

  /**
   * The same split with the width as a parameter: a literal width would let
   * the solver unfold Pow2 and Bitwise at a constant, which is costly here.
   */
  lemma ByteSplit(op: BitOp, x: nat, y: nat, hx: nat, hy: nat, m: nat, n: nat)
    requires Pow2(m) == 256 && x < 256 && y < 256
    ensures Bitwise(op, x + 256 * hx, y + 256 * hy, m + n) == Bitwise(op, x, y, m) + 256 * Bitwise(op, hx, hy, n)
  {
    BitwiseSplit(op, x, y, hx, hy, m, n);
  }

  /** Bitwise applied to equal arguments gives equal results. */
  lemma BitwiseArguments(op: BitOp, x: nat, y: nat, n: nat, x2: nat, y2: nat, n2: nat)
    requires x == x2 && y == y2 && n == n2
    ensures Bitwise(op, x, y, n) == Bitwise(op, x2, y2, n2)
  {
  }

  /** The bytes of a string in the opposite order. */
  function Reverse(s: seq<Byte>): (r: seq<Byte>)
    ensures |r| == |s|
    ensures forall k :: 0 <= k < |s| ==> r[k] == s[|s| - 1 - k]
  {
    seq(|s|, k requires 0 <= k < |s| => s[|s| - 1 - k])
  }

  /** `Long.reverseBytes`: the word whose bytes are those of `v` in the opposite order. */
  function ReverseBytes(v: Word): Word
  {
    var bs := Reverse(ToBytes(v));
    ToBytesLittleEndian(bs);
    LittleEndian(bs)
  }

  /** Byte `k` of the reversed word is byte `7 - k` of the original. */
  lemma ReverseBytesBytes(v: Word, k: nat)
    requires k < 8
    ensures ByteOf(ReverseBytes(v), k) == ByteOf(v, 7 - k)
  {
    var bs := Reverse(ToBytes(v));
    ByteOfLittleEndian(bs, k);
  }

  /** Reversing the bytes twice gives the word back. */
  lemma ReverseBytesInvolution(v: Word)
    ensures ReverseBytes(ReverseBytes(v)) == v
  {
    var bs := Reverse(ToBytes(v));
    ToBytesLittleEndian(bs);
    assert Reverse(bs) == ToBytes(v);
    LittleEndianToBytes(v);
  }
}
