/** The buffers of js_dtoa are large enough for every float64 in every radix. */
module Capacity {
  import opened Arithmetic
  import opened Power
  import opened Limbs
  import opened Bignum
  import opened SmallPowers
  import opened PowerScaling
  import opened ScaleAndRound
  import opened RoundToDouble
  import opened DigitCounts
  import opened FreeFormat
  import opened RadixDigits

  const DBIGNUM_LEN_MAX: nat := 52

  // ----- the tables ---------------------------------------------------------------

  /** One digit more than a limb holds is more than a limb. */
  lemma NextPower(radix: nat)
    requires 2 <= radix <= 36
    ensures Pow(radix, DIGITS_PER_LIMB[radix - 2] + 1) >= BASE
  {
    LimbBases(radix);
    FullLimb(radix);
  }

  lemma FullLimb(radix: nat)
    requires 2 <= radix <= 36
    ensures radix * LimbBase(radix) >= BASE
  {
  }

  lemma {:induction false} MoreDigits(r: nat, radix: nat)
    requires 2 <= r <= radix <= 36
    ensures DIGITS_PER_LIMB[r - 2] >= DIGITS_PER_LIMB[radix - 2] >= 6
    decreases radix - r
  {
    if r < radix {
      MoreDigits(r + 1, radix);
      assert DIGITS_PER_LIMB[r - 2] >= DIGITS_PER_LIMB[r - 1];
    }
  }

  lemma FewDigits(radix: nat)
    requires 2 <= radix <= 36
    ensures DTOA_MAX_DIGITS[radix - 2] + 33 < 9 * DIGITS_PER_LIMB[radix - 2]
  {
  }

  /** Enough digits for `c` limbs. */
  lemma ManyLimbs(radix: nat, c: nat, x: nat)
    requires 2 <= radix <= 36 && x >= c * (DIGITS_PER_LIMB[radix - 2] + 1)
    ensures Pow(radix, x) >= Pow(2, 32 * c)
  {
    NextPower(radix);
    hide DIGITS_PER_LIMB;
    BigPower(radix, DIGITS_PER_LIMB[radix - 2] + 1, c, x);
  }

  lemma BigPower(radix: nat, k: nat, c: nat, x: nat)
    requires radix > 0 && Pow(radix, k) >= BASE && x >= c * k
    ensures Pow(radix, x) >= Pow(2, 32 * c)
  {
    PowBase32(c);
    hide Pow;
    PowPow(radix, k, c);
    PowBase(BASE, Pow(radix, k), c);
    assert k * c == c * k;
    PowMonotone(radix, k * c, x);
  }

  // ----- the exponent ---------------------------------------------------------------

  lemma PowIncreases(b: nat, x: nat, y: nat)
    requires b >= 2 && x < y
    ensures Pow(b, x) < Pow(b, y)
  {
    PowMonotone(b, x, y - 1);
    Times(2, b, Pow(b, y - 1), Pow(b, y - 1));
  }

  lemma AtMostLimbs(radix: nat, e: int, e0: int)
    requires 2 <= radix <= 36 && IsLog(radix, e, e0) && e <= 1024
    ensures e0 <= 33 * (DIGITS_PER_LIMB[radix - 2] + 1)
  {
    if e0 > 33 * (DIGITS_PER_LIMB[radix - 2] + 1) {
      TooLarge(radix, e, e0 - 1);
    }
  }

  lemma TooLarge(radix: nat, e: int, x: nat)
    requires 2 <= radix <= 36 && e <= 1024 && x >= 33 * (DIGITS_PER_LIMB[radix - 2] + 1)
    ensures Mul(Up(radix, x), Down(2, e - 1)) > Mul(Up(2, e - 1), Down(radix, x))
  {
    hide Pow;
    ManyLimbs(radix, 33, x);
    Whole(radix, x);
    UpIs(2, e - 1);
    PowMonotone(2, Max(e - 1, 0), 1023);
    PowIncreases(2, 1023, 32 * 33);
    hide Up, Down;
    Times(1, Down(2, e - 1), Pow(radix, x), Pow(radix, x));
    MulLaws(Pow(radix, x), Down(2, e - 1), 1);
    MulLaws(Up(2, e - 1), 1, 1);
  }

  lemma UpIs(b: nat, x: int)
    ensures Up(b, x) == Pow(b, Max(x, 0)) && Down(b, x) == Pow(b, Max(-x, 0))
  {
  }

  lemma AtLeastLimbs(radix: nat, e: int, e0: int)
    requires 2 <= radix <= 36 && IsLog(radix, e, e0) && -1073 <= e
    ensures -e0 < 34 * (DIGITS_PER_LIMB[radix - 2] + 1)
  {
    if -e0 >= 34 * (DIGITS_PER_LIMB[radix - 2] + 1) {
      TooSmall(radix, e, e0);
    }
  }

  lemma TooSmall(radix: nat, e: int, e0: int)
    requires 2 <= radix <= 36 && -1073 <= e && -e0 >= 34 * (DIGITS_PER_LIMB[radix - 2] + 1)
    ensures Mul(Up(2, e - 1), Down(radix, e0)) >= Mul(Up(radix, e0), Down(2, e - 1))
  {
    hide Pow;
    var x: nat := -e0;
    ManyLimbs(radix, 34, x);
    UpIs(radix, e0);
    UpIs(2, e - 1);
    PowMonotone(2, Max(1 - e, 0), 1074);
    PowIncreases(2, 1074, 32 * 34);
    PowOne(radix);
    hide Up, Down;
    Times(1, Up(2, e - 1), Pow(radix, x), Pow(radix, x));
    MulLaws(Up(2, e - 1), Pow(radix, x), 1);
    MulLaws(Down(2, e - 1), 1, 1);
  }

  /** The bits in front of the point after scaling by radix^f. */
  lemma FewBitsLeft(radix: nat, radix1: nat, s: nat, e: int, e0: int, f: nat)
    requires 2 <= radix <= 36 && OddPart(radix1) && radix1 * Pow(2, s) == radix
    requires IsLog(radix, e, e0) && f <= DTOA_MAX_DIGITS[radix - 2] - e0
    ensures f * s >= 0 && e + f * s <= 64
  {
    Positive(f, s);
    EnoughDigits(radix);
    TwoTo63();
    var p := DTOA_MAX_DIGITS[radix - 2];
    ShiftedPart(radix, radix1, s, f);
    ScaledLog(radix, e0, f, p);
    hide Pow, DTOA_MAX_DIGITS, Up, Down, Mul;
    var u, v, ru, rd := Up(2, e - 1), Down(2, e - 1), Up(radix, e0), Down(radix, e0);
    Chain(u, v, ru, rd, Pow(2, f * s), Pow(radix, f), Pow(radix, p), Pow(2, 63));
    BitsLeft(e, f * s);
  }

  lemma MulPowers(a: nat, b: nat)
    ensures Mul(Pow(2, a), Pow(2, b)) == Pow(2, a + b)
  {
    PowAdd(2, a, b);
  }

  lemma Exponents(x: nat, y: nat)
    requires Pow(2, x) < Pow(2, y)
    ensures x < y
  {
    if x >= y {
      PowMonotone(2, y, x);
    }
  }

  lemma BitsLeft(e: int, k: nat)
    requires Mul(Up(2, e - 1), Pow(2, k)) < Mul(Pow(2, 63), Down(2, e - 1))
    ensures e + k <= 64
  {
    UpIs(2, e - 1);
    var a, b := Max(e - 1, 0), Max(1 - e, 0);
    assert a - b == e - 1;
    hide Pow, Mul, Up, Down, Max;
    MulPowers(a, k);
    MulPowers(63, b);
    Exponents(a + k, 63 + b);
  }

  lemma TwoTo63()
    ensures Pow(2, 63) == TWO63
  {
    PowTwo32();
    hide Pow;
    PowAdd(2, 32, 31);
  }

  lemma ShiftedPart(radix: nat, radix1: nat, s: nat, f: nat)
    requires OddPart(radix1) && radix1 * Pow(2, s) == radix
    ensures f * s >= 0 && Pow(2, f * s) <= Pow(radix, f)
  {
    hide Pow;
    Times(1, radix1, Pow(2, s), Pow(2, s));
    PowPow(2, s, f);
    PowBase(Pow(2, s), radix, f);
    assert s * f == f * s;
  }

  /** radix^f * radix^e0 is at most radix^p. */
  lemma ScaledLog(radix: nat, e0: int, f: nat, p: nat)
    requires radix > 0 && f + e0 <= p
    ensures Mul(Pow(radix, f), Up(radix, e0)) <= Mul(Pow(radix, p), Down(radix, e0))
  {
    UpIs(radix, e0);
    PowOne(radix);
    hide Pow, Up, Down;
    MulLaws(Pow(radix, f), 1, 1);
    MulLaws(Pow(radix, p), 1, 1);
    if e0 >= 0 {
      PowAdd(radix, f, e0);
      PowMonotone(radix, f + e0, p);
    } else {
      PowAdd(radix, p, -e0);
      PowMonotone(radix, f, p - e0);
    }
  }

  lemma Chain(u: nat, v: nat, ru: nat, rd: nat, w: nat, rf: nat, rp: nat, q: nat)
    requires Mul(u, rd) < Mul(ru, v) && Mul(rf, ru) <= Mul(rp, rd)
    requires 0 < w <= rf && rp <= q && rd > 0
    ensures Mul(u, w) < Mul(q, v)
  {
    MulLess(Mul(u, rd), Mul(ru, v), w);
    MulMost(w, rf, Mul(ru, v));
    MulMost(Mul(rf, ru), Mul(rp, rd), v);
    MulMost(rp, q, Mul(rd, v));
    hide Mul;
    MulLaws(rf, ru, v);
    MulLaws(rp, rd, v);
    MulLaws(u, rd, w);
    MulLaws(u, w, rd);
    MulLaws(rd, w, 1);
    MulLaws(q, v, rd);
    MulLaws(rd, v, 1);
    MulLaws(Mul(ru, v), w, 1);
    MulLaws(Mul(ru, v), rf, 1);
    assert Mul(Mul(u, w), rd) < Mul(Mul(q, v), rd);
    Cancelled(Mul(u, w), Mul(q, v), rd);
  }

  lemma MulMost(a: nat, b: nat, c: nat)
    requires a <= b
    ensures Mul(a, c) <= Mul(b, c)
  {
    Times(a, b, c, c);
  }

  lemma Cancelled(a: nat, b: nat, c: nat)
    requires Mul(a, c) < Mul(b, c)
    ensures a < b
  {
    if a >= b { Times(b, a, c, c); }
  }

  // ----- the buffer -----------------------------------------------------------------

  lemma FewLimbs(radix: nat, radix1: nat, s: nat, x: nat)
    requires 2 <= radix <= 36 && OddPart(radix1) && radix1 * Pow(2, s) == radix
    requires x <= DTOA_MAX_DIGITS[radix - 2] + 34 * (DIGITS_PER_LIMB[radix - 2] + 1)
    ensures LimbsFor(radix1, x) <= 43
  {
    if radix1 != 1 {
      OddPartBelow(radix, radix1, s);
      MoreDigits(radix1, radix);
      FewDigits(radix);
      hide DIGITS_PER_LIMB, DTOA_MAX_DIGITS;
      FewQuotient(DTOA_MAX_DIGITS[radix - 2], DIGITS_PER_LIMB[radix - 2], DIGITS_PER_LIMB[radix1 - 2], x);
    }
  }

  lemma OddPartBelow(radix: nat, radix1: nat, s: nat)
    requires radix1 * Pow(2, s) == radix
    ensures radix1 <= radix
  {
    hide Pow;
    Times(1, Pow(2, s), radix1, radix1);
  }

  lemma FewQuotient(p: nat, n: nat, d: nat, x: nat)
    requires p + 33 < 9 * n && 0 < n <= d && x <= p + 34 * (n + 1)
    ensures (x + d - 1) / d <= 43
  {
    QuotientCheck(x + d - 1, d, 44);
  }

  /** mul_pow_round and the reading back, for one exponent. */
  lemma RoomAt(m: nat, e: int, radix: nat, radix1: nat, s: nat, e0: int, f: int)
    requires m > 0 && -1073 <= e <= 1024 && 2 <= radix <= 36 && OddPart(radix1) && radix1 * Pow(2, s) == radix
    requires IsLog(radix, e, e0) && -e0 <= f <= DTOA_MAX_DIGITS[radix - 2] - e0
    ensures Room(DBIGNUM_LEN_MAX, m, e, radix1, s, f)
  {
    AtMostLimbs(radix, e, e0);
    AtLeastLimbs(radix, e, e0);
    FewLimbs(radix, radix1, s, Max(f, 0));
    FewLimbs(radix, radix1, s, Max(-f, 0));
    if f >= 0 {
      FewBitsLeft(radix, radix1, s, e, e0, f);
    }
    hide Pow, IsLog, LimbsFor, DTOA_MAX_DIGITS, DIGITS_PER_LIMB;
    if f >= 0 {
      RoomAbove(m, e, radix1, s, f);
    } else {
      RoomBelow(m, e, radix1, s, f);
    }
  }

  lemma RoomAbove(m: nat, e: int, radix1: nat, s: nat, f: nat)
    requires m > 0 && OddPart(radix1) && LimbsFor(radix1, f) <= 43 && f * s >= 0 && e + f * s <= 64
    ensures Room(DBIGNUM_LEN_MAX, m, e, radix1, s, f)
  {
    hide LimbsFor, Log2;
    assert LimbsFor(radix1, 0) == 0;
    if f == 0 {
      assert LimbsFor(radix1, Max(-f, 0)) == 0;
    }
  }

  lemma RoomBelow(m: nat, e: int, radix1: nat, s: nat, f: int)
    requires m > 0 && e <= 1024 && OddPart(radix1) && f < 0 && LimbsFor(radix1, -f) <= 43
    ensures Room(DBIGNUM_LEN_MAX, m, e, radix1, s, f)
  {
    Positive(-f, s);
    assert f * s == -(-f * s);
    hide LimbsFor, Log2;
    assert LimbsFor(radix1, 0) == 0;
  }

  /** DBIGNUM_LEN_MAX limbs are enough for every float64 that is not zero, in
      every radix. */
  lemma BufferSuffices(capacity: nat, m: nat, e: int, radix: nat, radix1: nat, s: nat, e0: int)
    requires capacity >= DBIGNUM_LEN_MAX && IsDouble(m, e) && 2 <= radix <= 36
    requires OddPart(radix1) && radix1 * Pow(2, s) == radix && IsLog(radix, e, e0)
    ensures Arguments(capacity, m, e, radix, radix1, s, e0)
  {
    hide IsLog, Room;
    forall f | -e0 <= f <= DTOA_MAX_DIGITS[radix - 2] - e0
      ensures Room(capacity, m, e, radix1, s, f)
    {
      RoomAt(m, e, radix, radix1, s, e0, f);
      RoomGrows(capacity, m, e, radix1, s, f);
    }
  }

  lemma RoomGrows(capacity: nat, m: nat, e: int, radix1: nat, s: nat, f: int)
    requires capacity >= DBIGNUM_LEN_MAX && m > 0 && OddPart(radix1) && Room(DBIGNUM_LEN_MAX, m, e, radix1, s, f)
    ensures Room(capacity, m, e, radix1, s, f)
  {
    hide LimbsFor, Widened;
    var g := -f;
    assert ReadingRoom(DBIGNUM_LEN_MAX, radix1, s, g);
    forall v: nat | 0 < v < BASE * BASE
      ensures HasRoom(2, capacity, v, radix1, s, g, false, 55)
    {
      assert HasRoom(2, DBIGNUM_LEN_MAX, v, radix1, s, g, false, 55);
    }
  }
}
