/** Logarithms to the radix: mul_log2_radix multiplies by a rounded 1/log2(radix),
    and still gives the exact whole part for all arguments it is meant for. */
module RadixLogarithm {
  import opened Arithmetic
  import opened Power
  import opened FreeFormat
  import opened RadixDigits
  import opened RadixPowers

  const MULT: seq<nat> := [
    0x000000, 0xa1849d, 0x000000, 0x6e40d2, 0x6308c9, 0x5b3065, 0x000000,
    0x50c24e, 0x4d104d, 0x4a0027, 0x4768ce, 0x452e54, 0x433d00, 0x418677,
    0x000000, 0x3ea16b, 0x3d645a, 0x3c43c2, 0x3b3b9a, 0x3a4899, 0x39680b,
    0x3897b3, 0x37d5af, 0x372069, 0x367686, 0x35d6df, 0x354072, 0x34b261,
    0x342bea, 0x33ac62, 0x000000, 0x32bfd9, 0x3251dd, 0x31e8d6, 0x318465
  ]

  const MULT_BITS: nat := 0x100_0000

  /** C's division. */
  function Truncated(a: int, b: nat): int
    requires b > 0
  {
    if a >= 0 then a / b else -(-a / b)
  }

  /** mul_log2_radix */
  function MulLog2Radix(a: int, radix: nat): int
    requires 2 <= radix <= 36
  {
    if IsPowerOfTwo(radix) then
      var bits := RadixBits(radix);
      Truncated(if a < 0 then a - (bits - 1) else a, bits)
    else a * MULT[radix - 2] / MULT_BITS
  }

  // ----- fractions --------------------------------------------------------------------------

  /** k1/a1 and k2/a2 */
  datatype Neighbours = Neighbours(k1: nat, a1: nat, k2: nat, a2: nat)

  /** Neighbours in the sequence of fractions with denominators up to 2048: 1/log2(radix)
      lies between them. */
  function Around(radix: nat): Neighbours {
    if radix == 3 then Neighbours(971, 1539, 665, 1054)
    else if radix == 5 then Neighbours(643, 1493, 789, 1832)
    else if radix == 6 then Neighbours(306, 791, 665, 1719)
    else if radix == 7 then Neighbours(571, 1603, 680, 1909)
    else if radix == 9 then Neighbours(153, 485, 512, 1623)
    else if radix == 10 then Neighbours(497, 1651, 146, 485)
    else if radix == 11 then Neighbours(37, 128, 579, 2003)
    else if radix == 12 then Neighbours(306, 1097, 359, 1287)
    else if radix == 13 then Neighbours(227, 840, 464, 1717)
    else if radix == 14 then Neighbours(462, 1759, 109, 415)
    else if radix == 15 then Neighbours(290, 1133, 247, 965)
    else if radix == 17 then Neighbours(343, 1402, 263, 1075)
    else if radix == 18 then Neighbours(153, 638, 359, 1497)
    else if radix == 19 then Neighbours(121, 514, 480, 2039)
    else if radix == 20 then Neighbours(351, 1517, 146, 631)
    else if radix == 21 then Neighbours(339, 1489, 130, 571)
    else if radix == 22 then Neighbours(37, 165, 431, 1922)
    else if radix == 23 then Neighbours(403, 1823, 191, 864)
    else if radix == 24 then Neighbours(306, 1403, 359, 1646)
    else if radix == 25 then Neighbours(424, 1969, 73, 339)
    else if radix == 26 then Neighbours(227, 1067, 237, 1114)
    else if radix == 27 then Neighbours(102, 485, 359, 1707)
    else if radix == 28 then Neighbours(353, 1697, 109, 524)
    else if radix == 29 then Neighbours(169, 821, 345, 1676)
    else if radix == 30 then Neighbours(290, 1423, 247, 1212)
    else if radix == 31 then Neighbours(131, 649, 371, 1838)
    else if radix == 33 then Neighbours(45, 227, 383, 1932)
    else if radix == 34 then Neighbours(343, 1745, 263, 1338)
    else if radix == 35 then Neighbours(379, 1944, 263, 1349)
    else if radix == 36 then Neighbours(153, 791, 359, 1856)
    else Neighbours(1, 1, 1, 1)
  }

  /** No fraction with a small denominator lies between neighbours. */
  lemma NothingBetween(n: Neighbours, k: nat, a: nat)
    requires n.k2 * n.a1 == n.k1 * n.a2 + 1 && a < n.a1 + n.a2
    ensures k * n.a1 <= n.k1 * a || n.k2 * a <= k * n.a2
  {
    var x, y := k * n.a1 - n.k1 * a, n.k2 * a - k * n.a2;
    if x >= 1 && y >= 1 {
      Weighted(n, k, a, x, y);
      Times(1, x, n.a2, n.a2);
      Times(1, y, n.a1, n.a1);
    }
  }

  lemma Weighted(n: Neighbours, k: nat, a: nat, x: int, y: int)
    requires n.k2 * n.a1 == n.k1 * n.a2 + 1 && x == k * n.a1 - n.k1 * a && y == n.k2 * a - k * n.a2
    ensures n.a2 * x + n.a1 * y == a
  {
    var p, q, r := n.k1 * a, k * n.a1, n.k2 * a;
    assert n.a2 * x == n.a2 * q - n.a2 * p;
    assert n.a1 * y == n.a1 * r - n.a1 * (k * n.a2);
    assert n.a2 * q == n.a1 * (k * n.a2);
    assert n.a1 * r == (n.k2 * n.a1) * a;
    assert n.a2 * p == (n.k1 * n.a2) * a;
    assert (n.k2 * n.a1) * a == (n.k1 * n.a2) * a + a;
  }

  /** The rounded factor lies between the neighbours. */
  lemma Factors(radix: nat)
    requires 2 <= radix <= 36 && !IsPowerOfTwo(radix)
    ensures var n := Around(radix);
            && n.k1 > 0 && n.a1 > 0 && n.k2 > 0 && n.a2 > 0 && n.a1 + n.a2 > 2048 && n.k2 * n.a1 == n.k1 * n.a2 + 1
            && n.k1 * MULT_BITS < n.a1 * MULT[radix - 2] && n.a2 * MULT[radix - 2] < n.k2 * MULT_BITS
  {
  }

  /** The whole part of a * mult / 2^24 leaves the neighbours on both sides. */
  lemma WholePart(n: Neighbours, mult: nat, a: nat, k: nat)
    requires n.a1 > 0 && n.a2 > 0 && n.a1 + n.a2 > 2048 && n.k2 * n.a1 == n.k1 * n.a2 + 1
    requires n.k1 * MULT_BITS < n.a1 * mult && n.a2 * mult < n.k2 * MULT_BITS
    requires 0 < a <= 2048 && k * MULT_BITS <= a * mult < (k + 1) * MULT_BITS
    ensures k * n.a1 <= n.k1 * a && n.k2 * a <= (k + 1) * n.a2
    ensures k * MULT_BITS < a * mult
  {
    NothingBetween(n, k, a);
    NothingBetween(n, k + 1, a);
    Crossed(k, a, mult, n.k2, n.a2);
    Crossed(n.k1, n.a1, mult, k + 1, a);
    if k * MULT_BITS == a * mult {
      Crossed(n.k1, n.a1, mult, k, a);
    }
  }

  /** k/a <= m < k1/a1, or k/a < m <= k1/a1 */
  lemma Crossed(k: nat, a: nat, mult: nat, k1: nat, a1: nat)
    requires a > 0 && a1 > 0 && k * MULT_BITS <= a * mult && a1 * mult <= k1 * MULT_BITS
    requires k * MULT_BITS < a * mult || a1 * mult < k1 * MULT_BITS
    ensures k * a1 < k1 * a
  {
    var x, y, z := k * MULT_BITS, a * mult, k1 * MULT_BITS;
    Times(x, y, a1, a1);
    Times(a1 * mult, z, a, a);
    if x < y { Times(x + 1, y, a1, a1); } else { Times(a1 * mult + 1, z, a, a); }
    assert (x + 1) * a1 == x * a1 + a1 && (a1 * mult + 1) * a == a1 * mult * a + a;
    assert y * a1 == a1 * mult * a;
    assert x * a1 == (k * a1) * MULT_BITS && z * a == (k1 * a) * MULT_BITS;
  }

  // ----- powers -------------------------------------------------------------------------------

  lemma {:induction false} PowStrict(a: nat, b: nat, e: nat)
    requires a < b && e > 0
    ensures Pow(a, e) < Pow(b, e)
    decreases e
  {
    PowOne(a);
    PowOne(b);
    if e > 1 {
      PowStrict(a, b, e - 1);
      var p, q := Pow(a, e - 1), Pow(b, e - 1);
      assert Pow(a, e) == a * p && Pow(b, e) == b * q;
      hide Pow;
      Times(a, b - 1, p, q);
      assert (b - 1) * q == b * q - q;
    }
  }

  lemma SameProducts(k: nat, q: nat, l: nat)
    ensures k * q == q * k && l * k == k * l
  {
  }

  /** From one power to another in proportion: b^q < c^l and k/q <= t/l give b^k < c^t. */
  lemma Proportional(b: nat, q: nat, c: nat, l: nat, k: nat, t: nat)
    requires b > 0 && c > 0 && Pow(b, q) < Pow(c, l) && q > 0 && k * l <= t * q && k > 0
    ensures Pow(b, k) < Pow(c, t)
  {
    PowPow(b, k, q);
    PowPow(b, q, k);
    PowPow(c, l, k);
    PowPow(c, t, q);
    hide Pow;
    SameProducts(k, q, l);
    PowStrict(Pow(b, q), Pow(c, l), k);
    PowMonotone(c, l * k, t * q);
    if Pow(b, k) >= Pow(c, t) {
      PowBase(Pow(c, t), Pow(b, k), q);
    }
  }

  /** The powers on both sides of 2^a, for a > 0. */
  lemma BetweenPowers(radix: nat, a: nat)
    requires 2 <= radix <= 36 && !IsPowerOfTwo(radix) && 0 < a <= 2048
    ensures var k := a * MULT[radix - 2] / MULT_BITS;
            && k >= 0 && k * MULT_BITS < a * MULT[radix - 2] < (k + 1) * MULT_BITS
            && Pow(radix, k) < Pow(2, a) < Pow(radix, k + 1)
  {
    Factors(radix);
    NeighbourPowers(radix);
    var n, mult := Around(radix), MULT[radix - 2];
    hide Around, MULT, IsPowerOfTwo, Pow;
    Positive(a, mult);
    QuotientParts(a * mult, MULT_BITS);
    var k := a * mult / MULT_BITS;
    WholePart(n, mult, a, k);
    if k > 0 {
      Proportional(radix, n.k1, 2, n.a1, k, a);
    } else {
      PowOne(radix);
      PowMonotone(2, 1, a);
      PowOne(2);
    }
    Proportional(2, n.a2, radix, n.k2, a, k + 1);
  }

  /** 2^a for a negative a: the same powers, upside down. */
  lemma NegativeWhole(p: int, k: nat)
    requires k * MULT_BITS < p < (k + 1) * MULT_BITS
    ensures -p / MULT_BITS == -(k + 1)
  {
  }

  /** mul_log2_radix is exact: radix^k <= 2^a < radix^(k+1). */
  lemma LogarithmExact(a: int, radix: nat)
    requires 2 <= radix <= 36 && -2048 <= a <= 2047
    ensures IsLog(radix, a + 1, 1 + MulLog2Radix(a, radix))
  {
    if IsPowerOfTwo(radix) {
      BinaryLogarithm(a, radix);
    } else if a > 0 {
      BetweenPowers(radix, a);
      PositiveLog(radix, a, MulLog2Radix(a, radix));
    } else if a < 0 {
      BetweenPowers(radix, -a);
      NegativeWhole(-a * MULT[radix - 2], -a * MULT[radix - 2] / MULT_BITS);
      assert a * MULT[radix - 2] == -(-a * MULT[radix - 2]);
      NegativeLog(radix, -a, -a * MULT[radix - 2] / MULT_BITS);
    } else {
      PowOne(2);
      PowOne(radix);
      PositiveLog(radix, 0, 0);
    }
  }

  lemma PositiveLog(radix: nat, a: nat, k: nat)
    requires Pow(radix, k) <= Pow(2, a) < Pow(radix, k + 1)
    ensures IsLog(radix, a + 1, 1 + k)
  {
    MulLaws(Pow(radix, k), 1, 1);
    MulLaws(Pow(2, a), 1, 1);
    MulLaws(Pow(radix, k + 1), 1, 1);
  }

  lemma NegativeLog(radix: nat, b: nat, k: nat)
    requires b > 0 && Pow(radix, k) < Pow(2, b) <= Pow(radix, k + 1)
    ensures IsLog(radix, 1 - b, 1 - (k + 1))
  {
    MulLaws(Pow(radix, k), 1, 1);
    MulLaws(1, Pow(radix, k), 1);
    MulLaws(Pow(2, b), 1, 1);
    MulLaws(1, Pow(2, b), 1);
    MulLaws(Pow(radix, k + 1), 1, 1);
    MulLaws(1, Pow(radix, k + 1), 1);
  }

  lemma BinaryLogarithm(a: int, radix: nat)
    requires 2 <= radix <= 36 && IsPowerOfTwo(radix)
    ensures IsLog(radix, a + 1, 1 + MulLog2Radix(a, radix))
  {
    BitsFit(radix);
    var bits := RadixBits(radix);
    assert bits >= 1;
    hide Pow, RadixBits, IsPowerOfTwo;
    var b := if a < 0 then -a else a;
    if a >= 0 {
      var k := a / bits;
      QuotientParts(a, bits);
      PowPow(2, bits, k);
      PowPow(2, bits, k + 1);
      PowMonotone(2, bits * k, a);
      assert bits * (k + 1) == k * bits + bits && bits * k == k * bits;
      PowGrows(a, bits * (k + 1));
      PositiveLog(radix, a, k);
    } else {
      var k := (b - 1) / bits;
      QuotientParts(b - 1, bits);
      PowPow(2, bits, k);
      PowPow(2, bits, k + 1);
      assert bits * (k + 1) == k * bits + bits && bits * k == k * bits;
      PowGrows(bits * k, b);
      PowMonotone(2, b, bits * (k + 1));
      DivideBack(k + 1, bits, (b - 1) % bits, b - 1 + bits);
      NegativeLog(radix, b, k);
    }
  }

  lemma PowGrows(x: nat, y: nat)
    requires x < y
    ensures Pow(2, x) < Pow(2, y)
  {
    PowMonotone(2, x + 1, y);
    assert Pow(2, x + 1) == 2 * Pow(2, x);
  }

  // ----- the limits of js_atod ------------------------------------------------------------------

  const MAX_EXPONENT: seq<int> := [
    1024, 647, 512, 442, 397, 365, 342, 324, 309, 297, 286, 277, 269, 263, 256, 251, 246, 242,
    237, 234, 230, 227, 224, 221, 218, 216, 214, 211, 209, 207, 205, 203, 202, 200, 199
  ]

  const MIN_EXPONENT: seq<int> := [
    -1075, -679, -538, -463, -416, -383, -359, -340, -324, -311, -300, -291, -283, -276, -269, -263, -258, -254,
    -249, -245, -242, -238, -235, -232, -229, -227, -224, -222, -220, -217, -215, -214, -212, -210, -208
  ]

  function MaxExponent(radix: nat): int
    requires 2 <= radix <= 36
  {
    MAX_EXPONENT[radix - 2]
  }

  function MinExponent(radix: nat): int
    requires 2 <= radix <= 36
  {
    MIN_EXPONENT[radix - 2]
  }

  /** The two tables with which js_atod decides, before it scales a number, that it
      is beyond all float64 or below half of the smallest one. */
  lemma LimitsReached(radix: nat)
    requires 2 <= radix <= 36 && !IsPowerOfTwo(radix)
    ensures MaxExponent(radix) >= 0 && Pow(radix, MaxExponent(radix)) >= Pow(2, 1024)
    ensures MinExponent(radix) <= 0 && Pow(radix, -MinExponent(radix)) >= Pow(2, 1075)
  {
    hide MaxExponent, MinExponent, MULT, Pow, IsPowerOfTwo;
    MaxEntry(radix);
    MinEntry(radix);
    BetweenPowers(radix, 1024);
    BetweenPowers(radix, 1075);
  }

  lemma MaxEntry(radix: nat)
    requires 2 <= radix <= 36 && !IsPowerOfTwo(radix)
    ensures |MULT| == 35 && MaxExponent(radix) == 1024 * MULT[radix - 2] / MULT_BITS + 1
  {
  }

  lemma MinEntry(radix: nat)
    requires 2 <= radix <= 36 && !IsPowerOfTwo(radix)
    ensures |MULT| == 35 && -MinExponent(radix) == 1075 * MULT[radix - 2] / MULT_BITS + 1
  {
  }

  // ----- the powers at the neighbours ---------------------------------------------------------------

  lemma NeighbourPowers(radix: nat)
    requires 2 <= radix <= 36 && !IsPowerOfTwo(radix)
    ensures var n := Around(radix); Pow(radix, n.k1) < Pow(2, n.a1) && Pow(radix, n.k2) > Pow(2, n.a2)
  {
    hide Pow;
    Powers3();
    Powers5();
    Powers6();
    Powers7();
    Powers9();
    Powers10();
    Powers11();
    Powers12();
    Powers13();
    Powers14();
    Powers15();
    Powers17();
    Powers18();
    Powers19();
    Powers20();
    Powers21();
    Powers22();
    Powers23();
    Powers24();
    Powers25();
    Powers26();
    Powers27();
    Powers28();
    Powers29();
    Powers30();
    Powers31();
    Powers33();
    Powers34();
    Powers35();
    Powers36();
  }
}
