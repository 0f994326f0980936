/** The 64 bits of a float64: js_dtoa takes them apart and js_atod puts them
    together. The sign bit is kept apart. */
module DoubleBits {
  import opened Arithmetic
  import opened Power
  import opened Rounding
  import opened Bignum
  import opened ScaleAndRound
  import opened RoundToDouble
  import opened FreeFormat
  import opened NearestDoubles

  const TWO52: nat := 0x10_0000_0000_0000
  const INFINITY: nat := 0x7ff0_0000_0000_0000

  /** js_dtoa: the mantissa of a number that is not zero, with 53 bits. */
  function Mantissa(a: nat): nat
    requires 0 < a < INFINITY
  {
    if a >= TWO52 then a % TWO52 + TWO52 else
      SmallLog(a);
      Positive(a, Pow(2, 52 - Log2(a)));
      a * Pow(2, 52 - Log2(a))
  }

  function Exponent(a: nat): int
    requires 0 < a < INFINITY
  {
    if a >= TWO52 then a / TWO52 - 1022 else 0 - (52 - Log2(a) - 1) - 1022
  }

  /** js_atod: the bits of a rounded number. */
  function Pack(m: nat, e: int): nat {
    if m == 0 then 0
    else if e > 1024 then INFINITY
    else if e < -1073 then 0
    else if e < -1021 then m / Pow(2, -e - 1021)
    else (e + 1022) * TWO52 + m % TWO52
  }

  lemma SmallLog(a: nat)
    requires 0 < a < TWO52
    ensures Log2(a) < 52
  {
    Log2Is(a);
    Pow53();
    hide Log2;
    if Log2(a) >= 52 { PowMonotone(2, 52, Log2(a)); }
  }

  lemma SmallBits(a: nat)
    requires 0 < a < TWO52
    ensures Log2(a) < 52 && Pow(2, 52 - Log2(a)) > 0 && Mantissa(a) == a * Pow(2, 52 - Log2(a))
            && Exponent(a) == Log2(a) - 1073
    ensures Pow(2, 52) <= Mantissa(a) < Pow(2, 53)
  {
    Log2Is(a);
    Pow53();
    SmallLog(a);
    hide Log2, Pow;
    var l := Log2(a);
    PowAdd(2, l, 52 - l);
    PowAdd(2, l + 1, 52 - l);
    Times(Pow(2, l), a, Pow(2, 52 - l), Pow(2, 52 - l));
    Times(a + 1, Pow(2, l + 1), Pow(2, 52 - l), Pow(2, 52 - l));
    assert (a + 1) * Pow(2, 52 - l) == a * Pow(2, 52 - l) + Pow(2, 52 - l);
  }

  /** Taking apart and putting together. */
  lemma PackUnpack(a: nat)
    requires 0 < a < INFINITY
    ensures IsDouble(Mantissa(a), Exponent(a)) && Pack(Mantissa(a), Exponent(a)) == a
  {
    Pow53();
    hide Log2, Pow;
    if a >= TWO52 {
      QuotientCheck(a, TWO52, 1);
      QuotientCheck(a, TWO52, 2047);
      assert (a % TWO52 + TWO52) % TWO52 == a % TWO52;
    } else {
      SmallBits(a);
      var p := Pow(2, 52 - Log2(a));
      DivideBack(a, p, 0, a * p);
      assert -1021 - Exponent(a) == 52 - Log2(a) == -Exponent(a) - 1021;
    }
  }

  // ----- what rounding can give -------------------------------------------------------

  /** m * 2^y == r * 2^g with y < g */
  lemma Finer(m: nat, y: int, r: nat, g: int)
    requires SameValue(m, y, r, g) && y <= g
    ensures m == r * Pow(2, g - y)
  {
    var j := g - y;
    PowerValue(j, y, 0, g);
    PowOne(2);
    hide Pow, Up, Down;
    var u, v := Mul(Up(2, y), Down(2, g)), Mul(Up(2, g), Down(2, y));
    MulLaws(v, 1, 1);
    MulLaws(1, v, 1);
    assert v == Mul(Pow(2, j), u);
    MulLaws(r, Pow(2, j), u);
    assert Mul(r, Pow(2, j)) == r * Pow(2, j);
    SameFactor(m, r * Pow(2, j), u);
  }

  /** The nearest float64, when it is not zero, is zero or a float64 or beyond all
      of them: it needs no second rounding, and never the branch for exponents
      below the smallest. */
  lemma NearestIsDouble(n: nat, d: nat, x: int, top: int, m: nat, e: int)
    requires NearestDouble(n, d, x, top, m, e) && m > 0
    ensures e >= -1073 && (e <= 1024 ==> IsDouble(m, e))
  {
    hide Pow, Mul, Up, Down, RoundAt, Within, SameValue;
    var r, g, y := RoundAt(n, d, x, Grid(top)), Grid(top), e - 53;
    if y < g {
      Finer(m, y, r, g);
      var j := g - y;
      if j >= 53 {
        PowMonotone(2, 53, j);
        if r > 0 { Times(1, r, Pow(2, j), Pow(2, j)); }
        assert false;
      }
      if e < -1021 {
        PowAdd(2, j - (-1021 - e), -1021 - e);
        Divides(m, r, Pow(2, j - (-1021 - e)), Pow(2, -1021 - e));
      }
    }
  }

  lemma Divides(m: nat, r: nat, p: nat, q: nat)
    requires q > 0 && m == r * (p * q)
    ensures m % q == 0
  {
    Positive(r, p);
    assert m == (r * p) * q;
    DivideBack(r * p, q, 0, m);
  }

  // ----- beyond all float64 -----------------------------------------------------------

  /** n/d * 2^x >= 2^k */
  ghost predicate AtLeastTwoTo(n: nat, d: nat, x: int, k: int) {
    Mul(d, Up(2, k - x)) <= Mul(n, Down(2, k - x))
  }

  ghost predicate BelowTwoTo(n: nat, d: nat, x: int, k: int) {
    Mul(n, Down(2, k - x)) < Mul(d, Up(2, k - x))
  }

  lemma TwoStep(k: int, j: nat)
    ensures Mul(Up(2, k + j), Down(2, k)) == Mul(Pow(2, j), Mul(Up(2, k), Down(2, k + j)))
  {
    PowerValue(0, k + j, j, k);
    PowOne(2);
    hide Pow, Up, Down;
    var u := Mul(Up(2, k + j), Down(2, k));
    MulLaws(1, u, 1);
    MulLaws(u, 1, 1);
  }

  lemma ScaledUp(n: nat, d: nat, k: int, j: nat)
    requires Mul(d, Up(2, k + j)) <= Mul(n, Down(2, k + j))
    ensures Pow(2, j) * Mul(d, Up(2, k)) <= Mul(n, Down(2, k))
  {
    TwoStep(k, j);
    hide Pow, Up, Down;
    ScaledUpProducts(n, d, Up(2, k + j), Down(2, k + j), Up(2, k), Down(2, k), Pow(2, j));
  }

  lemma ScaledUpProducts(n: nat, d: nat, u1: nat, d1: nat, u: nat, w: nat, p: nat)
    requires d * u1 <= n * d1 && u1 * w == p * (u * d1) && d1 > 0
    ensures p * (d * u) <= n * w
  {
    Times(d * u1, n * d1, w, w);
    assert (d * u1) * w == d * (u1 * w);
    assert d * (p * (u * d1)) == (p * (d * u)) * d1;
    assert (n * d1) * w == (n * w) * d1;
    Rounding.Ascending(p * (d * u), n * w, d1);
  }

  lemma RoundAtLeast(num: nat, den: nat, k: nat)
    requires den > 0 && k * den <= num
    ensures Round(num, den, RNDN) >= k
  {
    Above(num, den, k);
  }

  lemma TooLarge(n: nat, d: nat, x: int, top: int, m: nat, e: int)
    requires NearestDouble(n, d, x, top, m, e) && AtLeastTwoTo(n, d, x, 1024)
    ensures Pack(m, e) == INFINITY
  {
    if top <= 1024 {
      StaysBelow(n, d, top - x, 1024 - x);
      assert false;
    }
    var g := top - 53;
    assert g - x + 52 == top - 1 - x;
    ScaledUp(n, d, g - x, 52);
    TwicePow52();
    hide Pow, Up, Down, Mul, Round, SameValue;
    RoundAtLeast(Mul(n, Down(2, g - x)), Mul(d, Up(2, g - x)), Pow(2, 52));
    var r := RoundAt(n, d, x, g);
    if m == 0 {
      NotZero(r, g, e - 53, m, e - 53);
    }
    if e < top {
      Finer(m, e - 53, r, g);
      PowMonotone(2, 1, top - e);
      PowOne(2);
      Times(Pow(2, 52), r, 2, Pow(2, top - e));
    }
  }

  // ----- below all float64 ------------------------------------------------------------

  lemma BelowHalf(n: nat, d: nat, k: int)
    requires Mul(n, Down(2, k)) < Mul(d, Up(2, k))
    ensures 2 * Mul(n, Down(2, k + 1)) < Mul(d, Up(2, k + 1))
  {
    TwoStep(k, 1);
    PowOne(2);
    hide Pow, Up, Down;
    BelowHalfProducts(n, d, Up(2, k + 1), Down(2, k + 1), Up(2, k), Down(2, k));
  }

  lemma BelowHalfProducts(n: nat, d: nat, u1: nat, d1: nat, u: nat, w: nat)
    requires n * w < d * u && u1 * w == 2 * (u * d1) && d1 > 0 && w > 0
    ensures 2 * (n * d1) < d * u1
  {
    Rounding.Ascending(n * w, d * u, d1);
    assert (n * w) * d1 == (n * d1) * w && (d * u) * d1 == d * (u * d1);
    assert 2 * (d * (u * d1)) == d * (u1 * w) == (d * u1) * w;
    assert (2 * (n * d1)) * w == 2 * ((n * d1) * w);
    Rounding.Ascending(2 * (n * d1), d * u1, w);
  }

  lemma TooSmall(n: nat, d: nat, x: int, top: int, m: nat, e: int)
    requires NearestDouble(n, d, x, top, m, e) && BelowTwoTo(n, d, x, -1075)
    ensures m == 0 && Pack(m, e) == 0
  {
    if top - 1 >= -1075 {
      StaysBelow(n, d, -1075 - x, top - 1 - x);
      assert false;
    }
    assert -1075 - x + 1 == -1074 - x;
    BelowHalf(n, d, -1075 - x);
    hide Pow, Up, Down, Mul, SameValue;
    RoundsToZero(Mul(n, Down(2, -1074 - x)), Mul(d, Up(2, -1074 - x)));
    NotZero(m, e - 53, e - 53, 0, -1074);
  }

  // ----- there is always a nearest float64 ------------------------------------------------

  lemma NearestWhole(v: nat, x: int) returns (top: int, m: nat, e: int)
    requires v > 0
    ensures NearestDouble(v, 1, x, top, m, e)
  {
    hide Pow, Log2, Round, NearestDouble, Place;
    var log := Log2(v);
    top := log + 1 + x;
    var prec := top - Grid(top);
    var s := top - x - prec;
    var r := if s < 0 then v * Pow(2, -s) else Round(v, Pow(2, s), RNDN);
    RoundedBits(v, log, s, prec, r);
    m := Place(r, prec);
    Normal53(r, prec, m);
    DoubleOf(v, -x, log, top, prec, r, m);
    e := top;
    if m == Pow(2, 53) {
      m, e := m / 2, top + 1;
    }
  }

  /** Every positive number has a nearest float64. */
  lemma NearestExists(n: nat, d: nat, x: int) returns (top: int, m: nat, e: int)
    requires n > 0 && d > 0
    ensures NearestDouble(n, d, x, top, m, e)
  {
    hide Log2, NearestDouble, SameNumber;
    Log2Is(d);
    hide Pow, Sticky;
    var s := 55 + Log2(d) + 1;
    PowAdd(2, 55, Log2(d) + 1);
    var n1 := Mul(n, Pow(2, s));
    var v := Sticky(n1, d);
    EnoughBits(n, d, Pow(2, 55), Pow(2, Log2(d) + 1), n1, v);
    top, m, e := NearestWhole(v, x - s);
    StickyDouble(n1, d, v, x - s, top, m, e);
    Unscaled(n, d, x, s);
    NearestSame(n1, d, x - s, n, d, x, top, m, e);
  }

  lemma EnoughBits(n: nat, d: nat, p: nat, q: nat, n1: nat, v: nat)
    requires n > 0 && 0 < d < q && n1 == Mul(n, p * q) && v == Sticky(n1, d)
    ensures v >= p
  {
    Times(1, n, p * q, p * q);
    Times(d, q, p, p);
    Above(n1, d, p);
  }

  lemma Unscaled(n: nat, d: nat, x: int, s: nat)
    ensures SameNumber(Mul(n, Pow(2, s)), d, x - s, n, d, x)
  {
    TwoPowers(x - s, s, x);
    Whole(2, s);
    hide Pow, Up, Down;
    UnscaledProducts(n, d, Pow(2, s), Up(2, x - s), Down(2, x - s), Up(2, x), Down(2, x));
  }

  lemma UnscaledProducts(n: nat, d: nat, p: nat, u1: nat, d1: nat, u: nat, w: nat)
    requires (u1 * p) * w == (d1 * 1) * u
    ensures ((n * p) * d) * (u1 * w) == (n * d) * (u * d1)
  {
    assert ((n * p) * d) * (u1 * w) == (n * d) * ((u1 * p) * w);
  }
}
