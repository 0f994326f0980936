/** The free format of js_dtoa: digits that read back as the same number. */
module FreeFormat {
  import opened Arithmetic
  import opened Power
  import opened Limbs
  import opened Rounding
  import opened Bignum
  import opened SmallPowers
  import opened PowerScaling
  import opened ScaleAndRound
  import opened RoundToDouble
  import opened NearestDoubles
  import opened DigitCounts

  /** A float64 that is not zero, as js_dtoa holds it: m * 2^(e - 53), where a
      subnormal has zeros at the end of m. */
  ghost predicate IsDouble(m: nat, e: int) {
    && Pow(2, 52) <= m < Pow(2, 53) && -1073 <= e <= 1024
    && (e < -1021 ==> m % Pow(2, -1021 - e) == 0)
  }

  // ----- close numbers round to the same float64 --------------------------------------------

  function Distance(a: nat, b: nat): nat {
    if a < b then b - a else a - b
  }

  lemma RoundClose(a: nat, c: nat, r: nat)
    requires c > 0 && 2 * Distance(a, r * c) < c
    ensures Round(a, c, RNDN) == r
  {
    hide Round;
    RoundIs(a, c, RNDN);
    Multiples(r, c, r * c);
    RoundUnique(a, c, RNDN, Round(a, c, RNDN), r);
  }

  const QUARTER_ULP: nat := 0x40_0000_0000_0000

  /** The value a/c * 2^(e-53) is within m / 2^54 units of m * 2^(e-53). */
  ghost predicate Close(a: nat, c: nat, m: nat) {
    c > 0 && QUARTER_ULP * Distance(a, m * c) <= m * c
  }

  /** Then m * 2^(e-53) is the float64 nearest to it. */
  lemma CloseDouble(a: nat, c: nat, m: nat, e: int) returns (top: int)
    requires IsDouble(m, e) && Close(a, c, m)
    ensures NearestDouble(a, c, e - 53, top, m, e)
  {
    Pow53();
    hide Pow;
    var mc := m * c;
    Times(m, Pow(2, 53) - 1, c, c);
    if a >= Pow(2, 52) * c {
      top := e;
      CloseAbove(a, c, m, e);
    } else {
      top := e - 1;
      SmallestMantissa(a, c, m);
      CloseBelow(a, c, e);
    }
  }

  lemma SmallestMantissa(a: nat, c: nat, m: nat)
    requires Close(a, c, m) && Pow(2, 52) <= m < Pow(2, 53) && a < Pow(2, 52) * c
    ensures m == Pow(2, 52)
  {
    Pow53();
    hide Pow;
    Times(m, Pow(2, 53), c, c);
    var k := m - Pow(2, 52);
    assert k * c == m * c - Pow(2, 52) * c;
    if k > 0 { Times(1, k, c, c); }
  }

  /** In the binade of m. */
  lemma CloseAbove(a: nat, c: nat, m: nat, e: int)
    requires IsDouble(m, e) && Close(a, c, m) && a >= Pow(2, 52) * c
    ensures NearestDouble(a, c, e - 53, e, m, e)
  {
    Pow53();
    WithinBinade(a, c, m, e);
    var g, w := Grid(e), e - 53;
    if g == w {
      SameGrid(a, c, m, w);
    } else {
      CoarserGrid(a, c, m, w, g);
    }
  }

  lemma SameGrid(a: nat, c: nat, m: nat, w: int)
    requires Close(a, c, m) && m < Pow(2, 53)
    ensures RoundAt(a, c, w, w) == m && SameValue(m, w, m, w)
  {
    LessThanHalf(a, c, m);
    Whole(2, 0);
    hide Pow, Up, Down, SameValue, Close, Mul, Round;
    RoundClose(a, c, m);
    MulLaws(a, 1, 1);
    MulLaws(c, 1, 1);
    MulLaws(m, 1, 1);
    PowOne(2);
    Shifted(m, 0, w, w);
  }

  lemma CoarserGrid(a: nat, c: nat, m: nat, w: int, g: int)
    requires Close(a, c, m) && m < Pow(2, 53) && g > w && m % Pow(2, g - w) == 0
    ensures RoundAt(a, c, w, g) == m / Pow(2, g - w) && SameValue(m, w, m / Pow(2, g - w), g)
  {
    var j := g - w;
    Whole(2, j);
    RoundAtUp(a, c, w, g);
    hide Pow, Up, Down, SameValue, Close, Round, RoundAt, Mul;
    var p := Pow(2, j);
    var m1 := Exact(m, p);
    CoarserClose(a, c, m, m1, p);
    Shifted(m1, j, w, g);
  }

  lemma RoundAtUp(a: nat, c: nat, w: int, g: int)
    requires c > 0 && g > w
    ensures c * Pow(2, g - w) > 0 && RoundAt(a, c, w, g) == Round(a, c * Pow(2, g - w), RNDN)
  {
    Whole(2, g - w);
    Positive(c, Pow(2, g - w));
    MulLaws(a, 1, 1);
    hide Pow, Round;
    assert Mul(c, Pow(2, g - w)) == c * Pow(2, g - w);
  }

  lemma Exact(m: nat, p: nat) returns (m1: nat)
    requires p > 0 && m % p == 0
    ensures m1 == m / p && m == m1 * p && Mul(m1, p) == m
  {
    QuotientSmall(m, p);
    m1 := m / p;
  }

  lemma WithinBinade(a: nat, c: nat, m: nat, e: int)
    requires Pow(2, 52) <= m < Pow(2, 53) && Close(a, c, m) && a >= Pow(2, 52) * c
    ensures Within(a, c, e - 53, e)
  {
    Pow53();
    Whole(2, 52);
    Whole(2, 53);
    hide Pow, Up, Down;
    Times(m, Pow(2, 53) - 1, c, c);
    Times(1, m, c, c);
    assert (Pow(2, 53) - 1) * c == Pow(2, 53) * c - c;
    MulLaws(a, 1, 1);
  }

  /** On a coarser grid that m lies on it is only nearer. */
  lemma CoarserClose(a: nat, c: nat, m: nat, m1: nat, p: nat)
    requires Close(a, c, m) && m == m1 * p && p > 0 && m < Pow(2, 53)
    ensures c * p > 0 && Round(a, c * p, RNDN) == m1
  {
    LessThanHalf(a, c, m);
    hide Pow, Round, Close;
    Positive(c, p);
    Times(1, p, c, c);
    SameProduct(m1, c, p);
    RoundClose(a, c * p, m1);
  }

  lemma LessThanHalf(a: nat, c: nat, m: nat)
    requires Close(a, c, m) && m < Pow(2, 53)
    ensures c > 0 && m * c >= 0 && 2 * Distance(a, m * c) < c
  {
    Pow53();
    hide Pow, Distance;
    Times(m, 0x1F_FFFF_FFFF_FFFF, c, c);
    Positive(m, c);
    Halved(Distance(a, m * c), m * c, c);
  }

  lemma Halved(d: nat, x: nat, c: nat)
    requires QUARTER_ULP * d <= x <= 0x1F_FFFF_FFFF_FFFF * c && c > 0
    ensures 2 * d < c
  {
  }

  lemma SameProduct(m1: nat, c: nat, p: nat)
    ensures m1 * (c * p) == (m1 * p) * c
  {
  }

  /** Below the power of two m stands for, where the grid is finer: the tie is
      broken in favour of the power of two, which is even. */
  lemma CloseBelow(a: nat, c: nat, e: int)
    requires IsDouble(Pow(2, 52), e) && Close(a, c, Pow(2, 52)) && a < Pow(2, 52) * c
    ensures NearestDouble(a, c, e - 53, e - 1, Pow(2, 52), e)
  {
    Pow53();
    WithinBelow(a, c, e);
    var g, w := Grid(e - 1), e - 53;
    PowOne(2);
    if g < w {
      assert g == w - 1;
      HalfStep(a, c);
      Whole(2, 1);
      assert Up(2, g - w) == 1 && Down(2, g - w) == 2;
      PowerValue(52, w, 53, g);
      MulLaws(c, 1, 1);
      assert Mul(a, 2) == 2 * a;
    } else {
      var j := g - w;
      Whole(2, j);
      PowAdd(2, 52 - j, j);
      assert Pow(2, 52) == Pow(2, 52 - j) * Pow(2, j);
      hide IsDouble;
      CoarserClose(a, c, Pow(2, 52), Pow(2, 52 - j), Pow(2, j));
      PowerValue(52, w, 52 - j, g);
      MulLaws(a, 1, 1);
      assert Mul(c, Up(2, j)) == c * Pow(2, j);
    }
  }

  lemma HalfStep(a: nat, c: nat)
    requires Close(a, c, Pow(2, 52)) && a < Pow(2, 52) * c
    ensures Round(2 * a, c, RNDN) == Pow(2, 53)
  {
    Pow53();
    hide Pow;
    hide Round;
    var r := Pow(2, 53);
    RoundIs(2 * a, c, RNDN);
    Multiples(r, c, r * c);
    assert r % 2 == 0;
    RoundUnique(2 * a, c, RNDN, Round(2 * a, c, RNDN), r);
  }

  lemma WithinBelow(a: nat, c: nat, e: int)
    requires Close(a, c, Pow(2, 52)) && a < Pow(2, 52) * c
    ensures Within(a, c, e - 53, e - 1)
  {
    Pow53();
    Whole(2, 51);
    Whole(2, 52);
    assert Pow(2, 52) == 2 * Pow(2, 51);
    hide Pow, Up, Down;
    MulLaws(a, 1, 1);
    MulLaws(c, Pow(2, 52), 1);
    MulLaws(c, Pow(2, 51), 1);
  }

  // ----- how large the candidates are --------------------------------------------------------

  /** e0 - 1 is the logarithm of 2^(e-1) to the radix: radix^(e0-1) <= 2^(e-1)
      < radix^e0. */
  ghost predicate IsLog(radix: nat, e: int, e0: int) {
    && Mul(Up(radix, e0 - 1), Down(2, e - 1)) <= Mul(Up(2, e - 1), Down(radix, e0 - 1))
    && Mul(Up(2, e - 1), Down(radix, e0)) < Mul(Up(radix, e0), Down(2, e - 1))
  }

  /** The products on both sides of a bound, rearranged. */
  lemma BoundProducts(m: nat, bound: nat, u: nat, v: nat, a: nat, w: nat, r: nat, s: nat, t: nat, q: nat, k: nat)
    requires Mul(bound, Mul(u, v)) == Mul(a, w) && Mul(t, r) == Mul(Mul(s, q), k)
    ensures Mul(Mul(m, Mul(u, r)), Mul(v, s)) == Mul(m, Mul(Mul(u, r), Mul(v, s)))
    ensures Mul(bound, Mul(Mul(u, r), Mul(v, s))) == Mul(Mul(a, s), Mul(w, r))
    ensures Mul(Mul(k, Mul(w, q)), Mul(v, s)) == Mul(Mul(t, v), Mul(w, r))
  {
    hide Mul;
    MulLaws(m, Mul(u, r), Mul(v, s));
    MulSwap(u, r, v, s);
    MulLaws(bound, Mul(u, v), Mul(r, s));
    MulLaws(r, s, 1);
    MulSwap(a, w, s, r);
    MulLaws(s, r, 1);
    MulSwap(t, v, r, w);
    MulLaws(r, w, 1);
    MulLaws(w, r, 1);
    MulSwap(k, Mul(w, q), s, v);
    MulLaws(s, v, 1);
    MulLaws(v, s, 1);
    FiveProducts(k, w, q, v, s);
  }

  lemma FiveProducts(k: nat, w: nat, q: nat, v: nat, s: nat)
    ensures Mul(Mul(Mul(s, q), k), Mul(v, w)) == Mul(Mul(k, Mul(w, q)), Mul(v, s))
  {
    var sq, vw := s * q, v * w;
    assert (sq * k) * vw == k * (sq * vw);
    assert sq * vw == (w * q) * (v * s) by {
      assert (s * q) * (w * v) == (s * v) * (q * w) by { MulSwap(s, q, w, v); }
    }
    assert k * ((w * q) * (v * s)) == (k * (w * q)) * (v * s);
  }

  /** A lower bound carried through a product of powers. */
  lemma AtLeastPower(m: nat, low: nat, u: nat, v: nat, a: nat, w: nat, r: nat, s: nat, t: nat, q: nat, k: nat)
    requires Mul(low, Mul(u, v)) == Mul(a, w) && low <= m && Mul(t, v) <= Mul(a, s)
    requires Mul(t, r) == Mul(Mul(s, q), k) && v > 0 && s > 0
    ensures Mul(k, Mul(w, q)) <= Mul(m, Mul(u, r))
  {
    BoundProducts(m, low, u, v, a, w, r, s, t, q, k);
    Times(low, m, Mul(Mul(u, r), Mul(v, s)), Mul(Mul(u, r), Mul(v, s)));
    Times(Mul(t, v), Mul(a, s), Mul(w, r), Mul(w, r));
    Compare2(Mul(m, Mul(u, r)), Mul(k, Mul(w, q)), Mul(v, s));
  }

  lemma Compare2(x: nat, y: nat, z: nat)
    requires z > 0
    ensures Mul(y, z) <= Mul(x, z) <==> y <= x
  {
    Rounding.Ascending(x, y, z);
  }

  lemma BelowPower(m: nat, high: nat, u: nat, v: nat, a: nat, w: nat, r: nat, s: nat, t: nat, q: nat, k: nat)
    requires Mul(high, Mul(u, v)) == Mul(a, w) && m < high && Mul(a, s) <= Mul(t, v)
    requires Mul(t, r) == Mul(Mul(s, q), k) && v > 0 && s > 0 && u > 0 && r > 0
    ensures Mul(m, Mul(u, r)) < Mul(k, Mul(w, q))
  {
    BoundProducts(m, high, u, v, a, w, r, s, t, q, k);
    Compare2(m, high, Mul(Mul(u, r), Mul(v, s)));
    Times(Mul(a, s), Mul(t, v), Mul(w, r), Mul(w, r));
    Compare2(Mul(m, Mul(u, r)), Mul(k, Mul(w, q)), Mul(v, s));
  }

  /** m * 2^(e-53) * radix^(p-e0) is at least radix^(p-1). */
  lemma FirstExponent(m: nat, e: int, radix: nat, e0: int, p: nat)
    requires radix >= 2 && p >= 1 && Pow(2, 52) <= m && IsLog(radix, e, e0)
    ensures Mul(Pow(radix, p - 1), Denominator(e - 53, radix, p - e0)) <= Numerator(m, e - 53, radix, p - e0)
  {
    var w, y, z, f := e - 53, e - 1, e0 - 1, p - e0;
    PowerValue(52, w, 0, y);
    PowOne(2);
    AnyPowers(radix, z, f, p - 1);
    Whole(radix, p - 1);
    hide Pow, Up, Down;
    MulLaws(Mul(Up(2, y), Down(2, w)), 1, 1);
    MulLaws(1, Mul(Up(2, y), Down(2, w)), 1);
    MulLaws(Mul(Up(radix, z), Up(radix, f)), 1, 1);
    AtLeastPower(m, Pow(2, 52), Up(2, w), Down(2, y), Up(2, y), Down(2, w), Up(radix, f), Down(radix, z), Up(radix, z),
                 Down(radix, f), Pow(radix, p - 1));
  }

  /** With the exponent increased by one it is below radix^p. */
  lemma NextExponent(m: nat, e: int, radix: nat, e0: int, p: nat)
    requires radix >= 2 && p >= 1 && m < Pow(2, 53) && IsLog(radix, e, e0)
    ensures Numerator(m, e - 53, radix, p - (e0 + 1)) < Mul((if radix == 2 then 1 else 2) * Pow(radix, p - 1),
                                                            Denominator(e - 53, radix, p - (e0 + 1)))
  {
    var w, f := e - 53, p - (e0 + 1);
    AnyPowers(radix, e0, f, p - 1);
    Whole(radix, p - 1);
    PowOne(2);
    if radix == 2 {
      BinaryLog(e, e0);
      PowerValue(53, w, 0, e);
      hide Pow, Up, Down;
      MulLaws(Mul(Up(2, e), Down(2, w)), 1, 1);
      MulLaws(1, Mul(Up(2, e), Down(2, w)), 1);
      MulLaws(Mul(Up(radix, e0), Up(radix, f)), 1, 1);
      BelowPower(m, Pow(2, 53), Up(2, w), Down(2, e), Up(2, e), Down(2, w), Up(radix, f), Down(radix, e0),
                 Up(radix, e0),
                 Down(radix, f), Pow(radix, p - 1));
    } else {
      PowerValue(53, w, 1, e - 1);
      hide Pow, Up, Down;
      NextDoubled(m, e, radix, e0, p);
    }
  }

  lemma NextDoubled(m: nat, e: int, radix: nat, e0: int, p: nat)
    requires radix >= 2 && p >= 1 && m < Pow(2, 53) && IsLog(radix, e, e0)
    requires var w, f := e - 53, p - (e0 + 1);
             && Mul(Pow(2, 53), Mul(Up(2, w), Down(2, e - 1))) == Mul(Pow(2, 1), Mul(Up(2, e - 1), Down(2, w)))
             && Mul(Mul(Up(radix, e0), Up(radix, f)), Down(radix, p - 1))
                == Mul(Mul(Down(radix, e0), Down(radix, f)), Up(radix, p - 1))
    ensures Numerator(m, e - 53, radix, p - (e0 + 1)) < Mul(2 * Pow(radix, p - 1),
                                                            Denominator(e - 53, radix, p - (e0 + 1)))
  {
    var w, y, f := e - 53, e - 1, p - (e0 + 1);
    PowOne(2);
    Whole(radix, p - 1);
    hide Pow, Up, Down;
    var t, k := Up(radix, e0), Pow(radix, p - 1);
    MulLaws(Mul(t, Up(radix, f)), 1, 1);
    MulLaws(2, Up(2, y), Down(2, w));
    MulLaws(2, t, Up(radix, f));
    MulLaws(2, t, Down(2, y));
    MulLaws(2, Up(2, y), Down(radix, e0));
    MulLaws(Mul(Down(radix, e0), Down(radix, f)), 2, k);
    MulLaws(2, Mul(Down(radix, e0), Down(radix, f)), k);
    assert Mul(2, k) == 2 * k;
    assert Mul(2, Mul(Up(2, y), Down(radix, e0))) <= Mul(2, Mul(t, Down(2, y)));
    BelowPower(m, Pow(2, 53), Up(2, w), Down(2, y), Mul(2, Up(2, y)), Down(2, w), Up(radix, f), Down(radix, e0),
               Mul(2, t),
               Down(radix, f), Mul(2, k));
  }

  /** For radix 2 the logarithm of 2^(e-1) is e - 1. */
  lemma BinaryLog(e: int, e0: int)
    requires IsLog(2, e, e0)
    ensures Mul(Up(2, e), Down(2, e0)) <= Mul(Up(2, e0), Down(2, e))
  {
    if e0 < e {
      PowerMonotone(e0, e - 1);
    } else {
      PowerMonotone(e, e0);
    }
  }

  lemma PowerMonotone(x: int, y: int)
    requires x <= y
    ensures Mul(Up(2, x), Down(2, y)) <= Mul(Up(2, y), Down(2, x))
  {
    PowMonotone(2, Max(x, 0), Max(y, 0));
    PowMonotone(2, Max(-y, 0), Max(-x, 0));
    Times(Up(2, x), Up(2, y), Down(2, y), Down(2, x));
  }

  // ----- the candidates ------------------------------------------------------------------------

  /** Both exponents leave n/d almost as large as k. */
  ghost predicate LargeEnough(n: nat, d: nat, radix: nat, k: nat) {
    d > 0 && (2 * radix * k - 1) * d <= 2 * radix * n
  }

  lemma LargeEnoughFirst(n: nat, d: nat, radix: nat, k: nat)
    requires d > 0 && radix >= 2 && Mul(k, d) <= n
    ensures LargeEnough(n, d, radix, k)
  {
    var kd := k * d;
    assert (2 * radix * k - 1) * d == (2 * radix) * kd - d by { LargeProduct(radix, k, d); }
    Times(kd, n, 2 * radix, 2 * radix);
    assert 2 * radix * n == n * (2 * radix) && (2 * radix) * kd == kd * (2 * radix);
  }

  lemma LargeProduct(radix: nat, k: nat, d: nat)
    ensures (2 * radix * k - 1) * d == (2 * radix) * (k * d) - d
  {
    var a := 2 * radix * k;
    assert (a - 1) * d == a * d - d;
    assert ((2 * radix) * k) * d == (2 * radix) * (k * d);
  }

  /** The candidate has at least the digits its exponent promises. */
  lemma CandidateBelow(n: nat, d: nat, radix: nat, k: nat, f: nat)
    requires LargeEnough(n, d, radix, k) && radix >= 2 && k >= 1 && f == Round(n, d, RNDN)
    ensures f >= k && (n < k * d ==> f == k && 2 * radix * (k * d - n) <= d)
  {
    LargeProduct(radix, k, d);
    var x := k * d - n;
    assert 2 * radix * x == (2 * radix) * (k * d) - 2 * radix * n by { DistributeMinus(2 * radix, k * d, n); }
    if n >= k * d {
      RoundBetween2(n, d, k);
    } else {
      Times(4, 2 * radix, x, x);
      RoundClose(n, d, k);
    }
  }

  lemma DistributeMinus(a: nat, b: int, c: int)
    ensures a * (b - c) == a * b - a * c
  {
  }

  lemma RoundBetween2(n: nat, d: nat, k: nat)
    requires d > 0 && k * d <= n
    ensures Round(n, d, RNDN) >= k
  {
    Above(n, d, k);
  }

  /** Rounding to at least 2^53 moves the number by at most 2^-54 of it. */
  lemma CandidateClose(n: nat, d: nat, radix: nat, k: nat, f: nat)
    requires LargeEnough(n, d, radix, k) && radix >= 2 && k >= TWO53 && f == Round(n, d, RNDN)
    ensures f * d >= 0 && QUARTER_ULP * Distance(f * d, n) <= n
  {
    hide Round;
    CandidateBelow(n, d, radix, k, f);
    hide LargeEnough;
    Positive(f, d);
    Times(TWO53, k, d, d);
    if n >= k * d {
      RoundIs(n, d, RNDN);
      Multiples(f, d, f * d);
    } else {
      NearPower(n, d, radix, k * d);
    }
  }

  lemma NearPower(n: nat, d: nat, radix: nat, kd: nat)
    requires n < kd && 2 * radix * (kd - n) <= d && radix >= 2 && TWO53 * d <= kd && d > 0
    ensures QUARTER_ULP * (kd - n) <= n
  {
    var x := kd - n;
    Times(4, 2 * radix, x, x);
  }

  /** If the rounding with one exponent has too many digits, that with the next
      has enough. */
  lemma LargeEnoughNext(m: nat, w: int, radix: nat, f: int, k: nat)
    requires radix >= 2
    requires Round(Numerator(m, w, radix, f), Denominator(w, radix, f), RNDN) >= radix * k
    ensures LargeEnough(Numerator(m, w, radix, f - 1), Denominator(w, radix, f - 1), radix, k)
  {
    hide Round, Numerator, Denominator;
    var n0, d0, n, d := Numerator(m, w, radix, f), Denominator(w, radix, f), Numerator(m, w, radix, f - 1),
      Denominator(w, radix, f - 1);
    Positive(radix, k);
    RoundAtLeast(n0, d0, radix * k);
    OneLess(m, w, radix, f);
    CrossStep(2 * (radix * k) - 1, n0, d0, n, d, radix);
    assert 2 * (radix * k) == 2 * radix * k;
  }

  lemma CrossStep(c: int, n0: nat, d0: nat, n: nat, d: nat, radix: nat)
    requires c * d0 <= 2 * n0 && n0 * d == radix * n * d0 && d0 > 0
    ensures c * d <= 2 * radix * n
  {
    Times2(c * d0, 2 * n0, d);
    assert (c * d0) * d == (c * d) * d0;
    assert (2 * n0) * d == 2 * (n0 * d);
    var rn := radix * n;
    assert 2 * (rn * d0) == (2 * rn) * d0;
    Rounding.Ascending(2 * rn, c * d, d0);
    assert 2 * radix * n == 2 * rn;
  }

  lemma Times2(a: int, b: int, c: nat)
    requires a <= b
    ensures a * c <= b * c
  {
  }

  lemma RoundAtLeast(n: nat, d: nat, r: nat)
    requires d > 0 && Round(n, d, RNDN) >= r
    ensures (2 * r - 1) * d <= 2 * n
  {
    RoundIs(n, d, RNDN);
    hide Round;
    Times2(2 * r - 1, 2 * Round(n, d, RNDN) - 1, d);
  }

  /** n/d with exponent f is radix times n/d with exponent f - 1. */
  lemma OneLess(m: nat, w: int, radix: nat, f: int)
    requires radix > 0
    ensures Numerator(m, w, radix, f) * Denominator(w, radix, f - 1)
            == radix * Numerator(m, w, radix, f - 1) * Denominator(w, radix, f)
  {
    AnyPowers(radix, 1, f - 1, f);
    Whole(radix, 1);
    PowOne(radix);
    hide Pow, Up, Down;
    var u, v, a, b, c, d := Up(2, w), Down(2, w), Up(radix, f), Down(radix, f), Up(radix, f - 1), Down(radix, f - 1);
    MulLaws(1, d, 1);
    MulLaws(d, 1, 1);
    assert (radix * c) * b == d * a;
    OneLessProducts(m, u, v, a, b, c, d, radix);
  }

  lemma OneLessProducts(m: nat, u: nat, v: nat, a: nat, b: nat, c: nat, d: nat, radix: nat)
    requires (radix * c) * b == d * a
    ensures (m * (u * a)) * (v * d) == radix * (m * (u * c)) * (v * b)
  {
    var mu := m * u;
    assert m * (u * a) == mu * a && m * (u * c) == mu * c;
    assert (mu * a) * (v * d) == (mu * v) * (d * a) by { MulSwap(mu, a, v, d); }
    assert radix * (mu * c) == mu * (radix * c);
    assert (mu * (radix * c)) * (v * b) == (mu * v) * ((radix * c) * b) by { MulSwap(mu, radix * c, v, b); }
  }

  /** radix^f * F / 2^0 is the number that the rounded F stands for. */
  lemma CandidateForm(fr: nat, w: int, radix: nat, f: int)
    ensures SameNumber(Mul(fr, Denominator(w, radix, f)), Mul(Up(2, w), Up(radix, f)), w,
                       Mul(fr, Up(radix, -f)), Down(radix, -f), 0)
  {
    Inverse(radix, f);
    Whole(2, 0);
    hide Up, Down, Pow, Mul;
    var u, v, a, b := Up(2, w), Down(2, w), Up(radix, f), Down(radix, f);
    FormProducts(fr, u, v, a, b);
  }

  lemma FormProducts(fr: nat, u: nat, v: nat, a: nat, b: nat)
    ensures Mul(Mul(Mul(fr, Mul(v, b)), a), Mul(u, 1)) == Mul(Mul(Mul(fr, b), Mul(u, a)), Mul(1, v))
  {
    var fb, ua := fr * b, u * a;
    assert fr * (v * b) == fb * v;
    assert ((fb * v) * a) * u == (fb * ua) * v by {
      assert (fb * v) * a == (fb * a) * v && ((fb * a) * v) * u == (fb * (u * a)) * v by { Regroup4(fb, v, a, u); }
    }
  }

  lemma Regroup4(x: nat, v: nat, a: nat, u: nat)
    ensures (x * v) * a == (x * a) * v && ((x * a) * v) * u == (x * (u * a)) * v
  {
    var xa := x * a;
    assert (xa * v) * u == (xa * u) * v;
    assert xa * u == x * (u * a);
  }

  /** The first candidate reads back as the number, because radix^(p-1) is at
      least 2^53. The source accepts it without reading it. */
  lemma FirstCandidate(m: nat, e: int, radix: nat, f: int, k: nat, fr: nat) returns (top: int)
    requires IsDouble(m, e) && radix >= 2 && k >= TWO53
    requires LargeEnough(Numerator(m, e - 53, radix, f), Denominator(e - 53, radix, f), radix, k)
    requires fr == Round(Numerator(m, e - 53, radix, f), Denominator(e - 53, radix, f), RNDN)
    ensures NearestDouble(Mul(fr, Up(radix, -f)), Down(radix, -f), 0, top, m, e)
  {
    var w := e - 53;
    var n, d, c := Numerator(m, w, radix, f), Denominator(w, radix, f), Mul(Up(2, w), Up(radix, f));
    CandidateClose(n, d, radix, k, fr);
    assert n == m * c && c > 0;
    hide NearestDouble, IsDouble, LargeEnough, Round, Numerator, Up, Down, SameNumber, Denominator;
    top := CloseDouble(fr * d, c, m, e);
    CandidateForm(fr, w, radix, f);
    assert Mul(fr, d) == fr * d;
    NearestSame(fr * d, c, w, Mul(fr, Up(radix, -f)), Down(radix, -f), 0, top, m, e);
  }

  /** Removing k zeros at the end and raising the exponent by k. */
  lemma ZerosRemoved(fr: nat, mant: nat, k: nat, radix: nat, f: int)
    requires fr == mant * Pow(radix, k)
    ensures SameNumber(Mul(fr, Up(radix, f)), Down(radix, f), 0, Mul(mant, Up(radix, f + k)), Down(radix, f + k), 0)
  {
    AnyPowers(radix, k, f, f + k);
    Whole(radix, k);
    Whole(2, 0);
    hide Up, Down, Pow, Mul;
    var p, u, v, u1, v1 := Pow(radix, k), Up(radix, f), Down(radix, f), Up(radix, f + k), Down(radix, f + k);
    MulLaws(1, v, 1);
    MulLaws(v, 1, 1);
    ZeroProducts(mant, p, u, v, u1, v1);
    ProductIs(mant, p);
  }

  lemma ZeroProducts(mant: nat, p: nat, u: nat, v: nat, u1: nat, v1: nat)
    requires Mul(Mul(p, u), v1) == Mul(v, u1)
    ensures Mul(Mul(Mul(mant, p), u), v1) == Mul(Mul(mant, u1), v)
  {
    hide Mul;
    MulLaws(mant, p, u);
    MulLaws(mant, Mul(p, u), v1);
    MulLaws(mant, u1, v);
    MulLaws(v, u1, 1);
  }

  // ----- the loops -----------------------------------------------------------------------------

  ghost predicate ReadingRoom(capacity: nat, radix1: nat, radixShift: nat, g: int)
    requires OddPart(radix1)
  {
    && 2 + LimbsFor(radix1, Max(g, 0)) + 2 <= capacity
    && forall v: nat :: 0 < v < BASE * BASE ==> HasRoom(2, capacity, v, radix1, radixShift, g, false, 55)
  }

  /** The buffer is large enough for scaling up and down by radix^lo to radix^hi. */
  ghost predicate Suffices(capacity: nat, m: nat, e: int, radix1: nat, radixShift: nat, lo: int, hi: int)
    requires m > 0 && OddPart(radix1)
  {
    forall f :: lo <= f <= hi ==> Room(capacity, m, e, radix1, radixShift, f)
  }

  ghost predicate Room(capacity: nat, m: nat, e: int, radix1: nat, radixShift: nat, f: int)
    requires m > 0 && OddPart(radix1)
  {
    RoundingRoom(capacity, m, e - 53, radix1, radixShift, f) && ReadingRoom(capacity, radix1, radixShift, -f)
  }

  /** What js_dtoa knows about its arguments. */
  ghost predicate Arguments(capacity: nat, m: nat, e: int, radix: nat, radix1: nat, radixShift: nat, e0: int) {
    && IsDouble(m, e) && m > 0 && 2 <= radix <= 36
    && OddPart(radix1) && radix1 * Pow(2, radixShift) == radix && IsLog(radix, e, e0)
    && Suffices(capacity, m, e, radix1, radixShift, -e0, DTOA_MAX_DIGITS[radix - 2] - e0)
  }

  lemma Known(capacity: nat, m: nat, e: int, radix: nat, radix1: nat, radixShift: nat, e0: int)
    requires Arguments(capacity, m, e, radix, radix1, radixShift, e0)
    ensures 0 < m < BASE * BASE && Pow(2, 52) <= m < Pow(2, 53) && 2 <= radix <= 36 && |DTOA_MAX_DIGITS| == 35
            && DTOA_MAX_DIGITS[radix - 2] >= 1
    ensures IsDouble(m, e) && OddPart(radix1) && radix1 * Pow(2, radixShift) == radix && IsLog(radix, e, e0)
  {
    Pow53();
    EnoughDigits(radix);
    hide Suffices;
  }

  lemma KnownSizes(capacity: nat, m: nat, e: int, radix: nat, radix1: nat, radixShift: nat, e0: int)
    requires Arguments(capacity, m, e, radix, radix1, radixShift, e0)
    ensures Pow(2, 52) <= m < Pow(2, 53) && 2 <= radix <= 36 && |DTOA_MAX_DIGITS| == 35 && IsLog(radix, e, e0)
  {
    Known(capacity, m, e, radix, radix1, radixShift, e0);
  }

  lemma RoomFor(capacity: nat, m: nat, e: int, radix: nat, radix1: nat, radixShift: nat, e0: int, e1: int, p: nat)
    requires Arguments(capacity, m, e, radix, radix1, radixShift, e0)
    requires 2 <= radix <= 36 && 1 <= p <= DTOA_MAX_DIGITS[radix - 2] && (e1 == e0 || e1 == e0 + 1)
    ensures m > 0 && OddPart(radix1) && Room(capacity, m, e, radix1, radixShift, p - e1)
  {
    hide Room;
  }

  lemma RoomIs(capacity: nat, m: nat, e: int, radix1: nat, radixShift: nat, f: int)
    requires m > 0 && OddPart(radix1) && Room(capacity, m, e, radix1, radixShift, f)
    ensures RoundingRoom(capacity, m, e - 53, radix1, radixShift, f) && ReadingRoom(capacity, radix1, radixShift, -f)
  {
  }

  /** x * radix^f rounded to a whole number, for x = m * 2^(e-53). */
  ghost function Candidate(m: nat, e: int, radix: nat, f: int): nat
    requires radix > 0
  {
    Round(Numerator(m, e - 53, radix, f), Denominator(e - 53, radix, f), RNDN)
  }

  /** The exponent with which the number, rounded to q digits, has no more of them. */
  ghost function TryExponent(m: nat, e: int, radix: nat, e0: int, q: nat): int
    requires radix > 0
  {
    if Candidate(m, e, radix, q - e0) < Pow(radix, q) then e0 else e0 + 1
  }

  /** The number rounded to q digits. */
  ghost function TryMantissa(m: nat, e: int, radix: nat, e0: int, q: nat): nat
    requires radix > 0
  {
    Candidate(m, e, radix, q - TryExponent(m, e, radix, e0, q))
  }

  /** mant * radix^g has the nearest float64 (m, e). */
  ghost predicate ReadsAs(mant: nat, radix: nat, g: int, m: nat, e: int) {
    exists top :: NearestDouble(Mul(mant, Up(radix, g)), Down(radix, g), 0, top, m, e)
  }

  /** Its first q digits are enough to tell it from all other float64. */
  ghost predicate ReadsBack(m: nat, e: int, radix: nat, e0: int, q: nat)
    requires radix > 0
  {
    ReadsAs(TryMantissa(m, e, radix, e0, q), radix, TryExponent(m, e, radix, e0, q) - q, m, e)
  }

  lemma ReadsAsIs(mant: nat, radix: nat, g: int, m: nat, e: int, top: int)
    requires NearestDouble(Mul(mant, Up(radix, g)), Down(radix, g), 0, top, m, e)
    ensures ReadsAs(mant, radix, g, m, e)
  {
    hide NearestDouble;
  }

  /** There is one nearest float64. */
  lemma ReadsOther(mant: nat, radix: nat, g: int, m: nat, e: int, top: int, m1: nat, e1: int)
    requires NearestDouble(Mul(mant, Up(radix, g)), Down(radix, g), 0, top, m1, e1) && m > 0
    ensures ReadsAs(mant, radix, g, m, e) ==> m1 == m && e1 == e
  {
    hide NearestDouble;
    if ReadsAs(mant, radix, g, m, e) {
      var top1 :| NearestDouble(Mul(mant, Up(radix, g)), Down(radix, g), 0, top1, m, e);
      NearestUnique(Mul(mant, Up(radix, g)), Down(radix, g), 0, top1, m, e, top, m1, e1);
    }
  }

  /** A zero at the end changes nothing. */
  lemma ReadsWithZero(c: nat, radix: nat, g: int, g1: int, m: nat, e: int)
    requires radix > 0 && g1 == g + 1
    ensures radix * c >= 0 && (ReadsAs(radix * c, radix, g, m, e) <==> ReadsAs(c, radix, g1, m, e))
  {
    Positive(radix, c);
    PowOne(radix);
    var x := radix * c;
    assert c * Pow(radix, 1) == x;
    ZerosRemoved(x, c, 1, radix, g);
    hide NearestDouble, SameNumber, Up, Down;
    SameEitherWay(Mul(x, Up(radix, g)), Down(radix, g), Mul(c, Up(radix, g1)), Down(radix, g1));
    if ReadsAs(x, radix, g, m, e) {
      var top :| NearestDouble(Mul(x, Up(radix, g)), Down(radix, g), 0, top, m, e);
      NearestSame(Mul(x, Up(radix, g)), Down(radix, g), 0, Mul(c, Up(radix, g1)), Down(radix, g1), 0, top, m, e);
    }
    if ReadsAs(c, radix, g1, m, e) {
      var top :| NearestDouble(Mul(c, Up(radix, g1)), Down(radix, g1), 0, top, m, e);
      NearestSame(Mul(c, Up(radix, g1)), Down(radix, g1), 0, Mul(x, Up(radix, g)), Down(radix, g), 0, top, m, e);
    }
  }

  lemma SameEitherWay(n: nat, d: nat, n1: nat, d1: nat)
    ensures SameNumber(n, d, 0, n1, d1, 0) ==> SameNumber(n1, d1, 0, n, d, 0)
  {
    hide Mul, Up, Down;
  }

  // ----- one digit less -------------------------------------------------------------------------

  /** Within 1/2 of a multiple of the radix: within less than 1/2 of the multiple
      after a division by the radix. */
  lemma CloserStep(n0: nat, d0: nat, n: nat, d: nat, radix: nat, c: nat)
    requires d0 > 0 && d > 0 && radix >= 2 && n0 * d == radix * n * d0
    requires radix * c >= 0 && Round(n0, d0, RNDN) == radix * c
    ensures Round(n, d, RNDN) == c
  {
    RoundIs(n0, d0, RNDN);
    hide Round;
    var k := radix * c;
    CrossStep(2 * k - 1, n0, d0, n, d, radix);
    CrossStepDown(2 * k + 1, n0, d0, n, d, radix);
    Halfway(n, d, radix, c);
    RoundClose(n, d, c);
  }

  lemma CrossStepDown(c: int, n0: nat, d0: nat, n: nat, d: nat, radix: nat)
    requires 2 * n0 <= c * d0 && n0 * d == radix * n * d0 && d0 > 0
    ensures 2 * radix * n <= c * d
  {
    Times2(2 * n0, c * d0, d);
    assert (c * d0) * d == (c * d) * d0;
    assert (2 * n0) * d == 2 * (n0 * d);
    var rn := radix * n;
    assert 2 * (rn * d0) == (2 * rn) * d0;
    Rounding.Ascending(c * d, 2 * rn, d0);
    assert 2 * radix * n == 2 * rn;
  }

  lemma Halfway(n: nat, d: nat, radix: nat, c: nat)
    requires radix >= 2 && d > 0
    requires (2 * (radix * c) - 1) * d <= 2 * radix * n <= (2 * (radix * c) + 1) * d
    ensures c * d >= 0 && 2 * Distance(n, c * d) < d
  {
    var x: int := n - c * d;
    var rx, rc := radix * x, radix * c;
    assert rx == radix * n - rc * d by { assert radix * (c * d) == rc * d; DistributeMinus(radix, n, c * d); }
    assert (2 * rc - 1) * d == 2 * (rc * d) - d && (2 * rc + 1) * d == 2 * (rc * d) + d;
    assert 2 * radix * n == 2 * (radix * n);
    assert 0 - d <= 2 * rx <= d;
    if x >= 0 {
      Times(2, radix, x, x);
    } else {
      Times(2, radix, 0 - x, 0 - x);
      assert radix * (0 - x) == 0 - rx;
    }
  }

  /** If the candidate ends in a zero, the one with a digit less is the rest. */
  lemma OneDigitLess(m: nat, e: int, radix: nat, e0: int, q: nat, c: nat)
    requires radix >= 2 && q >= 1 && radix * c >= 0 && TryMantissa(m, e, radix, e0, q) == radix * c
    ensures TryExponent(m, e, radix, e0, q - 1) == TryExponent(m, e, radix, e0, q)
    ensures TryMantissa(m, e, radix, e0, q - 1) == c
  {
    var f := q - TryExponent(m, e, radix, e0, q);
    var k := Pow(radix, q - 1);
    assert Pow(radix, q) == radix * k;
    assert q - 1 - e0 == q - e0 - 1;
    CandidateStep(m, e, radix, f, c);
    if Candidate(m, e, radix, q - e0) < Pow(radix, q) {
      hide Pow, Candidate;
      Rounding.Ascending(c, k, radix);
      assert c * radix == radix * c && k * radix == radix * k;
    } else {
      LargeStep(m, e, radix, q - e0, k);
      hide Pow, Candidate;
      assert q - 1 - (e0 + 1) == f - 1;
    }
  }

  lemma CandidateStep(m: nat, e: int, radix: nat, f: int, c: nat)
    requires radix >= 2 && radix * c >= 0 && Candidate(m, e, radix, f) == radix * c
    ensures Candidate(m, e, radix, f - 1) == c
  {
    OneLess(m, e - 53, radix, f);
    hide Round, Numerator, Denominator;
    CloserStep(Numerator(m, e - 53, radix, f), Denominator(e - 53, radix, f), Numerator(m, e - 53, radix, f - 1),
               Denominator(e - 53, radix, f - 1), radix, c);
  }

  lemma LargeStep(m: nat, e: int, radix: nat, f: int, k: nat)
    requires radix >= 2 && k >= 1 && radix * k >= 0 && Candidate(m, e, radix, f) >= radix * k
    ensures Candidate(m, e, radix, f - 1) >= k
  {
    hide Round, Numerator, Denominator, LargeEnough;
    LargeEnoughNext(m, e - 53, radix, f, k);
    CandidateBelow(Numerator(m, e - 53, radix, f - 1), Denominator(e - 53, radix, f - 1), radix, k,
                   Candidate(m, e, radix, f - 1));
  }

  /** One zero dropped: the same exponent, and the same answer. */
  lemma OneZero(m: nat, e: int, radix: nat, e0: int, q: nat, c: nat)
    requires radix >= 2 && q >= 1 && radix * c >= 0 && TryMantissa(m, e, radix, e0, q) == radix * c
    ensures TryExponent(m, e, radix, e0, q - 1) == TryExponent(m, e, radix, e0, q)
    ensures TryMantissa(m, e, radix, e0, q - 1) == c
    ensures ReadsBack(m, e, radix, e0, q - 1) <==> ReadsBack(m, e, radix, e0, q)
  {
    OneDigitLess(m, e, radix, e0, q, c);
    hide ReadsAs, TryExponent, TryMantissa;
    var g := TryExponent(m, e, radix, e0, q) - q;
    ReadsWithZero(c, radix, g, TryExponent(m, e, radix, e0, q - 1) - (q - 1), m, e);
  }

  lemma LastZero(mant: nat, radix: nat, k: nat)
    requires k >= 1
    ensures mant * Pow(radix, k - 1) >= 0 && mant * Pow(radix, k) == radix * (mant * Pow(radix, k - 1))
  {
    assert Pow(radix, k) == radix * Pow(radix, k - 1);
    hide Pow;
    Positive(mant, Pow(radix, k - 1));
    assert mant * (radix * Pow(radix, k - 1)) == radix * (mant * Pow(radix, k - 1));
  }

  /** Dropping zeros goes through the candidates with fewer digits: all of them
      read back or none. */
  lemma {:induction false} Stripped(m: nat, e: int, radix: nat, e0: int, q: nat, mant: nat, p: nat)
    requires radix >= 2 && 1 <= p <= q && mant * Pow(radix, q - p) >= 0
    requires TryMantissa(m, e, radix, e0, q) == mant * Pow(radix, q - p)
    ensures TryExponent(m, e, radix, e0, p) == TryExponent(m, e, radix, e0, q)
    ensures TryMantissa(m, e, radix, e0, p) == mant
    ensures forall i :: p <= i <= q ==> (ReadsBack(m, e, radix, e0, i) <==> ReadsBack(m, e, radix, e0, q))
    decreases q - p
  {
    hide ReadsBack, TryExponent, TryMantissa;
    if p < q {
      LastZero(mant, radix, q - p);
      hide Pow;
      OneZero(m, e, radix, e0, q, mant * Pow(radix, q - p - 1));
      Stripped(m, e, radix, e0, q - 1, mant, p);
    } else {
      PowOne(radix);
    }
  }

  /** Candidates are at most 2 radix^p, and below radix^p with the next exponent. */
  lemma CandidateSizes(m: nat, e: int, radix: nat, e0: int, p: nat)
    requires radix >= 2 && p >= 1 && m < Pow(2, 53) && IsLog(radix, e, e0)
    ensures Candidate(m, e, radix, p - e0) <= 2 * Pow(radix, p)
    ensures Candidate(m, e, radix, p - (e0 + 1)) < Pow(radix, p)
  {
    hide Numerator, Denominator, IsLog, Round, Mul, Candidate;
    CandidateSize(m, e, radix, e0, p);
    assert p + 1 - (e0 + 1) == p - e0 && p + 1 - 1 == p;
    CandidateSize(m, e, radix, e0, p + 1);
    var k := Pow(radix, p - 1);
    assert Pow(radix, p) == radix * k;
    hide Pow;
    Times((if radix == 2 then 1 else 2) + 1, radix, k, k);
  }

  lemma CandidateSize(m: nat, e: int, radix: nat, e0: int, p: nat)
    requires radix >= 2 && p >= 1 && m < Pow(2, 53) && IsLog(radix, e, e0)
    ensures Candidate(m, e, radix, p - (e0 + 1)) <= (if radix == 2 then 1 else 2) * Pow(radix, p - 1)
  {
    NextExponent(m, e, radix, e0, p);
    hide Pow, Numerator, Denominator, IsLog, Round, Mul;
    AtMostWhole(Numerator(m, e - 53, radix, p - (e0 + 1)), Denominator(e - 53, radix, p - (e0 + 1)),
                (if radix == 2 then 1 else 2) * Pow(radix, p - 1));
  }

  lemma SizesFit(m: nat, e: int, radix: nat, e0: int, p: nat)
    requires 2 <= radix <= 36 && |DTOA_MAX_DIGITS| == 35 && 1 <= p <= DTOA_MAX_DIGITS[radix - 2]
    requires m < Pow(2, 53) && IsLog(radix, e, e0)
    ensures Candidate(m, e, radix, p - e0) < BASE * BASE
    ensures Candidate(m, e, radix, p - (e0 + 1)) < Pow(radix, p) < BASE * BASE
  {
    EnoughDigits(radix);
    hide DTOA_MAX_DIGITS, Pow, IsLog, Candidate;
    PowMonotone(radix, p, DTOA_MAX_DIGITS[radix - 2]);
    CandidateSizes(m, e, radix, e0, p);
  }

  lemma AtMostWhole(n: nat, d: nat, k: nat)
    requires d > 0 && n < Mul(k, d)
    ensures Round(n, d, RNDN) <= k
  {
    QuotientCheck(n, d, k);
  }

  /** The mantissa of p digits is large enough for the number of digits. */
  method FindExponent(tmp1: Mpb, m: nat, e: int, radix: nat, radix1: nat, radixShift: nat, e0: int, p: nat)
    returns (mant: nat, e1: int)
    requires Arguments(tmp1.tab.Length, m, e, radix, radix1, radixShift, e0)
    requires 1 <= p <= DTOA_MAX_DIGITS[radix - 2]
    modifies tmp1, tmp1.tab
    ensures tmp1.Valid() && (e1 == e0 || e1 == e0 + 1) && e1 == TryExponent(m, e, radix, e0, p)
    ensures mant == Candidate(m, e, radix, p - e1) && Pow(radix, p - 1) <= mant < Pow(radix, p)
    ensures LargeEnough(Numerator(m, e - 53, radix, p - e1), Denominator(e - 53, radix, p - e1), radix,
                        Pow(radix, p - 1))
  {
    hide Arguments, IsDouble, Suffices, Room, DTOA_MAX_DIGITS, OddPart;
    KnownSizes(tmp1.tab.Length, m, e, radix, radix1, radixShift, e0);
    hide Value, Pow, IsLog, Candidate, Numerator, Denominator, LargeEnough;
    mant, e1 := SearchExponent(tmp1, m, e, radix, radix1, radixShift, e0, p);
    EnoughLeft(m, e, radix, e0, e1, p, mant);
  }

  lemma TryExponentIs(m: nat, e: int, radix: nat, e0: int, q: nat)
    requires radix > 0
    ensures TryExponent(m, e, radix, e0, q) == if Candidate(m, e, radix, q - e0) < Pow(radix, q) then e0 else e0 + 1
  {
    hide Candidate, Pow;
  }

  /** The loop over the exponent: at most one step is needed. */
  method SearchExponent(tmp1: Mpb, m: nat, e: int, radix: nat, radix1: nat, radixShift: nat, e0: int, p: nat)
    returns (mant: nat, e1: int)
    requires Arguments(tmp1.tab.Length, m, e, radix, radix1, radixShift, e0)
    requires 1 <= p <= DTOA_MAX_DIGITS[radix - 2]
    modifies tmp1, tmp1.tab
    ensures tmp1.Valid() && mant == Candidate(m, e, radix, p - e1) && mant < Pow(radix, p)
    ensures e1 == TryExponent(m, e, radix, e0, p)
    ensures e1 == e0 || (e1 == e0 + 1 && Candidate(m, e, radix, p - e0) >= Pow(radix, p))
  {
    hide Arguments, IsDouble, Suffices, Room, DTOA_MAX_DIGITS, OddPart, Value, Pow, IsLog, Candidate, TryExponent;
    KnownSizes(tmp1.tab.Length, m, e, radix, radix1, radixShift, e0);
    SizesFit(m, e, radix, e0, p);
    TryExponentIs(m, e, radix, e0, p);
    var mantMax := PowUi(radix, p);
    e1 := e0;
    while true
      invariant e1 == e0 || (e1 == e0 + 1 && Candidate(m, e, radix, p - e0) >= Pow(radix, p))
      decreases e0 + 1 - e1
    {
      mant := RoundCandidate(tmp1, m, e, radix, radix1, radixShift, e0, e1, p);
      if mant < mantMax {
        break;
      }
      e1 := e1 + 1;
    }
  }

  /** mul_pow_round and mpb_get_u64. */
  method RoundCandidate(tmp1: Mpb, m: nat, e: int, radix: nat, radix1: nat, radixShift: nat, ghost e0: int, e1: int,
                        p: nat)
    returns (mant: nat)
    requires Arguments(tmp1.tab.Length, m, e, radix, radix1, radixShift, e0)
    requires 1 <= p <= DTOA_MAX_DIGITS[radix - 2] && (e1 == e0 || e1 == e0 + 1)
    requires Candidate(m, e, radix, p - e1) < BASE * BASE
    modifies tmp1, tmp1.tab
    ensures tmp1.Valid() && mant == Candidate(m, e, radix, p - e1)
  {
    hide Arguments, IsDouble, Suffices, Room, DTOA_MAX_DIGITS, OddPart, Value, Pow, IsLog, Round, RoundingRoom,
         ReadingRoom,
         Numerator, Denominator;
    Known(tmp1.tab.Length, m, e, radix, radix1, radixShift, e0);
    RoomFor(tmp1.tab.Length, m, e, radix, radix1, radixShift, e0, e1, p);
    RoomIs(tmp1.tab.Length, m, e, radix1, radixShift, p - e1);
    MulPowRound(tmp1, m, e - 53, radix1, radixShift, p - e1, RNDN);
    mant := tmp1.GetU64();
  }

  lemma EnoughLeft(m: nat, e: int, radix: nat, e0: int, e1: int, p: nat, mant: nat)
    requires radix >= 2 && p >= 1 && Pow(2, 52) <= m && IsLog(radix, e, e0)
    requires e1 == e0 || (e1 == e0 + 1 && Candidate(m, e, radix, p - e0) >= Pow(radix, p))
    requires mant == Candidate(m, e, radix, p - e1)
    ensures LargeEnough(Numerator(m, e - 53, radix, p - e1), Denominator(e - 53, radix, p - e1), radix,
                        Pow(radix, p - 1))
    ensures mant >= Pow(radix, p - 1)
  {
    var k := Pow(radix, p - 1);
    assert Pow(radix, p) == radix * k;
    if e1 == e0 {
      FirstExponent(m, e, radix, e0, p);
      hide Pow, Numerator, IsLog, Round;
      LargeEnoughFirst(Numerator(m, e - 53, radix, p - e1), Denominator(e - 53, radix, p - e1), radix, k);
    } else {
      hide Pow, Numerator, IsLog, Round;
      LargeEnoughNext(m, e - 53, radix, p - e0, k);
    }
    hide Denominator;
    CandidateBelow(Numerator(m, e - 53, radix, p - e1), Denominator(e - 53, radix, p - e1), radix, k, mant);
  }

  /** `while ((mant % radix) == 0)` */
  method StripZeros(mant0: nat, p0: nat, radix: nat) returns (mant: nat, p: nat)
    requires 0 < mant0 < Pow(radix, p0) && radix >= 2
    ensures 1 <= p <= p0 && 0 < mant < Pow(radix, p) && mant % radix != 0
    ensures mant0 == mant * Pow(radix, p0 - p)
  {
    PowOne(radix);
    mant, p := mant0, p0;
    while mant % radix == 0
      invariant p <= p0 && 0 < mant < Pow(radix, p) && mant0 == mant * Pow(radix, p0 - p)
      decreases mant
    {
      ZeroDropped(mant, p, p0, radix);
      mant := mant / radix;
      p := p - 1;
    }
  }

  lemma ZeroDropped(mant: nat, p: nat, p0: nat, radix: nat)
    requires radix >= 2 && 0 < mant < Pow(radix, p) && mant % radix == 0 && p <= p0
    ensures p >= 1 && 0 < mant / radix < mant && mant / radix < Pow(radix, p - 1)
    ensures mant / radix * Pow(radix, p0 - p + 1) == mant * Pow(radix, p0 - p)
  {
    assert p >= 1 && Pow(radix, p) == radix * Pow(radix, p - 1);
    assert Pow(radix, p0 - p + 1) == radix * Pow(radix, p0 - p);
    hide Pow;
    DroppedDigit(mant, radix, Pow(radix, p - 1), Pow(radix, p0 - p));
  }

  lemma DroppedDigit(mant: nat, radix: nat, top: nat, x: nat)
    requires radix >= 2 && 0 < mant < radix * top && mant % radix == 0
    ensures 0 < mant / radix < mant && mant / radix < top && mant / radix * (radix * x) == mant * x
  {
    QuotientSmall(mant, radix);
    var q := mant / radix;
    assert mant == q * radix;
    Divided(mant, q, radix, top, x);
  }

  lemma Divided(mant: nat, q: nat, radix: nat, top: nat, x: nat)
    requires radix >= 2 && 0 < mant < radix * top && mant == q * radix
    ensures 0 < q < mant && q < top && q * (radix * x) == mant * x
  {
    Times(2, radix, q, q);
    Rounding.Ascending(q, top, radix);
    Rounding.Ascending(0, q, radix);
    assert q * (radix * x) == (q * radix) * x;
  }

  /** Read a candidate back: mpb_set_u64 and mul_pow_round_to_d. */
  method ReadBack(tmp1: Mpb, mant: nat, radix: nat, radix1: nat, radixShift: nat, g: int)
    returns (m1: nat, e1: int, ghost top: int)
    requires 0 < mant < BASE * BASE && radix > 0 && OddPart(radix1) && radix1 * Pow(2, radixShift) == radix
    requires ReadingRoom(tmp1.tab.Length, radix1, radixShift, g)
    modifies tmp1, tmp1.tab
    ensures NearestDouble(Mul(mant, Up(radix, g)), Down(radix, g), 0, top, m1, e1)
  {
    hide Value, Pow, NearestDouble, LimbsFor;
    tmp1.SetU64(mant);
    TwoLimbsOf(tmp1);
    assert HasRoom(2, tmp1.tab.Length, mant, radix1, radixShift, g, false, 55);
    ReadingMonotone(tmp1.len, tmp1.tab.Length, mant, radix1, radixShift, g);
    m1, e1, top := MulPowRoundToD(tmp1, radix1, radixShift, g);
  }

  lemma ReadingMonotone(len: nat, capacity: nat, v: nat, radix1: nat, radixShift: nat, f: int)
    requires v > 0 && OddPart(radix1) && len <= 2 && HasRoom(2, capacity, v, radix1, radixShift, f, false, 55)
    ensures HasRoom(len, capacity, v, radix1, radixShift, f, false, 55)
  {
    hide LimbsFor, Widened;
  }

  /** One try with q digits: the candidate without its zeros. Whether it reads back
      is the same for all digit counts that the zeros pass over; with the largest
      count it does. */
  method Try(tmp1: Mpb, m: nat, e: int, radix: nat, radix1: nat, radixShift: nat, e0: int, q: nat)
    returns (mant: nat, e1: int, p: nat)
    requires Arguments(tmp1.tab.Length, m, e, radix, radix1, radixShift, e0)
    requires 1 <= q <= DTOA_MAX_DIGITS[radix - 2]
    modifies tmp1, tmp1.tab
    ensures 1 <= p <= q && (e1 == e0 || e1 == e0 + 1) && 0 < mant < Pow(radix, p) && mant % radix != 0
    ensures e1 == TryExponent(m, e, radix, e0, p) && mant == TryMantissa(m, e, radix, e0, p)
    ensures forall i :: p <= i <= q ==> (ReadsBack(m, e, radix, e0, i) <==> ReadsBack(m, e, radix, e0, p))
    ensures q == DTOA_MAX_DIGITS[radix - 2] ==> ReadsBack(m, e, radix, e0, p)
  {
    hide Value, Pow, NearestDouble, LargeEnough, Round, Suffices, IsLog, IsDouble, Numerator, Denominator, ReadsAs;
    var fr;
    fr, e1 := FindExponent(tmp1, m, e, radix, radix1, radixShift, e0, q);
    mant, p := StripZeros(fr, q, radix);
    Stripped(m, e, radix, e0, q, mant, p);
    if q == DTOA_MAX_DIGITS[radix - 2] {
      EnoughDigits(radix);
      ghost var top := FirstCandidate(m, e, radix, q - e1, Pow(radix, q - 1), fr);
      assert -(q - e1) == e1 - q;
      ReadsAsIs(fr, radix, e1 - q, m, e, top);
    }
  }

  /** The number rounded to p digits, where p and all larger counts are enough to
      tell it from other float64. */
  ghost predicate Enough(m: nat, e: int, radix: nat, e0: int, mant: nat, e1: int, p: nat)
    requires 2 <= radix <= 36
  {
    && 1 <= p <= DTOA_MAX_DIGITS[radix - 2] && (e1 == e0 || e1 == e0 + 1)
    && 0 < mant < Pow(radix, p) && mant % radix != 0
    && e1 == TryExponent(m, e, radix, e0, p) && mant == TryMantissa(m, e, radix, e0, p)
    && (forall q :: p <= q <= DTOA_MAX_DIGITS[radix - 2] ==> ReadsBack(m, e, radix, e0, q))
  }

  /** The digits js_dtoa settles on: one digit less would not be enough. */
  ghost predicate Digits(m: nat, e: int, radix: nat, e0: int, mant: nat, e1: int, p: nat)
    requires 2 <= radix <= 36
  {
    Enough(m, e, radix, e0, mant, e1, p) && (p > 1 ==> !ReadsBack(m, e, radix, e0, p - 1))
  }

  /** The search for the number of digits. */
  method FreeFormatDigits(tmp1: Mpb, m: nat, e: int, radix: nat, radix1: nat, radixShift: nat, e0: int)
    returns (mantFound: nat, eFound: int, pFound: nat)
    requires Arguments(tmp1.tab.Length, m, e, radix, radix1, radixShift, e0)
    modifies tmp1, tmp1.tab
    ensures Digits(m, e, radix, e0, mantFound, eFound, pFound)
  {
    hide Value, Pow, Arguments, IsDouble, Suffices, Room, DTOA_MAX_DIGITS, OddPart, NearestDouble, IsLog, Up, Down,
         Round, ReadingRoom, ReadsBack, TryExponent, TryMantissa;
    Known(tmp1.tab.Length, m, e, radix, radix1, radixShift, e0);
    var p := DTOA_MAX_DIGITS[radix - 2];
    mantFound, eFound, pFound := 0, 0, 0;
    while true
      invariant 1 <= p <= DTOA_MAX_DIGITS[radix - 2]
      invariant pFound == 0 ==> p == DTOA_MAX_DIGITS[radix - 2]
      invariant pFound != 0 ==> Enough(m, e, radix, e0, mantFound, eFound, pFound) && p == pFound - 1
      decreases p
    {
      var mant, e1, p1 := Try(tmp1, m, e, radix, radix1, radixShift, e0, p);
      var accepted := pFound == 0;
      if pFound != 0 {
        accepted := ReadsSame(tmp1, m, e, radix, radix1, radixShift, e0, mant, e1, p1);
      }
      if !accepted {
        break;
      }
      p := p1;
      pFound, eFound, mantFound := p, e1, mant;
      if p == 1 {
        break;
      }
      p := p - 1;
    }
  }

  /** The test of a candidate. */
  method ReadsSame(tmp1: Mpb, m: nat, e: int, radix: nat, radix1: nat, radixShift: nat, ghost e0: int, mant: nat,
                   e1: int, p: nat)
    returns (same: bool)
    requires Arguments(tmp1.tab.Length, m, e, radix, radix1, radixShift, e0)
    requires 1 <= p <= DTOA_MAX_DIGITS[radix - 2] && (e1 == e0 || e1 == e0 + 1) && 0 < mant < Pow(radix, p)
    requires e1 == TryExponent(m, e, radix, e0, p) && mant == TryMantissa(m, e, radix, e0, p)
    modifies tmp1, tmp1.tab
    ensures same <==> ReadsBack(m, e, radix, e0, p)
  {
    hide Value, Pow, Arguments, IsDouble, Suffices, Room, DTOA_MAX_DIGITS, OddPart, NearestDouble, IsLog, Up, Down,
         Round, ReadingRoom, TryExponent, TryMantissa, ReadsAs;
    Known(tmp1.tab.Length, m, e, radix, radix1, radixShift, e0);
    SmallMantissa(radix, p, mant);
    RoomFor(tmp1.tab.Length, m, e, radix, radix1, radixShift, e0, e1, p);
    RoomIs(tmp1.tab.Length, m, e, radix1, radixShift, p - e1);
    var m1, e2;
    ghost var top;
    m1, e2, top := ReadBack(tmp1, mant, radix, radix1, radixShift, e1 - p);
    same := m1 == m && e2 == e;
    if same {
      ReadsAsIs(mant, radix, e1 - p, m, e, top);
    } else {
      ReadsOther(mant, radix, e1 - p, m, e, top, m1, e2);
    }
  }

  lemma SmallMantissa(radix: nat, p: nat, mant: nat)
    requires 2 <= radix <= 36 && 1 <= p <= DTOA_MAX_DIGITS[radix - 2] && mant < Pow(radix, p)
    ensures mant < BASE * BASE
  {
    EnoughDigits(radix);
    PowMonotone(radix, p, DTOA_MAX_DIGITS[radix - 2]);
  }
}
