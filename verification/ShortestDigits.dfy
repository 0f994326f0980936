/** Whether js_dtoa finds the minimum number of digits, as it means to: it does
    except for some powers of two. */
module ShortestDigits {
  import opened Arithmetic
  import opened Power
  import opened Rounding
  import opened ScaleAndRound
  import opened RoundToDouble
  import opened DigitCounts
  import opened FreeFormat
  import opened ReadingRange

  // ----- the candidate is the nearest number of q digits ------------------------------------

  /** No multiple is nearer than the rounded one. */
  lemma NearestMultiple(n: nat, d: nat, t: nat)
    requires d > 0
    ensures Distance(Mul(Round(n, d, RNDN), d), n) <= Distance(Mul(t, d), n)
  {
    RoundIs(n, d, RNDN);
    var c := Round(n, d, RNDN);
    hide Round;
    Positive(c, d);
    Positive(t, d);
    Multiples(c, d, c * d);
    if t > c {
      Times(c + 1, t, d, d);
    } else if t < c {
      Times(t, c - 1, d, d);
      assert (c - 1) * d == c * d - d;
    }
  }

  /** s / w with s < radix * k and w >= radix lies below n/d and is not nearer to
      it than k. */
  lemma FinerNumber(n: nat, d: nat, radix: nat, k: nat, s: nat, w: nat)
    requires radix >= 2 && k >= 1 && LargeEnough(n, d, radix, k) && radix * k >= 0 && s < radix * k && w >= radix
    ensures Mul(s, d) < Mul(n, w) && Mul(Distance(Mul(k, d), n), w) <= Distance(Mul(s, d), Mul(n, w))
  {
    var rk, kd := radix * k, k * d;
    var y := (rk - 1) * d;
    ProductParts(radix, k, d, rk, kd);
    ScaledParts(y, d, radix, n, w);
    Times(s, rk - 1, d, d);
    Times(radix, w, y, y);
    Positive(d, w);
    assert y * w == radix * (kd * w) - d * w by { ScaledDifference(y, radix, kd, d, w); }
    FinerSides(n * w, kd * w, s * d, y, d * w, y * w, radix, kd, w, n);
  }

  lemma ProductParts(radix: nat, k: nat, d: nat, rk: nat, kd: nat)
    requires rk == radix * k && kd == k * d && k >= 1 && radix >= 1
    ensures (rk - 1) * d == radix * kd - d && (rk - 1) * d >= 0
    ensures (2 * radix * k - 1) * d == 2 * ((rk - 1) * d) + d
  {
    assert (radix * k) * d == radix * (k * d);
    assert 2 * radix * k == 2 * rk;
    Multiples(rk, d, rk * d);
    Positive(radix, k);
    Times(0, rk - 1, d, d);
  }

  lemma ScaledParts(y: nat, d: nat, radix: nat, n: nat, w: nat)
    requires 2 * y + d <= 2 * radix * n
    ensures 2 * (y * w) + d * w <= 2 * (radix * (n * w))
  {
    var rn := radix * n;
    assert 2 * radix * n == 2 * rn;
    Scaled2(2 * y + d, 2 * rn, w);
    assert rn * w == radix * (n * w);
    assert (2 * y + d) * w == 2 * (y * w) + d * w && (2 * rn) * w == 2 * (rn * w);
  }

  lemma ScaledDifference(y: nat, radix: nat, kd: nat, d: nat, w: nat)
    requires y == radix * kd - d
    ensures y * w == radix * (kd * w) - d * w
  {
    var rk := radix * kd;
    assert (rk - d) * w == rk * w - d * w;
    assert rk * w == radix * (kd * w);
  }

  lemma Scaled2(a: nat, b: nat, w: nat)
    requires a <= b
    ensures a * w <= b * w
  {
  }

  lemma FinerSides(nw: nat, kdw: nat, sd: nat, y: nat, dw: nat, yw: nat, radix: nat, kd: nat, w: nat, n: nat)
    requires nw == n * w && kdw == kd * w && sd <= y && radix * y <= yw && 2 * yw + dw <= 2 * (radix * nw)
    requires radix >= 2 && dw > 0 && yw == radix * kdw - dw
    ensures sd < nw && Distance(kd, n) * w <= Distance(sd, nw)
  {
    Times(sd, y, radix, radix);
    LessAfter(sd, nw, radix);
    LessAfter(sd, kdw, radix);
    assert radix * (kdw + sd) == radix * kdw + radix * sd && radix * (2 * nw) == 2 * (radix * nw);
    LessAfter(kdw + sd, 2 * nw, radix);
    if kd < n {
      DistributeMinus(w, n, kd);
    } else {
      DistributeMinus(w, kd, n);
    }
  }

  lemma LessAfter(a: nat, b: nat, radix: nat)
    requires radix > 0
    ensures radix * a < radix * b ==> a < b
    ensures radix * a <= radix * b ==> a <= b
  {
    Rounding.Ascending(a, b, radix);
    Rounding.Ascending(b, a, radix);
    assert a * radix == radix * a && b * radix == radix * b;
  }

  /** Among the numbers s * radix^j with s < radix * k, whatever j is, the rounded
      n/d is nearest to n/d; one above n/d is whole. */
  lemma CandidateNearest(n: nat, d: nat, radix: nat, k: nat, s: nat, j: int)
    requires radix >= 2 && k >= 1 && d > 0 && LargeEnough(n, d, radix, k) && radix * k >= 0 && s < radix * k
    ensures var t, w := Mul(s, Up(radix, j)), Down(radix, j);
            && Mul(Distance(Mul(Round(n, d, RNDN), d), n), w) <= Distance(Mul(t, d), Mul(n, w))
            && (Mul(n, w) < Mul(t, d) ==> w == 1)
  {
    PowOne(radix);
    hide LargeEnough, Round;
    if j >= 0 {
      assert Down(radix, j) == 1;
      NearestMultiple(n, d, Mul(s, Up(radix, j)));
      MulLaws(n, 1, 1);
      MulLaws(Distance(Mul(Round(n, d, RNDN), d), n), 1, 1);
    } else {
      assert Up(radix, j) == 1;
      PowMonotone(radix, 1, -j);
      MulLaws(s, 1, 1);
      NearestMultiple(n, d, k);
      hide Pow, Distance;
      FinerNumber(n, d, radix, k, s, Pow(radix, -j));
      Times(Distance(Mul(Round(n, d, RNDN), d), n), Distance(Mul(k, d), n), Pow(radix, -j), Pow(radix, -j));
    }
  }

  // ----- in units of the last place -----------------------------------------------------------

  /** a / v == t / x as a distance. */
  lemma ScaledDistance(a: nat, v: nat, t: nat, x: nat)
    requires Mul(a, x) == Mul(v, t) && x > 0 && v > 0
    ensures Mul(x, Distance(a, v)) == Mul(v, Distance(t, x)) && (a < v <==> t < x)
  {
    Rounding.Ascending(a, v, x);
    Rounding.Ascending(t, x, v);
    assert v * t == t * v && v * x == x * v;
    if a < v {
      DistributeMinus(x, v, a);
      DistributeMinus(v, x, t);
    } else {
      DistributeMinus(x, a, v);
      DistributeMinus(v, t, x);
    }
  }

  /** c is not further from n/d than t/w: the same in units r * (d/n). */
  lemma NoFurther(a: nat, b: nat, a1: nat, b1: nat, r: nat, n: nat, d: nat, c: nat, t: nat, w: nat)
    requires b > 0 && b1 > 0 && r > 0 && n > 0 && w > 0
    requires Mul(a1, n) == Mul(Mul(r, b1), Mul(c, d)) && Mul(a, Mul(n, w)) == Mul(Mul(r, b), Mul(t, d))
    requires Mul(Distance(Mul(c, d), n), w) <= Distance(Mul(t, d), Mul(n, w))
    ensures Mul(Distance(a1, Mul(r, b1)), b) <= Mul(Distance(a, Mul(r, b)), b1)
    ensures a1 < Mul(r, b1) <==> Mul(c, d) < n
    ensures a < Mul(r, b) <==> Mul(t, d) < Mul(n, w)
  {
    ScaledDistance(a1, Mul(r, b1), Mul(c, d), n);
    ScaledDistance(a, Mul(r, b), Mul(t, d), Mul(n, w));
    hide Distance;
    NoFurtherProducts(Distance(a1, Mul(r, b1)), Distance(a, Mul(r, b)), Distance(Mul(c, d), n),
                      Distance(Mul(t, d), Mul(n, w)), r, b, b1, n, w);
  }

  lemma NoFurtherProducts(g1: nat, g: nat, e1: nat, e: nat, r: nat, b: nat, b1: nat, n: nat, w: nat)
    requires Mul(n, g1) == Mul(Mul(r, b1), e1) && Mul(Mul(n, w), g) == Mul(Mul(r, b), e) && Mul(e1, w) <= e
    requires n > 0 && w > 0
    ensures Mul(g1, b) <= Mul(g, b1)
  {
    var bb := Mul(b, b1);
    assert Mul(Mul(n, w), Mul(g1, b)) == Mul(Mul(r, bb), Mul(e1, w)) by {
      hide Mul;
      MulSwap(n, w, g1, b);
      FirstSide(r, b, b1, e1, w);
    }
    assert Mul(Mul(n, w), Mul(g, b1)) == Mul(Mul(r, bb), e) by {
      hide Mul;
      MulLaws(Mul(n, w), g, b1);
      SecondSide(r, b, b1, e);
    }
    Times(Mul(e1, w), e, Mul(r, bb), Mul(r, bb));
    ProductsOrdered(Mul(n, w), Mul(g1, b), Mul(g, b1), Mul(r, bb), Mul(e1, w), e);
  }

  lemma ProductsOrdered(x: nat, y: nat, z: nat, v: nat, a: nat, b: nat)
    requires Mul(x, y) == Mul(v, a) && Mul(x, z) == Mul(v, b) && x > 0 && a <= b
    ensures y <= z
  {
    Times(a, b, v, v);
    assert v * a == a * v && v * b == b * v && x * y == y * x && x * z == z * x;
    Rounding.Ascending(z, y, x);
  }

  lemma FirstSide(r: nat, b: nat, b1: nat, e1: nat, w: nat)
    ensures Mul(Mul(Mul(r, b1), e1), Mul(w, b)) == Mul(Mul(r, Mul(b, b1)), Mul(e1, w))
  {
    hide Mul;
    MulLaws(w, b, 1);
    MulSwap(Mul(r, b1), e1, b, w);
    MulLaws(r, b1, b);
    MulLaws(b, b1, 1);
  }

  lemma SecondSide(r: nat, b: nat, b1: nat, e: nat)
    ensures Mul(Mul(Mul(r, b), e), b1) == Mul(Mul(r, Mul(b, b1)), e)
  {
    hide Mul;
    MulLaws(Mul(r, b), e, b1);
    MulLaws(e, b1, 1);
    MulLaws(Mul(r, b), b1, e);
    MulLaws(r, b, b1);
  }

  /** s * radix^h in units of the last place of m * 2^w, which is worth r of them,
      against n/d = m * 2^w * radix^f and s * radix^j. */
  lemma ScaledEquation(m: nat, w: int, r: nat, g: int, radix: nat, f: int, s: nat, h: int, j: int)
    requires radix > 0 && SameValue(m, w, r, g) && j == h + f
    ensures Mul(Num(Mul(s, Up(radix, h)), 0, g), Mul(Numerator(m, w, radix, f), Down(radix, j)))
         == Mul(Mul(r, Den(Down(radix, h), 0, g)), Mul(Mul(s, Up(radix, j)), Denominator(w, radix, f)))
  {
    AnyPowers(radix, h, f, j);
    assert g - 0 == g;
    hide Up, Down;
    EquationProducts(s, Up(radix, h), Down(2, g), m, Up(2, w), Up(radix, f), Down(radix, j),
                     r, Down(radix, h), Up(2, g), Up(radix, j), Down(2, w), Down(radix, f));
  }

  lemma EquationProducts(s: nat, a: nat, b: nat, m: nat, u: nat, c: nat, z: nat, r: nat, a1: nat, b1: nat, z1: nat,
                         u1: nat, c1: nat)
    requires Mul(m, Mul(u, b)) == Mul(r, Mul(b1, u1)) && Mul(Mul(a, c), z) == Mul(Mul(a1, c1), z1)
    ensures Mul(Mul(Mul(s, a), b), Mul(Mul(m, Mul(u, c)), z))
         == Mul(Mul(r, Mul(a1, b1)), Mul(Mul(s, z1), Mul(u1, c1)))
  {
    hide Mul;
    assert Mul(Mul(Mul(s, a), b), Mul(Mul(m, Mul(u, c)), z)) == Mul(s, Mul(Mul(m, Mul(u, b)), Mul(Mul(a, c), z))) by {
      LeftProducts(s, a, b, m, u, c, z);
    }
    assert Mul(Mul(r, Mul(a1, b1)), Mul(Mul(s, z1), Mul(u1, c1)))
           == Mul(s, Mul(Mul(r, Mul(b1, u1)), Mul(Mul(a1, c1), z1))) by {
      RightProducts(s, a1, b1, r, u1, c1, z1);
    }
  }

  lemma LeftProducts(s: nat, a: nat, b: nat, m: nat, u: nat, c: nat, z: nat)
    ensures Mul(Mul(Mul(s, a), b), Mul(Mul(m, Mul(u, c)), z)) == Mul(s, Mul(Mul(m, Mul(u, b)), Mul(Mul(a, c), z)))
  {
    hide Mul;
    MulLaws(s, a, b);
    MulLaws(s, Mul(a, b), Mul(Mul(m, Mul(u, c)), z));
    MulLaws(m, Mul(u, c), z);
    MulLaws(Mul(a, b), Mul(m, Mul(Mul(u, c), z)), 1);
    MulLaws(m, Mul(Mul(u, c), z), Mul(a, b));
    MulLaws(Mul(u, c), z, Mul(a, b));
    MulLaws(z, Mul(a, b), 1);
    MulLaws(Mul(u, c), Mul(a, b), z);
    MulSwap(u, c, b, a);
    MulLaws(a, b, 1);
    MulLaws(b, a, 1);
    MulLaws(c, a, 1);
    MulLaws(a, c, 1);
    MulLaws(Mul(u, b), Mul(a, c), z);
    MulLaws(m, Mul(u, b), Mul(Mul(a, c), z));
  }

  lemma RightProducts(s: nat, a1: nat, b1: nat, r: nat, u1: nat, c1: nat, z1: nat)
    ensures Mul(Mul(r, Mul(a1, b1)), Mul(Mul(s, z1), Mul(u1, c1)))
         == Mul(s, Mul(Mul(r, Mul(b1, u1)), Mul(Mul(a1, c1), z1)))
  {
    hide Mul;
    var x, y := Mul(a1, b1), Mul(u1, c1);
    MulLaws(s, z1, y);
    MulLaws(Mul(r, x), s, Mul(z1, y));
    MulLaws(s, Mul(r, x), Mul(z1, y));
    MulLaws(Mul(r, x), s, 1);
    MulLaws(r, x, Mul(z1, y));
    MulLaws(z1, y, 1);
    MulLaws(x, y, z1);
    MulSwap(b1, a1, u1, c1);
    MulLaws(a1, b1, 1);
    MulLaws(b1, a1, 1);
    MulLaws(Mul(b1, u1), Mul(a1, c1), z1);
    MulLaws(r, Mul(b1, u1), Mul(Mul(a1, c1), z1));
  }

  // ----- what reads as a float64 ----------------------------------------------------------------

  /** In units of the last place: not further away, and not on the narrow side
      instead of the other one. */
  lemma RangeCarries(a: nat, b: nat, a1: nat, b1: nat, r: nat, narrow: bool)
    requires b > 0 && b1 > 0 && Mul(Distance(a1, Mul(r, b1)), b) <= Mul(Distance(a, Mul(r, b)), b1)
    requires InRange(a, b, r, narrow) && (narrow ==> r % 2 == 0) && (narrow && a1 < Mul(r, b1) ==> a < Mul(r, b))
    ensures InRange(a1, b1, r, narrow)
  {
    var g1, g := Distance(a1, Mul(r, b1)), Distance(a, Mul(r, b));
    hide Distance;
    if narrow && a1 < Mul(r, b1) {
      Carried(g1, g, b, b1, 4);
    } else {
      Carried(g1, g, b, b1, 2);
    }
  }

  lemma Carried(g1: nat, g: nat, b: nat, b1: nat, k: nat)
    requires b > 0 && b1 > 0 && k > 0 && Mul(g1, b) <= Mul(g, b1) && k * g <= b
    ensures k * g1 <= b1 && (k * g1 == b1 ==> k * g == b)
  {
    var kg1, kg := k * g1, k * g;
    Times(g1 * b, g * b1, k, k);
    assert (g1 * b) * k == kg1 * b && (g * b1) * k == kg * b1;
    Times(kg, b, b1, b1);
    assert b * b1 == b1 * b;
    Rounding.Ascending(b1, kg1, b);
    Rounding.Ascending(kg, b, b1);
  }

  lemma ReadsRange(s: nat, radix: nat, h: int, m: nat, e: int)
    requires s > 0 && radix > 0 && IsDouble(m, e)
    ensures var g := Grid(e);
            ReadsAs(s, radix, h, m, e)
            <==> InRange(Num(Mul(s, Up(radix, h)), 0, g), Den(Down(radix, h), 0, g), Units(m, e), Narrow(m, e))
  {
    assert ReadsAs(s, radix, h, m, e) <==> ReadsAsDouble(Mul(s, Up(radix, h)), Down(radix, h), 0, m, e) by {
      hide NearestDouble;
    }
    ReadsExactly(Mul(s, Up(radix, h)), Down(radix, h), 0, m, e);
  }

  /** If c * radix^-f is not further away from the number than s * radix^h, and not on
      the narrow side instead of the other one, it reads back if that does. */
  lemma NearerReads(m: nat, e: int, radix: nat, f: int, s: nat, h: int, c: nat)
    requires radix >= 2 && IsDouble(m, e) && m > 0 && s > 0 && c > 0 && ReadsAs(s, radix, h, m, e)
    requires var n, d, t, w := Numerator(m, e - 53, radix, f), Denominator(e - 53, radix, f), Mul(s, Up(radix, h + f)),
                               Down(radix, h + f);
             && Mul(Distance(Mul(c, d), n), w) <= Distance(Mul(t, d), Mul(n, w))
             && (Narrow(m, e) && Mul(c, d) < n ==> Mul(t, d) < Mul(n, w))
    ensures ReadsAs(c, radix, -f, m, e)
  {
    var w, g, r, j := e - 53, Grid(e), Units(m, e), h + f;
    hide ReadsAs, Units, Pow, SameValue, InRange, Distance, IsDouble, Num, Den, Numerator, Denominator, Narrow;
    UnitsValue(m, e);
    ReadsRange(s, radix, h, m, e);
    ReadsRange(c, radix, -f, m, e);
    ScaledEquation(m, w, r, g, radix, f, s, h, j);
    ScaledEquation(m, w, r, g, radix, f, c, -f, 0);
    NoPower(radix, c, Numerator(m, w, radix, f));
    NarrowEven(m, e);
    ScalesPositive(m, w, radix, f, h, g);
    var n, d, t := Numerator(m, w, radix, f), Denominator(w, radix, f), Mul(s, Up(radix, j));
    var a, b := Num(Mul(s, Up(radix, h)), 0, g), Den(Down(radix, h), 0, g);
    var a1, b1 := Num(Mul(c, Up(radix, -f)), 0, g), Den(Down(radix, -f), 0, g);
    NearerRange(a, b, a1, b1, r, n, d, c, t, Down(radix, j), Narrow(m, e));
  }

  lemma NearerRange(a: nat, b: nat, a1: nat, b1: nat, r: nat, n: nat, d: nat, c: nat, t: nat, w: nat, narrow: bool)
    requires b > 0 && b1 > 0 && r > 0 && n > 0 && w > 0 && (narrow ==> r % 2 == 0) && InRange(a, b, r, narrow)
    requires Mul(a1, n) == Mul(Mul(r, b1), Mul(c, d)) && Mul(a, Mul(n, w)) == Mul(Mul(r, b), Mul(t, d))
    requires Mul(Distance(Mul(c, d), n), w) <= Distance(Mul(t, d), Mul(n, w))
    requires narrow && Mul(c, d) < n ==> Mul(t, d) < Mul(n, w)
    ensures InRange(a1, b1, r, narrow)
  {
    hide InRange, Distance, Mul;
    NoFurther(a, b, a1, b1, r, n, d, c, t, w);
    RangeCarries(a, b, a1, b1, r, narrow);
  }

  lemma UnitsValue(m: nat, e: int)
    requires IsDouble(m, e)
    ensures Units(m, e) > 0 && SameValue(m, e - 53, Units(m, e), Grid(e))
  {
    UnitsAre(m, e, Units(m, e));
  }

  lemma NoPower(radix: nat, c: nat, n: nat)
    ensures Up(radix, 0) == 1 && Down(radix, 0) == 1 && Mul(c, Up(radix, 0)) == c && Mul(n, Down(radix, 0)) == n
  {
    PowOne(radix);
    MulLaws(c, 1, 1);
    MulLaws(n, 1, 1);
  }

  lemma ScalesPositive(m: nat, w: int, radix: nat, f: int, h: int, g: int)
    requires m > 0 && radix > 0
    ensures Numerator(m, w, radix, f) > 0 && Den(Down(radix, h), 0, g) > 0 && Den(Down(radix, -f), 0, g) > 0
  {
  }

  lemma NarrowEven(m: nat, e: int)
    requires IsDouble(m, e)
    ensures Narrow(m, e) ==> Units(m, e) % 2 == 0
  {
    UnitsAre(m, e, Units(m, e));
    Pow53();
  }

  // ----- the fewest digits ------------------------------------------------------------------------

  /** The number rounded to q digits, and then one more in its last digit, reads back. */
  ghost predicate NextReads(m: nat, e: int, radix: nat, e0: int, q: nat)
    requires radix > 0
  {
    ReadsAs(TryMantissa(m, e, radix, e0, q) + 1, radix, TryExponent(m, e, radix, e0, q) - q, m, e)
  }

  lemma CandidateIs(m: nat, e: int, radix: nat, e0: int, q: nat)
    requires radix >= 2 && q >= 1 && IsDouble(m, e) && IsLog(radix, e, e0)
    ensures var f := q - TryExponent(m, e, radix, e0, q);
            && LargeEnough(Numerator(m, e - 53, radix, f), Denominator(e - 53, radix, f), radix, Pow(radix, q - 1))
            && TryMantissa(m, e, radix, e0, q)
               == Round(Numerator(m, e - 53, radix, f), Denominator(e - 53, radix, f), RNDN)
    ensures Pow(radix, q - 1) <= TryMantissa(m, e, radix, e0, q) < Pow(radix, q)
  {
    CandidateSizes(m, e, radix, e0, q);
    EnoughLeft(m, e, radix, e0, TryExponent(m, e, radix, e0, q), q, TryMantissa(m, e, radix, e0, q));
  }

  /** If any number of q digits reads back, the rounded one does, or else, just above a
      power of two, the one after it. */
  lemma SomeReads(m: nat, e: int, radix: nat, e0: int, q: nat, s: nat, h: int)
    requires radix >= 2 && q >= 1 && IsDouble(m, e) && m > 0 && IsLog(radix, e, e0)
    requires 0 < s < Pow(radix, q) && ReadsAs(s, radix, h, m, e)
    ensures ReadsBack(m, e, radix, e0, q) || (Narrow(m, e) && NextReads(m, e, radix, e0, q))
  {
    hide TryMantissa, TryExponent, ReadsAs, LargeEnough, Round, Numerator, Denominator, Narrow, IsDouble, IsLog;
    hide Up, Down;
    CandidateIs(m, e, radix, e0, q);
    var c, f := TryMantissa(m, e, radix, e0, q), q - TryExponent(m, e, radix, e0, q);
    var n, d := Numerator(m, e - 53, radix, f), Denominator(e - 53, radix, f);
    var k := Pow(radix, q - 1);
    assert Pow(radix, q) == radix * k;
    assert -f == TryExponent(m, e, radix, e0, q) - q;
    hide Pow;
    CandidateNearest(n, d, radix, k, s, h + f);
    var t, w := Mul(s, Up(radix, h + f)), Down(radix, h + f);
    if Narrow(m, e) && Mul(c, d) < n && Mul(t, d) >= Mul(n, w) {
      OneMore(n, d, c, t, w);
      NearerReads(m, e, radix, f, s, h, c + 1);
    } else {
      NearerReads(m, e, radix, f, s, h, c);
    }
  }

  lemma OneMore(n: nat, d: nat, c: nat, t: nat, w: nat)
    requires d > 0 && w > 0 && c == Round(n, d, RNDN) && Mul(c, d) < n && Mul(t, d) >= Mul(n, w)
    requires Mul(Distance(Mul(c, d), n), w) <= Distance(Mul(t, d), Mul(n, w)) && (Mul(n, w) < Mul(t, d) ==> w == 1)
    ensures Mul(c + 1, d) > n && Mul(t, d) > Mul(n, w)
    ensures Mul(Distance(Mul(c + 1, d), n), w) <= Distance(Mul(t, d), Mul(n, w))
  {
    RoundIs(n, d, RNDN);
    hide Round;
    Multiples(c, d, c * d);
    Positive(n - c * d, w);
    assert Mul(n, w) < Mul(t, d);
    Rounding.Ascending(c, t, d);
    Times(c + 1, t, d, d);
  }

  /** No number with fewer than p digits reads as (m, e). */
  ghost predicate FewestDigits(m: nat, e: int, radix: nat, p: nat) {
    forall s: nat, h: int, q: nat :: 0 < s < Pow(radix, q) && q < p ==> !ReadsAs(s, radix, h, m, e)
  }

  lemma LastTry(m: nat, e: int, radix: nat, e0: int, mant: nat, e1: int, p: nat)
    requires 2 <= radix <= 36 && Digits(m, e, radix, e0, mant, e1, p)
    ensures p >= 1 && (p > 1 ==> !ReadsBack(m, e, radix, e0, p - 1))
  {
    hide ReadsBack, TryExponent, TryMantissa;
  }

  /** The digits that js_dtoa settles on are the fewest that read back, unless the
      number is a power of two, other than the smallest ones, and its last try
      rounded up would have read back. */
  lemma DigitsAreFewest(m: nat, e: int, radix: nat, e0: int, mant: nat, e1: int, p: nat)
    requires 2 <= radix <= 36 && IsDouble(m, e) && IsLog(radix, e, e0) && Digits(m, e, radix, e0, mant, e1, p)
    ensures FewestDigits(m, e, radix, p) <==> !(p > 1 && Narrow(m, e) && NextReads(m, e, radix, e0, p - 1))
  {
    hide Digits, TryMantissa, TryExponent, Narrow, IsLog, ReadsAs, NextReads, ReadsBack, Pow;
    Pow53();
    assert m > 0;
    LastTry(m, e, radix, e0, mant, e1, p);
    hide IsDouble;
    forall s: nat, h: int, q: nat | 0 < s < Pow(radix, q) && q < p && ReadsAs(s, radix, h, m, e)
      ensures p > 1 && Narrow(m, e) && NextReads(m, e, radix, e0, p - 1)
    {
      PowMonotone(radix, q, p - 1);
      PowOne(radix);
      SomeReads(m, e, radix, e0, p - 1, s, h);
    }
    if p > 1 && NextReads(m, e, radix, e0, p - 1) {
      var s, h := NextHasFewer(m, e, radix, e0, p - 1);
    }
  }

  /** The one after the rounded one has no more than q digits that matter. */
  lemma NextHasFewer(m: nat, e: int, radix: nat, e0: int, q: nat) returns (s: nat, h: int)
    requires radix >= 2 && q >= 1 && IsDouble(m, e) && IsLog(radix, e, e0) && NextReads(m, e, radix, e0, q)
    ensures 0 < s < Pow(radix, q) && ReadsAs(s, radix, h, m, e)
  {
    CandidateIs(m, e, radix, e0, q);
    var c, g := TryMantissa(m, e, radix, e0, q) + 1, TryExponent(m, e, radix, e0, q) - q;
    var k := Pow(radix, q - 1);
    assert Pow(radix, q) == radix * k;
    s, h := c, g;
    hide TryMantissa, TryExponent, ReadsAs, LargeEnough, Round, Numerator, Denominator, Pow, IsDouble, IsLog;
    if c == radix * k {
      Times(2, radix, k, k);
      ReadsWithZero(k, radix, g, g + 1, m, e);
      s, h := k, g + 1;
    }
  }

  // ----- a power of two with a digit too many -------------------------------------------------------

  const TEN29: nat := 100_000_000_000_000_000_000_000_000_000
  const TWO96: nat := 79_228_162_514_264_337_593_543_950_336
  const TWO52: nat := 4_503_599_627_370_496

  lemma Powers()
    ensures Pow(10, 29) == TEN29 && Pow(10, 30) == 10 * TEN29 && Pow(2, 96) == TWO96 && Pow(2, 52) == TWO52
    ensures Pow(10, 16) == 10_000_000_000_000_000 && Pow(10, 17) == 100_000_000_000_000_000
    ensures Pow(10, 13) == 10_000_000_000_000 && Pow(10, 14) == 100_000_000_000_000
    ensures Pow(2, 44) == 17_592_186_044_416
  {
    TwoPowersAre();
    hide TEN29, TWO96;
    TenPowersAre();
  }

  lemma TwoPowersAre()
    ensures Pow(2, 96) == TWO96 && Pow(2, 52) == TWO52 && Pow(2, 44) == 17_592_186_044_416
  {
    Pow53();
    PowTwo32();
    PowAdd(2, 32, 32);
    PowAdd(2, 64, 32);
    assert Pow(2, 4) == 16;
    PowAdd(2, 32, 8);
    PowAdd(2, 40, 4);
  }

  lemma TenPowersAre()
    ensures Pow(10, 29) == TEN29 && Pow(10, 30) == 10 * TEN29
    ensures Pow(10, 16) == 10_000_000_000_000_000 && Pow(10, 17) == 100_000_000_000_000_000
    ensures Pow(10, 13) == 10_000_000_000_000 && Pow(10, 14) == 100_000_000_000_000
  {
    assert Pow(10, 5) == 100_000 && Pow(10, 4) == 10_000 && Pow(10, 3) == 1_000 && Pow(10, 1) == 10;
    PowAdd(10, 5, 5);
    PowAdd(10, 10, 3);
    PowAdd(10, 10, 4);
    PowAdd(10, 13, 3);
    PowAdd(10, 14, 3);
    PowAdd(10, 13, 16);
    PowAdd(10, 29, 1);
  }

  lemma IsTwoToMinus44()
    ensures IsDouble(TWO52, -43) && IsLog(10, -43, -13) && Narrow(TWO52, -43) && Units(TWO52, -43) == TWO52
  {
    Powers();
    Pow53();
    UnitsAre(TWO52, -43, Units(TWO52, -43));
    hide Pow;
  }

  lemma Candidates()
    ensures Candidate(TWO52, -43, 10, 29) == 5684341886080801 && Candidate(TWO52, -43, 10, 30) == 56843418860808015
  {
    Powers();
    PowOne(2);
    PowOne(10);
    hide Pow, Round;
    assert Numerator(TWO52, -96, 10, 29) == TWO52 * TEN29 && Denominator(-96, 10, 29) == TWO96;
    assert Numerator(TWO52, -96, 10, 30) == TWO52 * (10 * TEN29) && Denominator(-96, 10, 30) == TWO96;
    Rounded(5684341886080801, 38581658607181275481572900864, TWO52 * TEN29);
    Rounded(56843418860808014, 68903936014755404441553207296, TWO52 * (10 * TEN29));
  }

  lemma Rounded(q: nat, rem: nat, num: nat)
    requires num == q * TWO96 + rem && rem < TWO96
    ensures Round(num, TWO96, RNDN) == if 2 * rem > TWO96 || (2 * rem == TWO96 && q % 2 == 1) then q + 1 else q
  {
    DivideBack(q, TWO96, rem, num);
  }

  /** For 2^-44 js_dtoa settles on 17 digits, although 16 read back. */
  lemma OneDigitTooMany(mant: nat, e1: int, p: nat)
    requires IsDouble(TWO52, -43) && Digits(TWO52, -43, 10, -13, mant, e1, p)
    ensures IsLog(10, -43, -13)
    ensures p == 17 && mant == 56843418860808015 && e1 == -13
    ensures ReadsAs(5684341886080802, 10, -29, TWO52, -43) && !FewestDigits(TWO52, -43, 10, p)
  {
    IsTwoToMinus44();
    Sixteen();
    Tries();
    MoreThan16(mant, e1, p);
    Powers();
    hide Digits, IsDouble, IsLog, ReadsAs, TryExponent, TryMantissa, Pow;
    assert 0 < 5684341886080802 < Pow(10, 16) && 16 < p;
  }

  lemma Tries()
    ensures TryExponent(TWO52, -43, 10, -13, 16) == -13 && TryMantissa(TWO52, -43, 10, -13, 16) == 5684341886080801
    ensures TryExponent(TWO52, -43, 10, -13, 17) == -13 && TryMantissa(TWO52, -43, 10, -13, 17) == 56843418860808015
  {
    Powers();
    Candidates();
    hide Candidate, Pow;
  }

  lemma MoreThan16(mant: nat, e1: int, p: nat)
    requires Digits(TWO52, -43, 10, -13, mant, e1, p) && !ReadsBack(TWO52, -43, 10, -13, 16)
    ensures p == 17 && mant == TryMantissa(TWO52, -43, 10, -13, 17) && e1 == TryExponent(TWO52, -43, 10, -13, 17)
  {
    hide ReadsBack, TryExponent, TryMantissa, Pow;
    assert DTOA_MAX_DIGITS[8] == 17;
  }

  lemma Sixteen()
    requires IsDouble(TWO52, -43)
    ensures ReadsAs(5684341886080802, 10, -29, TWO52, -43) && !ReadsAs(5684341886080801, 10, -29, TWO52, -43)
  {
    Powers();
    IsTwoToMinus44();
    ReadsRange(5684341886080802, 10, -29, TWO52, -43);
    ReadsRange(5684341886080801, 10, -29, TWO52, -43);
    PowOne(2);
    PowOne(10);
    hide Pow, IsDouble, ReadsAs;
    assert Up(10, -29) == 1 && Down(10, -29) == TEN29 && Up(2, -96) == 1 && Down(2, -96) == TWO96;
  }
}
