/** The number that a text stands for, and the float64 that js_atod makes of it. */
module NumberValue {
  import opened Arithmetic
  import opened Power
  import opened ScaleAndRound
  import opened RoundToDouble
  import opened RadixDigits
  import opened NearestDoubles
  import opened DoubleBits
  import opened RadixLogarithm

  /** The bits are those of the float64 nearest to n/d * 2^x; infinity beyond all
      of them. */
  ghost predicate IsNearest(n: nat, d: nat, x: int, a: nat) {
    exists top, m, e :: NearestDouble(n, d, x, top, m, e) && a == Pack(m, e)
  }

  lemma NearestIs(n: nat, d: nat, x: int, top: int, m: nat, e: int)
    requires NearestDouble(n, d, x, top, m, e)
    ensures IsNearest(n, d, x, Pack(m, e))
  {
    hide NearestDouble;
  }

  /** There is only one such number. */
  lemma OnlyNearest(n: nat, d: nat, x: int, a: nat, b: nat)
    requires IsNearest(n, d, x, a) && IsNearest(n, d, x, b)
    ensures a == b
  {
    hide NearestDouble;
    var top, m, e :| NearestDouble(n, d, x, top, m, e) && a == Pack(m, e);
    var top1, m1, e1 :| NearestDouble(n, d, x, top1, m1, e1) && b == Pack(m1, e1);
    if m > 0 {
      NearestUnique(n, d, x, top, m, e, top1, m1, e1);
    } else if m1 > 0 {
      NearestUnique(n, d, x, top1, m1, e1, top, m, e);
    }
  }

  lemma NearestForm(n: nat, d: nat, x: int, n1: nat, d1: nat, x1: int, a: nat)
    requires d1 > 0 && IsNearest(n, d, x, a) && SameNumber(n, d, x, n1, d1, x1)
    ensures IsNearest(n1, d1, x1, a)
  {
    hide NearestDouble, SameNumber;
    var top, m, e :| NearestDouble(n, d, x, top, m, e) && a == Pack(m, e);
    NearestSame(n, d, x, n1, d1, x1, top, m, e);
  }

  lemma LargeNearest(n: nat, d: nat, x: int)
    requires n > 0 && d > 0 && AtLeastTwoTo(n, d, x, 1024)
    ensures IsNearest(n, d, x, INFINITY)
  {
    hide NearestDouble, AtLeastTwoTo;
    var top, m, e := NearestExists(n, d, x);
    TooLarge(n, d, x, top, m, e);
  }

  lemma SmallNearest(n: nat, d: nat, x: int)
    requires n > 0 && d > 0 && BelowTwoTo(n, d, x, -1075)
    ensures IsNearest(n, d, x, 0)
  {
    hide NearestDouble, BelowTwoTo;
    var top, m, e := NearestExists(n, d, x);
    TooSmall(n, d, x, top, m, e);
  }

  // ----- powers of two ------------------------------------------------------------------

  lemma AtLeastBits(n: nat, c: nat, x: int, k: int)
    requires n >= Pow(2, c) && c + x >= k
    ensures AtLeastTwoTo(n, 1, x, k)
  {
    var y := k - x;
    if y >= 0 {
      PowMonotone(2, y, c);
      MulLaws(n, 1, 1);
      MulLaws(1, Pow(2, y), 1);
      MulLaws(Pow(2, y), 1, 1);
    } else {
      Positive(n, Pow(2, -y));
    }
  }

  lemma BelowBits(n: nat, c: nat, x: int, k: int)
    requires n < Pow(2, c) && c + x <= k
    ensures BelowTwoTo(n, 1, x, k)
  {
    PowMonotone(2, c, k - x);
    MulLaws(n, 1, 1);
    MulLaws(1, Pow(2, k - x), 1);
    MulLaws(Pow(2, k - x), 1, 1);
  }

  /** n / 2^s * 2^x == n * 2^(x - s) */
  lemma DividedByTwos(n: nat, x: int, s: nat)
    ensures SameNumber(n, Pow(2, s), x, n, 1, x - s)
  {
    TwoPowers(x - s, s, x);
    Whole(2, s);
    hide Pow, Up, Down;
    DividedProducts(n, Pow(2, s), Up(2, x - s), Down(2, x - s), Up(2, x), Down(2, x));
  }

  lemma DividedProducts(n: nat, p: nat, u1: nat, d1: nat, u: nat, w: nat)
    requires (u1 * p) * w == (d1 * 1) * u
    ensures (n * 1) * (u * d1) == (n * p) * (u1 * w)
  {
    assert (n * p) * (u1 * w) == n * ((u1 * p) * w);
  }

  // ----- other radices --------------------------------------------------------------------

  lemma AtLeastMax(v: nat, radix: nat, f: int, dc: nat)
    requires 2 <= radix <= 36 && !IsPowerOfTwo(radix) && dc >= 1 && v >= Pow(radix, dc - 1)
    requires f + dc >= MaxExponent(radix) + 1
    ensures AtLeastTwoTo(Mul(v, Up(radix, f)), Down(radix, f), 0, 1024)
  {
    hide MaxExponent, MinExponent, Pow, IsPowerOfTwo, Up, Down;
    LimitsReached(radix);
    var max := MaxExponent(radix);
    Whole(2, 1024);
    if f >= 0 {
      Whole(radix, f);
      PowAdd(radix, dc - 1, f);
      PowMonotone(radix, max, dc - 1 + f);
      Times(Pow(radix, dc - 1), v, Pow(radix, f), Pow(radix, f));
      TwoFactors(v, Pow(radix, f), 1, Pow(2, 1024));
    } else {
      Inverse(radix, f);
      Whole(radix, -f);
      PowAdd(radix, max, -f);
      PowMonotone(radix, max - f, dc - 1);
      Times(Pow(2, 1024), Pow(radix, max), Pow(radix, -f), Pow(radix, -f));
      TwoFactors(v, 1, Pow(radix, -f), Pow(2, 1024));
    }
  }

  lemma TwoFactors(v: nat, u: nat, d: nat, t: nat)
    requires t * d <= v * u
    ensures Mul(d, t) <= Mul(Mul(v, u), 1)
  {
    assert d * t == t * d;
  }

  lemma BelowMin(v: nat, radix: nat, f: int, dc: nat)
    requires 2 <= radix <= 36 && !IsPowerOfTwo(radix) && dc >= 1 && v < Pow(radix, dc)
    requires f + dc <= MinExponent(radix)
    ensures BelowTwoTo(Mul(v, Up(radix, f)), Down(radix, f), 0, -1075)
  {
    hide MaxExponent, MinExponent, Pow, IsPowerOfTwo, Up, Down;
    LimitsReached(radix);
    var min := MinExponent(radix);
    Inverse(2, -1075);
    Whole(2, 1075);
    Inverse(radix, f);
    Whole(radix, -f);
    PowAdd(radix, dc, -min);
    PowMonotone(radix, dc - min, -f);
    StrictProduct(v, Pow(radix, dc), Pow(2, 1075), Pow(radix, -min));
    TwoFactorsBelow(v, Pow(radix, -f), Pow(2, 1075));
  }

  lemma TwoFactorsBelow(v: nat, d: nat, t: nat)
    requires v * t < d
    ensures Mul(Mul(v, 1), t) < Mul(d, 1)
  {
  }

  lemma StrictProduct(v: nat, p: nat, t: nat, q: nat)
    requires v < p && t <= q && q > 0
    ensures v * t < p * q
  {
    Times(t, q, v, v);
    Times(v + 1, p, q, q);
    assert (v + 1) * q == v * q + q;
  }

  // ----- digits that are not kept ---------------------------------------------------------

  lemma {:induction false} HornerAppend(a: seq<nat>, b: seq<nat>, radix: nat)
    requires radix >= 2
    ensures Horner(a + b, radix) == Horner(a, radix) * Pow(radix, |b|) + Horner(b, radix)
    decreases |b|
  {
    if b == [] {
      assert a + b == a;
    } else {
      var init, last := b[..|b| - 1], b[|b| - 1];
      assert a + b == (a + init) + [last] && b == init + [last];
      HornerAppend(a, init, radix);
      HornerSnoc(a + init, last, radix);
      HornerSnoc(init, last, radix);
      Distributes2(Horner(a, radix), Pow(radix, |init|), Horner(init, radix), radix);
    }
  }

  lemma {:induction false} HornerZeros(n: nat, ds: seq<nat>, radix: nat)
    requires radix >= 2 && n <= |ds| && forall i :: 0 <= i < n ==> ds[i] == 0
    ensures Horner(ds[..n], radix) == 0
  {
    if n > 0 {
      HornerZeros(n - 1, ds, radix);
      assert ds[..n][..n - 1] == ds[..n - 1];
    }
  }

  /** Only zeros have the value zero. */
  lemma {:induction false} HornerNonZero(ds: seq<nat>, radix: nat)
    requires radix >= 2
    ensures Horner(ds, radix) != 0 <==> AnyDigit(ds, 0, |ds|)
  {
    if ds != [] {
      var init := ds[..|ds| - 1];
      HornerNonZero(init, radix);
      assert ds == init + [ds[|ds| - 1]];
      Positive(Horner(init, radix), radix);
      if AnyDigit(init, 0, |init|) {
        var j :| 0 <= j < |init| && init[j] != 0;
        assert ds[j] != 0;
      }
      if AnyDigit(ds, 0, |ds|) {
        var j :| 0 <= j < |ds| && ds[j] != 0;
        assert j < |init| ==> init[j] != 0;
      }
    }
  }

  /** Leading zeros do not matter. */
  lemma WithoutZeros(ds: seq<nat>, z: nat, radix: nat)
    requires radix >= 2 && z <= |ds| && forall i :: 0 <= i < z ==> ds[i] == 0
    ensures Horner(ds, radix) == Horner(ds[z..], radix)
  {
    HornerZeros(z, ds, radix);
    HornerAppend(ds[..z], ds[z..], radix);
    assert ds == ds[..z] + ds[z..];
  }

  /** A number with n digits and a first one that is not zero. */
  lemma FirstDigit(ds: seq<nat>, radix: nat)
    requires radix >= 2 && AreDigits(ds, radix) && ds != [] && ds[0] != 0
    ensures Pow(radix, |ds| - 1) <= Horner(ds, radix) < Pow(radix, |ds|)
  {
    DigitsOfHorner(ds, radix);
    assert ds == ds[..1] + ds[1..] && ds[..1][..0] == [];
    HornerAppend(ds[..1], ds[1..], radix);
    HornerSnoc([], ds[0], radix);
    assert [] + [ds[0]] == ds[..1];
    Times(1, Horner(ds[..1], radix), Pow(radix, |ds| - 1), Pow(radix, |ds| - 1));
  }

  /** The kept digits are the quotient of all of them, and a sticky bit stands for
      the others. */
  lemma KeptQuotient(ds: seq<nat>, k: nat, radix: nat)
    requires radix >= 2 && AreDigits(ds, radix) && k <= |ds|
    ensures Pow(radix, |ds| - k) > 0 && Horner(ds, radix) / Pow(radix, |ds| - k) == Horner(ds[..k], radix)
    ensures Horner(ds, radix) % Pow(radix, |ds| - k) != 0 <==> AnyDigit(ds, k, |ds|)
  {
    var a, b := ds[..k], ds[k..];
    assert ds == a + b;
    HornerAppend(a, b, radix);
    DigitsOfHorner(b, radix);
    HornerNonZero(b, radix);
    DivideBack(Horner(a, radix), Pow(radix, |b|), Horner(b, radix), Horner(ds, radix));
    if AnyDigit(b, 0, |b|) {
      var j :| 0 <= j < |b| && b[j] != 0;
      assert ds[k + j] != 0;
    }
    if AnyDigit(ds, k, |ds|) {
      var j :| k <= j < |ds| && ds[j] != 0;
      assert b[j - k] != 0;
    }
  }
}
