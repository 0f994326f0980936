/** mul_pow_round: m * 2^e * radix^f rounded to a whole number, exactly. */
module ScaleAndRound {
  import opened Arithmetic
  import opened Power
  import opened Limbs
  import opened Rounding
  import opened Bignum
  import opened PowerScaling

  /** b^x as a fraction: its numerator and its denominator. */
  function Up(b: nat, x: int): (r: nat)
    ensures b > 0 ==> r > 0
  {
    Pow(b, Max(x, 0))
  }

  function Down(b: nat, x: int): (r: nat)
    ensures b > 0 ==> r > 0
  {
    Pow(b, Max(-x, 0))
  }

  /** m * 2^e * radix^f */
  function Numerator(m: nat, e: int, radix: nat, f: int): nat {
    Mul(m, Mul(Up(2, e), Up(radix, f)))
  }

  function Denominator(e: int, radix: nat, f: int): (r: nat)
    ensures radix > 0 ==> r > 0
  {
    Mul(Down(2, e), Down(radix, f))
  }

  /** Equal fractions round to the same number. */
  lemma RoundSame(n1: nat, d1: nat, n2: nat, d2: nat, mode: Mode)
    requires d1 > 0 && d2 > 0 && Mul(n1, d2) == Mul(n2, d1)
    ensures Round(n1, d1, mode) == Round(n2, d2, mode)
  {
    RoundScaled(n1, d1, d2, mode);
    RoundScaled(n2, d2, d1, mode);
    hide Round;
    assert d2 * d1 == d1 * d2 && d2 * n1 == Mul(n1, d2) && d1 * n2 == Mul(n2, d1);
  }

  /** b^x * b^y == b^z, over the denominator of both sides. */
  lemma AnyPowers(b: nat, x: int, y: int, z: int)
    requires z == x + y
    ensures Mul(Mul(Up(b, x), Up(b, y)), Down(b, z)) == Mul(Mul(Down(b, x), Down(b, y)), Up(b, z))
  {
    var c, d, e := Max(x, 0), Max(y, 0), Max(-z, 0);
    var c1, d1, e1 := Max(-x, 0), Max(-y, 0), Max(z, 0);
    PowAdd(b, c, d);
    PowAdd(b, c + d, e);
    PowAdd(b, c1, d1);
    PowAdd(b, c1 + d1, e1);
    hide Pow;
    assert c + d + e == c1 + d1 + e1;
  }

  lemma TwoPowers(x: int, y: int, z: int)
    requires z == x + y
    ensures Mul(Mul(Up(2, x), Up(2, y)), Down(2, z)) == Mul(Mul(Down(2, x), Down(2, y)), Up(2, z))
  {
    AnyPowers(2, x, y, z);
  }

  /** The radix split into its odd part and a power of two. */
  lemma RadixParts(radix1: nat, radixShift: nat, f: int)
    ensures var radix := radix1 * Pow(2, radixShift);
            && radix >= 0
            && Up(radix, f) == Mul(Up(radix1, f), Up(2, radixShift * f))
            && Down(radix, f) == Mul(Down(radix1, f), Down(2, radixShift * f))
  {
    PowerOfRadix(radix1, radixShift, Max(f, 0));
    PowerOfRadix(radix1, radixShift, Max(-f, 0));
    Signs(radixShift, f);
  }

  lemma Signs(s: nat, f: int)
    ensures Max(s * f, 0) == s * Max(f, 0) && Max(-(s * f), 0) == s * Max(-f, 0)
  {
    if f >= 0 { Positive(s, f); } else { Positive(s, -f); assert s * (-f) == -(s * f); }
  }

  lemma PowerOfRadix(radix1: nat, radixShift: nat, f: nat)
    ensures radix1 * Pow(2, radixShift) >= 0 && radixShift * f >= 0
    ensures Pow(radix1 * Pow(2, radixShift), f) == Mul(Pow(radix1, f), Pow(2, radixShift * f))
  {
    Positive(radix1, Pow(2, radixShift));
    PowPow(2, radixShift, f);
    PowTimes(radix1, Pow(2, radixShift), f);
  }

  /** m * 2^e * radix^f == m * 2^x * radix1^f for x == e + f * radixShift. */
  lemma SameFraction(m: nat, e: int, radix1: nat, radixShift: nat, f: int, x: int)
    requires x == e + f * radixShift && radix1 > 0
    ensures var radix := radix1 * Pow(2, radixShift);
            && radix > 0
            && Mul(Numerator(m, e, radix, f), Denominator(x, radix1, f))
               == Mul(Numerator(m, x, radix1, f), Denominator(e, radix, f))
  {
    Positive(radix1, Pow(2, radixShift));
    RadixParts(radix1, radixShift, f);
    var y := radixShift * f;
    assert y == f * radixShift;
    TwoPowers(e, y, x);
    hide Up, Down, Mul, Pow;
    var radix := radix1 * Pow(2, radixShift);
    CrossMultiply(m, Up(2, e), Up(2, y), Up(radix1, f), Down(2, x), Down(radix1, f), Up(2, x), Down(2, e), Down(2, y));
  }

  /** The identity behind it: (ue uy) dx == (de dy) ux. */
  lemma CrossMultiply(m: nat, ue: nat, uy: nat, ur: nat, dx: nat, dr: nat, ux: nat, de: nat, dy: nat)
    requires Mul(Mul(ue, uy), dx) == Mul(Mul(de, dy), ux)
    ensures Mul(Mul(m, Mul(ue, Mul(ur, uy))), Mul(dx, dr)) == Mul(Mul(m, Mul(ux, ur)), Mul(de, Mul(dr, dy)))
  {
    var l, r := (ue * uy) * dx, (de * dy) * ux;
    assert (m * (ue * (ur * uy))) * (dx * dr) == (m * (ur * dr)) * l;
    assert (m * (ux * ur)) * (de * (dr * dy)) == (m * (ur * dr)) * r;
  }

  // ----- the two ways to the result -----------------------------------------------------------

  /** The scaled number is exact: f is not negative, or the radix a power of two. */
  lemma ExactCase(m: nat, radix1: nat, f: int, x: int, v: nat, r: nat, mode: Mode)
    requires radix1 > 0 && (f >= 0 || radix1 == 1) && v == Mul(m, Up(radix1, f))
    requires if x > 0 then r == v * Pow(2, x) else r == Round(v, Pow(2, -x), mode)
    ensures r == Round(Numerator(m, x, radix1, f), Denominator(x, radix1, f), mode)
  {
    PowOne(2);
    PowOne(radix1);
    if f < 0 { PowOfOne(-f); PowOfOne(0); }
    assert Down(radix1, f) == 1;
    MulLaws(Down(2, x), 1, 1);
    assert Denominator(x, radix1, f) == Down(2, x);
    Reorder(m, Up(2, x), Up(radix1, f));
    assert Numerator(m, x, radix1, f) == Mul(v, Up(2, x));
    hide Pow;
    if x > 0 {
      assert Down(2, x) == 1 && Up(2, x) == Pow(2, x);
      DivideBack(r, 1, 0, r);
    } else {
      MulLaws(v, 1, 1);
      assert Up(2, x) == 1;
    }
  }

  lemma Reorder(m: nat, a: nat, b: nat)
    ensures Mul(m, Mul(a, b)) == Mul(Mul(m, b), a)
  {
    assert m * (a * b) == (m * b) * a;
  }

  lemma FourQuarters(s: nat)
    requires s >= 2
    ensures Pow(2, s) == 4 * Pow(2, s - 2)
  {
    PowAdd(2, 2, s - 2);
    PowOne(2);
    assert Pow(2, 2) == 2 * Pow(2, 1);
  }

  /** The scaled number is a quotient with a sticky bit. */
  lemma StickyCase(m: nat, radix1: nat, f: int, x: int, widened: nat, r: nat, mode: Mode)
    requires radix1 > 0 && f < 0 && widened - x >= 2
    requires m * Pow(2, widened) >= 0
    requires r == Round(Sticky(m * Pow(2, widened), Pow(radix1, -f)), Pow(2, widened - x), mode)
    ensures r == Round(Numerator(m, x, radix1, f), Denominator(x, radix1, f), mode)
  {
    var s, d := widened - x, Pow(radix1, -f);
    var quarter := Pow(2, s - 2);
    FourQuarters(s);
    StickyRound(m * Pow(2, widened), d, quarter, mode);
    assert Up(radix1, f) == 1 && Down(radix1, f) == d;
    TwoPowers(-x, widened, s);
    assert Up(2, s) == Pow(2, s) && Down(2, s) == 1 && Up(2, -x) == Down(2, x) && Down(2, -x) == Up(2, x)
        && Up(2, widened) == Pow(2, widened) && Down(2, widened) == 1;
    hide Pow, Up, Down, Round;
    Positive(d, 4 * quarter);
    CrossSticky(m, Pow(2, widened), d, Pow(2, s), Up(2, x), Down(2, x));
    RoundSame(m * Pow(2, widened), d * (4 * quarter), Numerator(m, x, radix1, f), Denominator(x, radix1, f), mode);
  }

  lemma CrossSticky(m: nat, w: nat, d: nat, p: nat, ux: nat, dx: nat)
    requires Mul(Mul(dx, w), 1) == Mul(Mul(ux, 1), p)
    ensures Mul(Mul(m, w), Mul(dx, d)) == Mul(Mul(m, Mul(ux, 1)), Mul(d, p))
  {
    var l, r := dx * w, ux * p;
    assert (m * w) * (dx * d) == (m * d) * l;
    assert (m * ux) * (d * p) == (m * d) * r;
  }

  /** The room mul_pow_round needs. */
  predicate RoundingRoom(capacity: nat, m: nat, e: int, radix1: nat, radixShift: nat, f: int)
    requires m > 0 && OddPart(radix1)
  {
    && HasRoom(2, capacity, m, radix1, radixShift, f, true, e)
    && 2 + LimbsFor(radix1, Max(f, 0)) + Max(e + f * radixShift, 0) / LIMB_BITS + 1 <= capacity
  }

  /** mul_pow_round. */
  method MulPowRound(tmp1: Mpb, m: nat, e: int, radix1: nat, radixShift: nat, f: int, mode: Mode)
    requires 0 < m < BASE * BASE && OddPart(radix1) && RoundingRoom(tmp1.tab.Length, m, e, radix1, radixShift, f)
    modifies tmp1, tmp1.tab
    ensures tmp1.Valid()
    ensures var radix := radix1 * Pow(2, radixShift);
            radix > 0 && tmp1.Val() == Round(Numerator(m, e, radix, f), Denominator(e, radix, f), mode)
  {
    hide Value, Pow, Round, Numerator, Denominator, HasRoom, LimbsFor, Widened, ScaledValue;
    ghost var x := e + f * radixShift;
    assert tmp1.tab.Length >= 2 by { RoomForTwo(tmp1.tab.Length, m, e, radix1, radixShift, f); }
    tmp1.SetU64(m);
    TwoLimbsOf(tmp1);
    RoomMonotone(tmp1.len, tmp1.tab.Length, m, radix1, radixShift, f, e);
    var eOffset := MulPow(tmp1, radix1, radixShift, f, true, e);
    ghost var v, shift := tmp1.Val(), -e + eOffset;
    ScaledPositive(m, radix1, radixShift, f, e, v);
    assert f * radixShift == -(-f * radixShift);
    tmp1.ShrRound(-e + eOffset, mode);
    Rounded(m, radix1, radixShift, f, e, x, v, tmp1.Val(), mode);
    SameFraction(m, e, radix1, radixShift, f, x);
    Positive(radix1, Pow(2, radixShift));
    RoundSame(Numerator(m, e, radix1 * Pow(2, radixShift), f), Denominator(e, radix1 * Pow(2, radixShift), f),
              Numerator(m, x, radix1, f), Denominator(x, radix1, f), mode);
  }

  lemma RoomForTwo(capacity: nat, m: nat, e: int, radix1: nat, radixShift: nat, f: int)
    requires m > 0 && OddPart(radix1) && RoundingRoom(capacity, m, e, radix1, radixShift, f)
    ensures capacity >= 3
  {
    hide LimbsFor, HasRoom;
  }

  lemma TwoLimbsOf(a: Mpb)
    requires a.Valid() && a.Val() < BASE * BASE
    ensures a.len <= 2
  {
    hide Value, Pow;
    a.TopLimb();
    TwoLimbs(a.len, a.Val());
  }

  lemma RoomMonotone(len: nat, capacity: nat, v: nat, radix1: nat, radixShift: nat, f: int, e: int)
    requires v > 0 && OddPart(radix1) && len <= 2 && HasRoom(2, capacity, v, radix1, radixShift, f, true, e)
    ensures HasRoom(len, capacity, v, radix1, radixShift, f, true, e)
  {
    hide LimbsFor, Widened;
  }

  /** What mul_pow leaves in both cases. */
  lemma ScaledPositive(m: nat, radix1: nat, radixShift: nat, f: int, e: int, v: nat)
    requires m > 0 && OddPart(radix1)
    requires v == ScaledValue(m, radix1, f, Widened(m, radix1, radixShift, f, true, e))
    ensures f >= 0 || radix1 == 1 ==> v == Mul(m, Up(radix1, f)) > 0 && Widened(m, radix1, radixShift, f, true, e) == 0
    ensures f < 0 && radix1 != 1 ==>
              v == Sticky(Mul(m, Pow(2, Widened(m, radix1, radixShift, f, true, e))), Pow(radix1, -f))
              && -e - f * radixShift + Widened(m, radix1, radixShift, f, true, e) >= 2
  {
    hide Sticky, LimbsFor;
    if radix1 == 1 && f < 0 {
      MulLaws(m, 1, 1);
      assert Up(1, f) == 1;
    }
    if f >= 0 || radix1 == 1 {
      Positive(m, Up(radix1, f));
    }
    assert -(f * radixShift) == -f * radixShift;
  }

  lemma Rounded(m: nat, radix1: nat, radixShift: nat, f: int, e: int, x: int, v: nat, r: nat, mode: Mode)
    requires m > 0 && OddPart(radix1) && x == e + f * radixShift
    requires v == ScaledValue(m, radix1, f, Widened(m, radix1, radixShift, f, true, e))
    requires var shift := Widened(m, radix1, radixShift, f, true, e) - x;
             if shift < 0 then r == v * Pow(2, -shift) else r == Round(v, Pow(2, shift), mode)
    ensures r == Round(Numerator(m, x, radix1, f), Denominator(x, radix1, f), mode)
  {
    ScaledPositive(m, radix1, radixShift, f, e, v);
    hide Widened, ScaledValue, Round, Numerator, Denominator, Pow, Sticky;
    if f >= 0 || radix1 == 1 {
      ExactCase(m, radix1, f, x, v, r, mode);
    } else {
      Positive(m, Pow(2, Widened(m, radix1, radixShift, f, true, e)));
      StickyCase(m, radix1, f, x, Widened(m, radix1, radixShift, f, true, e), r, mode);
    }
  }
}
