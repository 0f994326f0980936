/** mul_pow and mul_pow_round: scaling by a power of the radix, with one sticky
    bit for all the remainders, and one correct rounding at the end. */
module PowerScaling {
  import opened Arithmetic
  import opened Power
  import opened Limbs
  import opened Rounding
  import opened UdivNorm
  import opened Bignum
  import opened SmallPowers

  /** The odd part of a radix from 2 to 36. */
  predicate OddPart(r: nat) {
    1 <= r <= 35 && r % 2 == 1
  }

  function Max(a: int, b: int): int {
    if a < b then b else a
  }

  function Least(a: nat, b: nat): nat {
    if a < b then a else b
  }

  /** How many limbs hold r^f. */
  function LimbsFor(r: nat, f: nat): (l: nat)
    requires OddPart(r)
    ensures r == 1 || f == 0 ==> l == 0
    ensures r != 1 ==> DIGITS_PER_LIMB[r - 2] * l >= f
  {
    if r == 1 then 0 else (f + DIGITS_PER_LIMB[r - 2] - 1) / DIGITS_PER_LIMB[r - 2]
  }

  lemma LimbsSuffice(r: nat, f: nat)
    requires OddPart(r)
    ensures Pow(r, f) <= Pow(BASE, LimbsFor(r, f))
  {
    if r == 1 {
      PowOfOne(f);
    } else {
      var d, l := DIGITS_PER_LIMB[r - 2], LimbsFor(r, f);
      LimbDigits(r);
      hide Pow;
      Positive(d, l);
      PowMonotone(r, f, d * l);
      PowPow(r, d, l);
      PowBase(Pow(r, d), BASE, l);
    }
  }

  /** a *= b, in place; a zero limb is never stored at the top. */
  method Multiply(a: Mpb, b: limb)
    requires a.Valid() && a.Val() > 0 && b > 0 && a.len < a.tab.Length
    modifies a, a.tab
    ensures a.Valid() && a.Val() == old(a.Val()) * b && a.len <= old(a.len) + 1
  {
    hide Value, Pow;
    a.TopLimb();
    ghost var v := a.Val();
    var h := MpMul1(a.tab, a.tab, a.len, b, 0);
    ghost var r := a.tab[..a.len];
    Times(1, b, v, v);
    if h != 0 {
      a.tab[a.len] := h;
      assert a.tab[..a.len + 1] == r + [h];
      ValueSnoc(r, h);
      a.len := a.len + 1;
    } else {
      TopOf(r);
    }
  }

  /** a /= d, in place, through the normalized divisor b. */
  method DivideBy(a: Mpb, b: limb, bInv: limb, shift: nat, ghost d: limb) returns (r: limb)
    requires a.Valid() && shift < LIMB_BITS && b >= HALF && IsInverse(b, bInv) && b == d * Pow(2, shift) && 0 < d
    modifies a, a.tab
    ensures a.Valid() && a.Val() == old(a.Val()) / d && r == old(a.Val()) % d && a.len <= old(a.len)
  {
    hide Value, Pow, IsInverse;
    ghost var v := a.Val();
    r := MpDiv1norm(a.tab, a.tab, a.len, b, 0, bInv, shift, d);
    DivideBack(Value(a.tab[..a.len]), d, r, v);
    a.Renorm();
  }

  /** The branch f >= 0. */
  method ScaleUp(a: Mpb, radix1: nat, f0: nat)
    requires a.Valid() && a.Val() > 0 && OddPart(radix1) && radix1 != 1
    requires a.len + LimbsFor(radix1, f0) <= a.tab.Length
    modifies a, a.tab
    ensures a.Valid() && a.Val() == old(a.Val()) * Pow(radix1, f0) && a.len <= old(a.len) + LimbsFor(radix1, f0)
  {
    hide Value, Pow, LimbsFor, Scaled, DIGITS_PER_LIMB, OddPart;
    var f: nat, b: limb, n0: nat := f0, 0, 0;
    ghost var v := a.Val();
    ScaledIs(v, radix1, f0);
    while f != 0
      invariant f <= f0 && a.Valid() && a.Val() == Scaled(v, radix1, f0 - f) && a.Val() > 0
      invariant a.len + LimbsFor(radix1, f) <= old(a.len) + LimbsFor(radix1, f0) <= a.tab.Length
      invariant n0 != 0 ==> 0 < b == Pow(radix1, n0)
      decreases f
    {
      f, n0, b := ScaleRound(a, radix1, f, n0, b, v, f0 - f);
    }
  }

  /** One round: the power of the round before is used again if it is the same. */
  method ScaleRound(a: Mpb, radix1: nat, f: nat, n0: nat, b0: limb, ghost v: nat, ghost done: nat)
    returns (f1: nat, n: nat, b: limb)
    requires a.Valid() && OddPart(radix1) && radix1 != 1 && f > 0
    requires a.Val() == Scaled(v, radix1, done) && a.Val() > 0 && a.len + LimbsFor(radix1, f) <= a.tab.Length
    requires n0 != 0 ==> 0 < b0 == Pow(radix1, n0)
    modifies a, a.tab
    ensures a.Valid() && f1 < f && a.Val() == Scaled(v, radix1, done + (f - f1)) && a.Val() > 0
    ensures a.len + LimbsFor(radix1, f1) <= old(a.len) + LimbsFor(radix1, f)
    ensures n != 0 ==> 0 < b == Pow(radix1, n)
  {
    LimbDigits(radix1);
    hide Value, Pow, LimbsFor, Scaled;
    n, b := Least(f, DIGITS_PER_LIMB[radix1 - 2]), b0;
    if n != n0 {
      PowMonotone(radix1, n, DIGITS_PER_LIMB[radix1 - 2]);
      b := PowUi(radix1, n);
    }
    FewerLimbsFor(radix1, f, n);
    ScaleStep(a, b, v, radix1, done, n);
    f1 := f - n;
  }

  function Scaled(v: nat, r: nat, k: nat): nat {
    v * Pow(r, k)
  }

  lemma ScaledIs(v: nat, r: nat, k: nat)
    ensures Scaled(v, r, 0) == v && Scaled(v, r, k) == v * Pow(r, k)
  {
    PowOne(r);
  }

  method ScaleStep(a: Mpb, b: limb, ghost v: nat, ghost r: nat, ghost done: nat, ghost n: nat)
    requires a.Valid() && a.Val() == Scaled(v, r, done) && a.Val() > 0 && b == Pow(r, n) > 0 && a.len < a.tab.Length
    modifies a, a.tab
    ensures a.Valid() && a.Val() == Scaled(v, r, done + n) && a.Val() > 0 && a.len <= old(a.len) + 1
  {
    hide Value, Pow;
    ghost var w := a.Val();
    Multiply(a, b);
    Multiplied(v, r, done, n, b, w);
  }

  lemma FewerLimbsFor(r: nat, f: nat, n: nat)
    requires OddPart(r) && r != 1 && f > 0 && n == Least(f, DIGITS_PER_LIMB[r - 2])
    ensures n <= f && LimbsFor(r, f) == 1 + LimbsFor(r, f - n)
  {
    LimbDigits(r);
    FewerLimbs(f, n, DIGITS_PER_LIMB[r - 2]);
  }

  lemma Multiplied(v: nat, r: nat, x: nat, y: nat, b: nat, w: nat)
    requires b == Pow(r, y) > 0 && w == v * Pow(r, x) && w > 0
    ensures w * b == v * Pow(r, x + y) && w * b > 0
  {
    PowAdd(r, x, y);
    hide Pow;
    var p := Pow(r, x);
    assert (v * p) * b == v * (p * b);
    Times(1, w, b, b);
  }

  lemma FewerLimbs(f: nat, n: nat, d: nat)
    requires d >= 1 && f >= 1 && n == Least(f, d)
    ensures (f + d - 1) / d == 1 + (f - n + d - 1) / d
  {
    if f < d {
      DivideBack(1, d, f - 1, f + d - 1);
      DivideBack(0, d, d - 1, d - 1);
    } else {
      var x := f - 1;
      DivideBack(x / d, d, x % d, x);
      DivideBack(x / d + 1, d, x % d, x + d);
    }
  }

  /** The loop of divisions: the remainders of all of them together tell whether
      the division by the whole power is exact. */
  method ScaleDown(a: Mpb, radix1: nat, f0: nat) returns (rem: bool)
    requires a.Valid() && OddPart(radix1) && radix1 != 1
    modifies a, a.tab
    ensures a.Valid() && a.len <= old(a.len)
    ensures a.Val() == old(a.Val()) / Pow(radix1, f0)
    ensures rem <==> old(a.Val()) % Pow(radix1, f0) != 0
  {
    LimbDigits(radix1);
    PowOne(radix1);
    hide Value, Pow, IsInverse;
    var d := DIGITS_PER_LIMB[radix1 - 2];
    var f: nat, b: limb, bInv: limb, shift: nat, n0: nat := f0, 0, 0, 0, 0;
    ghost var v := a.Val();
    DivideBack(v, 1, 0, v);
    rem := false;
    while f != 0
      invariant f <= f0 && a.Valid() && a.len <= old(a.len)
      invariant a.Val() == v / Pow(radix1, f0 - f) && (rem <==> v % Pow(radix1, f0 - f) != 0)
      invariant n0 != 0 ==> shift < LIMB_BITS && b >= HALF && IsInverse(b, bInv) && b == Pow(radix1, n0) * Pow(2, shift)
      decreases f
    {
      var n := Least(f, d);
      PowMonotone(radix1, n, d);
      if n != n0 {
        b, bInv, shift := PowUiInv(radix1, n);
        n0 := n;
      }
      var r := DivideBy(a, b, bInv, shift, Pow(radix1, n));
      DividedTwice(v, radix1, f0 - f, n);
      rem := rem || r != 0;
      f := f - n;
      assert f0 - f == f0 - (f + n) + n;
    }
  }

  /** Dividing by one power and then by another. */
  lemma DividedTwice(v: nat, r: nat, x: nat, y: nat)
    requires r > 0
    ensures v / Pow(r, x) / Pow(r, y) == v / Pow(r, x + y)
    ensures v % Pow(r, x + y) != 0 <==> v / Pow(r, x) % Pow(r, y) != 0 || v % Pow(r, x) != 0
  {
    PowAdd(r, x, y);
    hide Pow;
    var p, q := Pow(r, x), Pow(r, y);
    Nested(v, p, q);
    RemainderZero(p, v / p % q, v % p);
  }

  lemma RemainderZero(p: nat, x: nat, y: nat)
    requires p > 0
    ensures p * x + y != 0 <==> x != 0 || y != 0
  {
    Positive(p, x);
    if x > 0 { Times(1, x, p, p); }
  }

  /** The bits added below before a division, so that enough are left after it. */
  function ExtraBits(v: nat, isInt: bool, e: int, eOffset: int): nat
    requires v > 0
  {
    if isInt then Max(2 + e - eOffset, 0) else Max(e - Log2(v), 0)
  }

  /** How far mul_pow shifts the number to the left. */
  function Widened(v: nat, radix1: nat, radixShift: nat, f: int, isInt: bool, e: int): nat
    requires v > 0 && OddPart(radix1)
  {
    if radix1 == 1 || f >= 0 then 0
    else
      var bits := LimbsFor(radix1, -f) * LIMB_BITS;
      bits + ExtraBits(v, isInt, e, -f * radixShift + bits)
  }

  /** The room mul_pow needs in the buffer. */
  predicate HasRoom(len: nat, capacity: nat, v: nat, radix1: nat, radixShift: nat, f: int, isInt: bool, e: int)
    requires v > 0 && OddPart(radix1)
  {
    len + (if f >= 0 then LimbsFor(radix1, f) else Widened(v, radix1, radixShift, f, isInt, e) / LIMB_BITS + 1)
      <= capacity
  }

  /** The scaled number: exact, or truncated with the sticky bit. */
  ghost function ScaledValue(v: nat, radix1: nat, f: int, widened: nat): nat {
    if f >= 0 then v * Pow(radix1, f)
    else if radix1 == 1 then v
    else if Pow(radix1, -f) == 0 then 0
    else Sticky(v * Pow(2, widened), Pow(radix1, -f))
  }

  /** mul_pow: the number times (radix1 * 2^radixShift)^f is the new number times
      2^-eOffset, up to the sticky bit. */
  method MulPow(a: Mpb, radix1: nat, radixShift: nat, f: int, isInt: bool, e: int) returns (eOffset: int)
    requires a.Valid() && a.Val() > 0 && OddPart(radix1)
    requires HasRoom(a.len, a.tab.Length, a.Val(), radix1, radixShift, f, isInt, e)
    modifies a, a.tab
    ensures a.Valid()
    ensures var widened := Widened(old(a.Val()), radix1, radixShift, f, isInt, e);
            && eOffset == -f * radixShift + widened
            && a.Val() == ScaledValue(old(a.Val()), radix1, f, widened)
    ensures f >= 0 || radix1 == 1 ==> a.len <= old(a.len) + LimbsFor(radix1, Max(f, 0))
    ensures radix1 != 1 && f < 0 && isInt ==> eOffset >= 2 + e
    ensures radix1 != 1 && f < 0 && !isInt && e >= 0 ==> a.Val() >= Pow(2, e)
  {
    hide Value, Pow, Log2, LimbsFor;
    ghost var v := a.Val();
    eOffset := -f * radixShift;
    if radix1 != 1 {
      if f >= 0 {
        ScaleUp(a, radix1, f);
      } else {
        var bits := LimbsFor(radix1, -f) * LIMB_BITS;
        eOffset := eOffset + bits;
        var extra: nat := 0;
        if isInt {
          extra := Max(2 + e - eOffset, 0);
        } else {
          var log := a.FloorLog2();
          extra := Max(e - log, 0);
        }
        eOffset := eOffset + extra;
        a.ShiftLeft(bits + extra);
        var rem := ScaleDown(a, radix1, -f);
        SetSticky(a, rem);
        if !isInt && e >= 0 { EnoughBits(v, radix1, -f, bits, extra, e); }
      }
    } else {
      PowOfOneIs(f);
    }
  }

  lemma PowOfOneIs(f: int)
    ensures f >= 0 ==> Pow(1, f) == 1
  {
    if f >= 0 { PowOfOne(f); }
  }

  /** a->tab[0] |= rem */
  method SetSticky(a: Mpb, rem: bool)
    requires a.Valid()
    modifies a.tab
    ensures a.Valid() && a.Val() == if rem && old(a.Val()) % 2 == 0 then old(a.Val()) + 1 else old(a.Val())
  {
    hide Value, Pow;
    ghost var s := a.tab[..a.len];
    LowBit(s);
    if rem && a.tab[0] % 2 == 0 {
      a.tab[0] := a.tab[0] + 1;
      assert a.tab[..a.len] == [a.tab[0]] + s[1..] && s == [s[0]] + s[1..];
      ValueCons(a.tab[0], s[1..]);
      ValueCons(s[0], s[1..]);
    }
  }

  lemma LowBit(s: seq<limb>)
    requires s != []
    ensures Value(s) % 2 == s[0] % 2
  {
    assert Value(s) == s[0] + BASE * Value(s[1..]);
  }

  /** Dividing by a power that fits in `bits` leaves at least `e` bits. */
  lemma EnoughBits(v: nat, radix1: nat, f: nat, bits: nat, extra: nat, e: int)
    requires v > 0 && OddPart(radix1) && bits == LimbsFor(radix1, f) * 32 && e >= 0 && extra >= e - Log2(v)
    ensures Pow(radix1, f) > 0 && v * Pow(2, bits + extra) >= 0
    ensures Sticky(v * Pow(2, bits + extra), Pow(radix1, f)) >= Pow(2, e)
  {
    LimbsSuffice(radix1, f);
    Log2Is(v);
    PowBase32(LimbsFor(radix1, f));
    PowAdd(2, bits, extra);
    PowAdd(2, Log2(v), extra);
    PowMonotone(2, e, Log2(v) + extra);
    hide Pow, Log2, LimbsFor;
    Enough(v, Pow(radix1, f), Pow(2, bits), Pow(2, extra), Pow(2, e), Pow(2, Log2(v)));
  }

  lemma Enough(v: nat, d: nat, x: nat, y: nat, z: nat, top: nat)
    requires 0 < d <= x && 0 < y && top <= v && z <= top * y
    ensures v * (x * y) >= 0 && Sticky(v * (x * y), d) >= z
  {
    Positive(x, y);
    Positive(v, x * y);
    Times(top, v, y, y);
    Times(z, v * y, d, x);
    assert v * (x * y) == (v * y) * x;
    QuotientCheck(v * (x * y), d, z);
    Above(v * (x * y), d, z);
  }
}
