/** round_to_d and mul_pow_round_to_d: the float64 nearest to a number. */
module RoundToDouble {
  import opened Arithmetic
  import opened Power
  import opened Limbs
  import opened Rounding
  import opened Bignum
  import opened SmallPowers
  import opened PowerScaling
  import opened ScaleAndRound

  /** The exponent of the last place of a float64 below 2^top. */
  function Grid(top: int): int {
    Max(top - 53, -1074)
  }

  /** 2^(top-1) <= n/d * 2^x < 2^top */
  ghost predicate Within(n: nat, d: nat, x: int, top: int) {
    var k := top - 1 - x;
    && Mul(d, Up(2, k)) <= Mul(n, Down(2, k))
    && Mul(n, Down(2, k + 1)) < Mul(d, Up(2, k + 1))
  }

  /** n/d * 2^x in units of 2^g, to the nearest with ties to even. */
  ghost function RoundAt(n: nat, d: nat, x: int, g: int): nat
    requires d > 0
  {
    Round(Mul(n, Down(2, g - x)), Mul(d, Up(2, g - x)), RNDN)
  }

  /** m * 2^y == r * 2^g */
  ghost predicate SameValue(m: nat, y: int, r: nat, g: int) {
    Mul(m, Mul(Up(2, y), Down(2, g))) == Mul(r, Mul(Up(2, g), Down(2, y)))
  }

  /** m * 2^(e - 53) is n/d * 2^x rounded to the float64 grid; m has 53 bits. */
  ghost predicate NearestDouble(n: nat, d: nat, x: int, top: int, m: nat, e: int) {
    && d > 0 && Within(n, d, x, top)
    && SameValue(m, e - 53, RoundAt(n, d, x, Grid(top)), Grid(top))
    && (m == 0 || Pow(2, 52) <= m < Pow(2, 53))
  }

  lemma PowerValue(a: nat, y: int, b: nat, g: int)
    requires a + y == b + g
    ensures Mul(Pow(2, a), Mul(Up(2, y), Down(2, g))) == Mul(Pow(2, b), Mul(Up(2, g), Down(2, y)))
  {
    ThreePowers(a, Max(y, 0), Max(-g, 0));
    ThreePowers(b, Max(g, 0), Max(-y, 0));
    hide Pow, Mul;
    assert a + Max(y, 0) + Max(-g, 0) == b + Max(g, 0) + Max(-y, 0);
  }

  lemma ThreePowers(a: nat, b: nat, c: nat)
    ensures Mul(Pow(2, a), Mul(Pow(2, b), Pow(2, c))) == Pow(2, a + b + c)
  {
    PowAdd(2, a + b, c);
    PowAdd(2, a, b);
    hide Pow;
    Assoc(Pow(2, a), Pow(2, b), Pow(2, c));
  }

  lemma Shifted(r: nat, j: nat, y: int, g: int)
    requires y + j == g
    ensures SameValue(Mul(r, Pow(2, j)), y, r, g)
  {
    PowerValue(j, y, 0, g);
    PowOne(2);
    hide Pow;
    var u, v := Mul(Up(2, y), Down(2, g)), Mul(Up(2, g), Down(2, y));
    MulLaws(v, 1, 1);
    assert Mul(1, v) == v;
    MulLaws(r, Pow(2, j), u);
  }

  /** The number of bits that rounding leaves. */
  lemma RoundedBits(v: nat, log: nat, s: int, prec: int, r: nat)
    requires v > 0 && log == Log2(v) && s == log + 1 - prec
    requires if s < 0 then r == v * Pow(2, -s) else r == Round(v, Pow(2, s), RNDN)
    ensures prec >= 1 ==> Pow(2, prec - 1) <= r <= Pow(2, prec)
    ensures prec == 0 ==> r <= 1
    ensures prec < 0 ==> r == 0
  {
    Log2Is(v);
    PowOne(2);
    hide Log2;
    if s < 0 {
      PowAdd(2, log, -s);
      PowAdd(2, log + 1, -s);
      hide Pow;
      Times(Pow(2, log), v, Pow(2, -s), Pow(2, -s));
      Times(v, Pow(2, log + 1), Pow(2, -s), Pow(2, -s));
    } else {
      RoundedDown(v, log, s, prec, r);
    }
  }

  lemma RoundedDown(v: nat, log: nat, s: nat, prec: int, r: nat)
    requires Pow(2, log) <= v < Pow(2, log + 1) && s == log + 1 - prec && r == Round(v, Pow(2, s), RNDN)
    ensures prec >= 1 ==> Pow(2, prec - 1) <= r <= Pow(2, prec)
    ensures prec == 0 ==> r <= 1
    ensures prec < 0 ==> r == 0
  {
    hide Round;
    if prec >= 1 {
      PowAdd(2, prec - 1, s);
      PowAdd(2, prec, s);
      RoundBetween(v, Pow(2, s), Pow(2, prec - 1), Pow(2, prec));
    } else if prec == 0 {
      RoundBetween(v, Pow(2, s), 0, 1);
    } else {
      PowMonotone(2, log + 2, s);
      assert Pow(2, log + 2) == 2 * Pow(2, log + 1);
      RoundsToZero(v, Pow(2, s));
    }
  }

  lemma RoundBetween(v: nat, p: nat, lo: nat, hi: nat)
    requires p > 0 && lo * p <= v < hi * p
    ensures lo <= Round(v, p, RNDN) <= hi
  {
    Above(v, p, lo);
    QuotientCheck(v, p, hi);
  }

  lemma RoundsToZero(v: nat, p: nat)
    requires 2 * v < p
    ensures Round(v, p, RNDN) == 0
  {
    DivideBack(0, p, v, v);
  }

  /** round_to_d, for round-to-nearest-even, the only mode it is called with. */
  method RoundToD(a: Mpb, eOffset: int) returns (m: nat, e: int, ghost top: int)
    requires a.Valid() && (a.Val() < Pow(2, 53) ==> a.len + 2 <= a.tab.Length)
    modifies a, a.tab
    ensures a.Valid()
    ensures old(a.Val()) == 0 ==> m == 0
    ensures old(a.Val()) > 0 ==> NearestDouble(old(a.Val()), 1, -eOffset, top, m, e)
  {
    hide Value, Pow, Log2, Round, NearestDouble, Place;
    a.TopLimb();
    if a.tab[0] == 0 && a.len == 1 {
      m, e, top := 0, 0, 0;
      return;
    }
    ghost var v := a.Val();
    var log := a.FloorLog2();
    e := log + 1 - eOffset;
    top := e;
    var prec := if e < -1021 then 53 - (-1021 - e) else 53;
    assert e - prec == Grid(e);
    if e + eOffset - prec < 0 { FewerThan53(v, log); }
    a.ShrRound(e + eOffset - prec, RNDN);
    ghost var r := a.Val();
    RoundedBits(v, log, e + eOffset - prec, prec, r);
    assert r < BASE * BASE by { FewBits(prec, r); }
    m := a.GetU64();
    m := Place(m, prec);
    Normal53(r, prec, m);
    DoubleOf(v, eOffset, log, top, prec, r, m);
    assert Pow(2, 53) == 0x20_0000_0000_0000 by { Pow53(); }
    if m >= 0x20_0000_0000_0000 {
      m := m / 2;
      e := e + 1;
    }
  }

  lemma FewerThan53(v: nat, log: nat)
    requires v > 0 && log == Log2(v) && log < 53
    ensures v < Pow(2, 53)
  {
    Log2Is(v);
    hide Log2;
    PowMonotone(2, log + 1, 53);
  }

  lemma Pow53()
    ensures Pow(2, 53) == 0x20_0000_0000_0000 && Pow(2, 52) == 0x10_0000_0000_0000
  {
    PowTwo32();
    SmallPow2();
    PowAdd(2, 32, 21);
    PowAdd(2, 32, 20);
  }

  lemma FewBits(prec: int, r: nat)
    requires prec <= 53 && (prec >= 1 ==> r <= Pow(2, prec)) && (prec < 1 ==> r <= 1)
    ensures r < BASE * BASE
  {
    Pow53();
    hide Pow;
    if prec >= 1 { PowMonotone(2, prec, 53); }
  }

  /** The mantissa shifted to its place: zero, or 2^52 to 2^53. */
  lemma Normal53(r: nat, prec: int, m: nat)
    requires prec <= 53 && m == Place(r, prec)
    requires prec >= 1 ==> Pow(2, prec - 1) <= r <= Pow(2, prec)
    requires prec == 0 ==> r <= 1
    requires prec < 0 ==> r == 0
    ensures m == 0 || Pow(2, 52) <= m <= Pow(2, 53)
    ensures m == Pow(2, 53) ==> prec >= 0 && r == Pow(2, prec)
  {
    if prec >= 1 {
      NormalBits(r, prec);
    } else {
      PowOne(2);
      PowMonotone(2, 52, 53);
      hide Pow;
      MulLaws(1, Pow(2, 53 - prec), 1);
    }
  }

  lemma NormalBits(r: nat, prec: nat)
    requires 1 <= prec <= 53 && Pow(2, prec - 1) <= r <= Pow(2, prec)
    ensures Pow(2, 52) <= r * Pow(2, 53 - prec) <= Pow(2, 53)
    ensures r * Pow(2, 53 - prec) == Pow(2, 53) ==> r == Pow(2, prec)
  {
    hide Pow;
    PowAdd(2, prec - 1, 53 - prec);
    PowAdd(2, prec, 53 - prec);
    Scaled53(r, Pow(2, prec - 1), Pow(2, prec), Pow(2, 53 - prec));
  }

  lemma Scaled53(r: nat, lo: nat, hi: nat, p: nat)
    requires lo <= r <= hi && p > 0
    ensures lo * p <= r * p <= hi * p && (r * p == hi * p ==> r == hi)
  {
    Times(lo, r, p, p);
    Times(r, hi, p, p);
    Rounding.Ascending(r, hi, p);
  }

  /** The rounded bits moved to their place in a 53-bit mantissa. */
  function Place(r: nat, prec: int): nat
    requires prec <= 53
  {
    r * Pow(2, 53 - prec)
  }

  lemma PlaceIs(r: nat, prec: int)
    requires prec <= 53
    ensures Place(r, prec) == Mul(r, Pow(2, 53 - prec))
  {
  }

  /** From the pieces to the specification. */
  lemma DoubleOf(v: nat, eOffset: int, log: nat, top: int, prec: int, r: nat, m: nat)
    requires v > 0 && log == Log2(v) && top == log + 1 - eOffset && prec == top - Grid(top)
    requires var s := top + eOffset - prec; if s < 0 then r == v * Pow(2, -s) else r == Round(v, Pow(2, s), RNDN)
    requires m == Place(r, prec)
    requires m == 0 || Pow(2, 52) <= m <= Pow(2, 53)
    requires m == Pow(2, 53) ==> prec >= 0 && r == Pow(2, prec)
    ensures if m == Pow(2, 53) then m / 2 == Pow(2, 52) && NearestDouble(v, 1, -eOffset, top, m / 2, top + 1)
            else NearestDouble(v, 1, -eOffset, top, m, top)
  {
    WithinLog(v, log, -eOffset, top);
    RoundAtIs(v, -eOffset, Grid(top), r);
    hide Round, Log2, Within, Place;
    if m == Pow(2, 53) {
      DoubleAbove(v, eOffset, top, prec, r, m);
    } else {
      DoubleBelow(v, eOffset, top, prec, r, m);
    }
  }

  lemma DoubleBelow(v: nat, eOffset: int, top: int, prec: int, r: nat, m: nat)
    requires Within(v, 1, -eOffset, top) && prec == top - Grid(top) && r == RoundAt(v, 1, -eOffset, Grid(top))
    requires m == Place(r, prec) && (m == 0 || Pow(2, 52) <= m < Pow(2, 53))
    ensures NearestDouble(v, 1, -eOffset, top, m, top)
  {
    Shifted(r, 53 - prec, top - 53, Grid(top));
    PlaceIs(r, prec);
    hide Pow, Round, Mul, Within, RoundAt, Place;
  }

  lemma DoubleAbove(v: nat, eOffset: int, top: int, prec: int, r: nat, m: nat)
    requires Within(v, 1, -eOffset, top) && prec == top - Grid(top) && r == RoundAt(v, 1, -eOffset, Grid(top))
    requires m == Pow(2, 53) && prec >= 0 && r == Pow(2, prec)
    ensures m / 2 == Pow(2, 52) && NearestDouble(v, 1, -eOffset, top, m / 2, top + 1)
  {
    TwicePow52();
    PowerValue(52, top + 1 - 53, prec, Grid(top));
    hide Pow, Round, Mul, Within, RoundAt;
  }

  lemma TwicePow52()
    ensures Pow(2, 53) == 2 * Pow(2, 52) && Pow(2, 52) > 0
  {
    PowMonotone(2, 52, 53);
  }

  lemma WithinLog(v: nat, log: nat, x: int, top: int)
    requires v > 0 && log == Log2(v) && top == log + 1 + x
    ensures Within(v, 1, x, top)
  {
    Log2Is(v);
    PowOne(2);
    hide Log2;
    assert Down(2, log) == 1 && Down(2, log + 1) == 1 && Up(2, log) == Pow(2, log) && Up(2, log + 1) == Pow(2, log + 1);
    MulLaws(v, 1, 1);
    MulLaws(Pow(2, log), 1, 1);
    MulLaws(Pow(2, log + 1), 1, 1);
    assert Mul(1, Pow(2, log)) == Pow(2, log) && Mul(1, Pow(2, log + 1)) == Pow(2, log + 1);
  }

  lemma RoundAtIs(v: nat, x: int, g: int, r: nat)
    requires var s := g - x; if s < 0 then r == v * Pow(2, -s) else r == Round(v, Pow(2, s), RNDN)
    ensures RoundAt(v, 1, x, g) == r
  {
    var s := g - x;
    PowOne(2);
    assert Mul(1, Up(2, s)) == Up(2, s);
    if s < 0 {
      assert Up(2, s) == 1 && Down(2, s) == Pow(2, -s);
      DivideBack(r, 1, 0, r);
    } else {
      assert Down(2, s) == 1 && Up(2, s) == Pow(2, s);
      MulLaws(v, 1, 1);
    }
  }

  // ----- numbers behind a sticky bit -----------------------------------------------------------

  /** A quotient of at least 56 bits with a sticky bit has the same nearest
      float64 as the exact quotient. */
  lemma StickyDouble(n: nat, d: nat, v: nat, x: int, top: int, m: nat, e: int)
    requires d > 0 && v == Sticky(n, d) && v >= Pow(2, 55) && NearestDouble(v, 1, x, top, m, e)
    ensures NearestDouble(n, d, x, top, m, e)
  {
    hide Pow, Up, Down, Round, Sticky, Log2, Within, SameValue, Mul;
    LogOfTop(v, x, top);
    StickyTop(n, d, v, x, top);
    var s := Grid(top) - x;
    LogAtLeast(v, 55);
    var quarter := Pow(2, s - 2);
    FourQuarters(s);
    StickyRound(n, d, quarter, RNDN);
    Whole(2, s);
    MulLaws(v, 1, 1);
    MulLaws(n, 1, 1);
    MulLaws(1, Pow(2, s), 1);
    MulLaws(Pow(2, s), 1, 1);
    assert Mul(d, Pow(2, s)) == d * (4 * quarter) by { ProductIs(d, Pow(2, s)); }
    assert RoundAt(v, 1, x, Grid(top)) == RoundAt(n, d, x, Grid(top));
  }

  lemma ProductIs(a: nat, b: nat)
    ensures Mul(a, b) == a * b
  {
  }

  lemma LogAtLeast(v: nat, k: nat)
    requires v >= Pow(2, k)
    ensures v > 0 && Log2(v) >= k
  {
    Log2Is(v);
    hide Log2;
    PowMonotone(2, Log2(v) + 1, if Log2(v) < k then k else Log2(v) + 1);
  }

  lemma UpNone(y: int)
    ensures y <= 0 ==> Up(2, y) == 1
  {
  }

  lemma LogOfTop(v: nat, x: int, top: int)
    requires v > 0 && Within(v, 1, x, top)
    ensures Log2(v) == top - 1 - x
  {
    var k := top - 1 - x;
    PowOne(2);
    MulLaws(v, 1, 1);
    MulLaws(1, Up(2, k), 1);
    MulLaws(1, Up(2, k + 1), 1);
    assert Mul(1, Up(2, k)) == Up(2, k) && Mul(1, Up(2, k + 1)) == Up(2, k + 1);
    UpNone(k + 1);
    assert Mul(v, Down(2, k + 1)) >= 1 && k >= 0;
    assert Up(2, k) == Pow(2, k) && Down(2, k) == 1 && Up(2, k + 1) == Pow(2, k + 1) && Down(2, k + 1) == 1;
    Log2Unique(v, k);
  }

  /** The exact quotient lies between the same powers of two. */
  lemma StickyTop(n: nat, d: nat, v: nat, x: int, top: int)
    requires d > 0 && v == Sticky(n, d) && v >= Pow(2, 55) && Log2(v) == top - 1 - x
    ensures Within(n, d, x, top)
  {
    var k := Log2(v);
    Log2Is(v);
    LogAtLeast(v, 55);
    assert Pow(2, k) == 2 * Pow(2, k - 1) && Pow(2, k + 1) == 2 * Pow(2, k);
    assert Up(2, k) == Pow(2, k) && Down(2, k) == 1 && Up(2, k + 1) == Pow(2, k + 1) && Down(2, k + 1) == 1;
    hide Pow, Up, Down, Log2;
    MulLaws(n, 1, 1);
    StickyBetween(n, d, v, Pow(2, k - 1));
  }

  lemma StickyBetween(n: nat, d: nat, v: nat, half: nat)
    requires d > 0 && v == Sticky(n, d) && 2 * half <= v < 4 * half
    ensures d * (2 * half) <= n < d * (4 * half)
  {
    var q := n / d;
    assert 2 * half <= q < 4 * half;
    QuotientCheck(n, d, 2 * half);
    QuotientCheck(n, d, 4 * half);
    DivideBack(q, d, n % d, n);
    Times(2 * half, q, d, d);
  }

  // ----- the same number in another form --------------------------------------------------------

  /** n/d * 2^x == n1/d1 * 2^x1 */
  ghost predicate SameNumber(n: nat, d: nat, x: int, n1: nat, d1: nat, x1: int) {
    Mul(Mul(n, d1), Mul(Up(2, x), Down(2, x1))) == Mul(Mul(n1, d), Mul(Up(2, x1), Down(2, x)))
  }

  /** Compared with u * 2^k, both forms give the same answer. */
  lemma Compared(n: nat, d: nat, x: int, n1: nat, d1: nat, x1: int, k: int)
    requires d > 0 && d1 > 0 && SameNumber(n, d, x, n1, d1, x1)
    ensures Mul(Mul(n, Down(2, k - x)), Mul(d1, Up(2, k - x1))) == Mul(Mul(n1, Down(2, k - x1)), Mul(d, Up(2, k - x)))
  {
    TwoPowers(k - x, x, k);
    TwoPowers(k - x1, x1, k);
    hide Mul, Pow;
    var a, b, a1, b1 := Up(2, k - x), Down(2, k - x), Up(2, k - x1), Down(2, k - x1);
    var p, q, p1, q1 := Up(2, x), Down(2, x), Up(2, x1), Down(2, x1);
    assert Mul(Mul(a, p), Down(2, k)) == Mul(Mul(b, q), Up(2, k));
    assert Mul(Mul(a1, p1), Down(2, k)) == Mul(Mul(b1, q1), Up(2, k));
    CancelPowers(n, d, n1, d1, a, b, a1, b1, p, q, p1, q1, Up(2, k), Down(2, k));
  }

  /** (a p) w == (b q) u and (a1 p1) w == (b1 q1) u give (b a1) (q p1) == (b1 a) (q1 p). */
  lemma CancelPowers(n: nat, d: nat, n1: nat, d1: nat, a: nat, b: nat, a1: nat, b1: nat,
                     p: nat, q: nat, p1: nat, q1: nat, u: nat, w: nat)
    requires p > 0 && q > 0 && p1 > 0 && q1 > 0 && u > 0 && w > 0
    requires Mul(Mul(a, p), w) == Mul(Mul(b, q), u) && Mul(Mul(a1, p1), w) == Mul(Mul(b1, q1), u)
    requires Mul(Mul(n, d1), Mul(p, q1)) == Mul(Mul(n1, d), Mul(p1, q))
    ensures Mul(Mul(n, b), Mul(d1, a1)) == Mul(Mul(n1, b1), Mul(d, a))
  {
    var l, r := (n * b) * (d1 * a1), (n1 * b1) * (d * a);
    Positive(n, b);
    Positive(d1, a1);
    Positive(n * b, d1 * a1);
    Positive(n1, b1);
    Positive(d, a);
    Positive(n1 * b1, d * a);
    CancelProducts(n, d, n1, d1, a, b, a1, b1, p, q, p1, q1, u, w);
    Positive(q, p1);
    Positive(p, q1);
    Positive(q * p1, p * q1);
    Positive(u, w);
    Positive((q * p1) * (p * q1), u * w);
    Rounding.Ascending(l, r, ((q * p1) * (p * q1)) * (u * w));
  }

  lemma CancelProducts(n: nat, d: nat, n1: nat, d1: nat, a: nat, b: nat, a1: nat, b1: nat,
                       p: nat, q: nat, p1: nat, q1: nat, u: nat, w: nat)
    requires (a * p) * w == (b * q) * u && (a1 * p1) * w == (b1 * q1) * u
    requires (n * d1) * (p * q1) == (n1 * d) * (p1 * q)
    ensures ((n * b) * (d1 * a1)) * (((q * p1) * (p * q1)) * (u * w))
            == ((n1 * b1) * (d * a)) * (((q * p1) * (p * q1)) * (u * w))
  {
    var x, y, z, t := (a * p) * w, (b * q) * u, (a1 * p1) * w, (b1 * q1) * u;
    var f, g := (n * d1) * (p * q1), (n1 * d) * (p1 * q);
    Regroup(n, b, d1, a1, q, p1, p, q1, u, w);
    Regroup(n1, b1, d, a, q1, p, p1, q, u, w);
    assert ((q * p1) * (p * q1)) == ((q1 * p) * (p1 * q));
    assert y * z == t * x;
  }

  lemma Regroup(n: nat, b: nat, d1: nat, a1: nat, q: nat, p1: nat, p: nat, q1: nat, u: nat, w: nat)
    ensures ((n * b) * (d1 * a1)) * (((q * p1) * (p * q1)) * (u * w))
         == ((n * d1) * (p * q1)) * (((b * q) * u) * ((a1 * p1) * w))
  {
    var s, t := (n * d1) * (p * q1), (b * a1) * ((q * p1) * (u * w));
    assert (n * b) * (d1 * a1) == (n * d1) * (b * a1);
    var nd, ba, qp, pq, uw := n * d1, b * a1, q * p1, p * q1, u * w;
    assert (nd * ba) * ((qp * pq) * uw) == (nd * pq) * (ba * (qp * uw));
    Six(b, a1, q, p1, u, w);
  }

  lemma Six(b: nat, a: nat, q: nat, p: nat, u: nat, w: nat)
    ensures (b * a) * ((q * p) * (u * w)) == ((b * q) * u) * ((a * p) * w)
  {
    var bq, ap := b * q, a * p;
    assert (b * a) * (q * p) == bq * ap;
    var uw := u * w;
    assert (b * a) * ((q * p) * uw) == (bq * ap) * uw;
    assert (bq * u) * (ap * w) == (bq * ap) * uw;
  }

  /** Every form of a number has the same nearest float64. */
  lemma NearestSame(n: nat, d: nat, x: int, n1: nat, d1: nat, x1: int, top: int, m: nat, e: int)
    requires d1 > 0 && NearestDouble(n, d, x, top, m, e) && SameNumber(n, d, x, n1, d1, x1)
    ensures NearestDouble(n1, d1, x1, top, m, e)
  {
    hide SameValue, Pow, Mul, Round, SameNumber, Up, Down;
    var g := Grid(top);
    Compared(n, d, x, n1, d1, x1, top - 1);
    Compared(n, d, x, n1, d1, x1, top);
    Compared(n, d, x, n1, d1, x1, g);
    WithinSame(n, d, x, n1, d1, x1, top);
    RoundSame(Mul(n, Down(2, g - x)), Mul(d, Up(2, g - x)), Mul(n1, Down(2, g - x1)), Mul(d1, Up(2, g - x1)), RNDN);
  }

  lemma WithinSame(n: nat, d: nat, x: int, n1: nat, d1: nat, x1: int, top: int)
    requires d > 0 && d1 > 0 && Within(n, d, x, top)
    requires Mul(Mul(n, Down(2, top - 1 - x)), Mul(d1, Up(2, top - 1 - x1)))
             == Mul(Mul(n1, Down(2, top - 1 - x1)), Mul(d, Up(2, top - 1 - x)))
    requires Mul(Mul(n, Down(2, top - x)), Mul(d1, Up(2, top - x1)))
             == Mul(Mul(n1, Down(2, top - x1)), Mul(d, Up(2, top - x)))
    ensures Within(n1, d1, x1, top)
  {
    assert top - 1 - x + 1 == top - x && top - 1 - x1 + 1 == top - x1;
    Positive(d, Up(2, top - 1 - x));
    Positive(d, Up(2, top - x));
    hide Up, Down;
    CrossCompare(Mul(n, Down(2, top - 1 - x)), Mul(d, Up(2, top - 1 - x)), Mul(n1, Down(2, top - 1 - x1)),
                 Mul(d1, Up(2, top - 1 - x1)));
    CrossCompare(Mul(n, Down(2, top - x)), Mul(d, Up(2, top - x)), Mul(n1, Down(2, top - x1)),
                 Mul(d1, Up(2, top - x1)));
  }

  /** Equal fractions compare to 1 in the same way. */
  lemma CrossCompare(a: nat, b: nat, a1: nat, b1: nat)
    requires b > 0 && Mul(a, b1) == Mul(a1, b)
    ensures b1 > 0 ==> (b <= a <==> b1 <= a1)
  {
    if b1 > 0 {
      Rounding.Ascending(a, b, b1);
      Rounding.Ascending(a1, b1, b);
      assert b * b1 == b1 * b;
    }
  }

  // ----- mul_pow_round_to_d ---------------------------------------------------------------------

  lemma ExactForm(v: nat, radix1: nat, radix: nat, f: int, y: int)
    requires f >= 0 || radix1 == 1
    requires Up(radix, f) == Mul(Up(radix1, f), Up(2, y)) && Down(radix, f) == Mul(Down(radix1, f), Down(2, y))
    ensures SameNumber(Mul(v, Up(radix1, f)), 1, y, Mul(v, Up(radix, f)), Down(radix, f), 0)
  {
    assert Down(radix1, f) == 1 by { if f < 0 { PowOfOne(-f); } else { Whole(radix1, f); } }
    Whole(2, 0);
    hide Up, Down, Pow, Mul;
    ExactProducts(v, Up(radix1, f), Up(2, y), Down(2, y));
  }

  lemma ExactProducts(v: nat, r: nat, u: nat, w: nat)
    ensures Mul(Mul(Mul(v, r), Mul(1, w)), Mul(u, 1)) == Mul(Mul(Mul(v, Mul(r, u)), 1), Mul(1, w))
  {
    assert ((v * r) * w) * u == (v * (r * u)) * w;
  }

  /** A power with an exponent that is not negative is a whole number. */
  lemma Whole(b: nat, x: nat)
    ensures Up(b, x) == Pow(b, x) && Down(b, x) == 1
    ensures x == 0 ==> Up(b, x) == 1
  {
  }

  lemma Inverse(b: nat, x: int)
    ensures Up(b, x) == Down(b, -x) && Down(b, x) == Up(b, -x)
  {
  }

  lemma StickyForm(v: nat, radix1: nat, radix: nat, f: int, s: nat, y: int)
    requires f < 0
    requires Up(radix, f) == Mul(Up(radix1, f), Up(2, y)) && Down(radix, f) == Mul(Down(radix1, f), Down(2, y))
    ensures SameNumber(Mul(v, Pow(2, s)), Pow(radix1, -f), y - s, Mul(v, Up(radix, f)), Down(radix, f), 0)
  {
    hide Up, Down, Pow, Mul;
    TwoPowers(y - s, s, y);
    Whole(2, 0);
    Whole(2, s);
    Whole(radix1, -f);
    Inverse(radix1, f);
    StickyProducts(v, Pow(2, s), Pow(radix1, -f), Up(2, y), Down(2, y), Up(2, y - s), Down(2, y - s));
  }

  lemma StickyProducts(v: nat, p: nat, d: nat, u: nat, w: nat, us: nat, ws: nat)
    requires Mul(Mul(us, p), w) == Mul(Mul(ws, 1), u)
    ensures Mul(Mul(Mul(v, p), Mul(d, w)), Mul(us, 1)) == Mul(Mul(Mul(v, Mul(1, u)), d), Mul(1, ws))
  {
    Rearrange(v, p, d, w, us);
    Assoc(v, u, d);
    Rearrange(v, u, d, 1, ws);
  }

  lemma Rearrange(v: nat, p: nat, d: nat, w: nat, u: nat)
    ensures Mul(Mul(Mul(v, p), Mul(d, w)), Mul(u, 1)) == Mul(Mul(v, d), Mul(Mul(u, p), w))
    ensures Mul(Mul(Mul(v, Mul(1, p)), d), Mul(1, u)) == Mul(Mul(v, d), Mul(u, p))
  {
    MulSwap(v, p, d, w);
    Assoc(v * d, p * w, u);
    Rotate(p, w, u);
    MulSwap(v, p, d, 1);
    Assoc(v * d, p, u);
  }

  lemma Assoc(a: nat, b: nat, c: nat)
    ensures (a * b) * c == a * (b * c)
  {
  }

  lemma Rotate(p: nat, w: nat, u: nat)
    ensures (p * w) * u == (u * p) * w
  {
  }

  /** mul_pow_round_to_d: the float64 nearest to a * radix^f. */
  method MulPowRoundToD(a: Mpb, radix1: nat, radixShift: nat, f: int) returns (m: nat, e: int, ghost top: int)
    requires a.Valid() && a.Val() > 0 && OddPart(radix1)
    requires HasRoom(a.len, a.tab.Length, a.Val(), radix1, radixShift, f, false, 55)
    requires a.len + LimbsFor(radix1, Max(f, 0)) + 2 <= a.tab.Length
    modifies a, a.tab
    ensures a.Valid()
    ensures var radix := radix1 * Pow(2, radixShift);
            radix > 0 && NearestDouble(Mul(old(a.Val()), Up(radix, f)), Down(radix, f), 0, top, m, e)
  {
    hide Value, Pow, NearestDouble, HasRoom, LimbsFor, Widened, SameNumber;
    ghost var v := a.Val();
    ghost var widened := Widened(v, radix1, radixShift, f, false, 55);
    var eOffset := MulPow(a, radix1, radixShift, f, false, 55);
    ghost var w := a.Val();
    Positive(radix1, Pow(2, radixShift));
    assert f * radixShift == -(-f * radixShift);
    PowMonotone(2, 53, 55);
    ScaledForms(v, radix1, radixShift, f, widened, w);
    m, e, top := RoundToD(a, eOffset);
    Finish(v, radix1, radixShift, f, widened, w, top, m, e);
  }

  lemma ScaledForms(v: nat, radix1: nat, radixShift: nat, f: int, widened: nat, w: nat)
    requires v > 0 && OddPart(radix1) && w == ScaledValue(v, radix1, f, widened)
    requires widened == Widened(v, radix1, radixShift, f, false, 55)
    ensures f >= 0 || radix1 == 1 ==> w == Mul(v, Up(radix1, f)) > 0 && widened == 0
    ensures f < 0 && radix1 != 1 ==> w == Sticky(Mul(v, Pow(2, widened)), Pow(radix1, -f))
  {
    hide Sticky, LimbsFor;
    if radix1 == 1 && f < 0 {
      MulLaws(v, 1, 1);
      assert Up(1, f) == 1;
    }
    if f >= 0 || radix1 == 1 {
      Positive(v, Up(radix1, f));
    }
  }

  lemma Finish(v: nat, radix1: nat, radixShift: nat, f: int, widened: nat, w: nat, top: int, m: nat, e: int)
    requires v > 0 && OddPart(radix1) && w == ScaledValue(v, radix1, f, widened) && w > 0
    requires widened == Widened(v, radix1, radixShift, f, false, 55)
    requires f < 0 && radix1 != 1 ==> w >= Pow(2, 55)
    requires NearestDouble(w, 1, f * radixShift - widened, top, m, e)
    ensures radix1 * Pow(2, radixShift) > 0
    ensures var radix := radix1 * Pow(2, radixShift);
            NearestDouble(Mul(v, Up(radix, f)), Down(radix, f), 0, top, m, e)
  {
    hide NearestDouble, Pow, Up, Down, Mul, Widened, ScaledValue, SameNumber, Sticky, LimbsFor;
    ScaledForms(v, radix1, radixShift, f, widened, w);
    if f >= 0 || radix1 == 1 {
      FinishExact(v, radix1, radixShift, f, w, top, m, e);
    } else {
      FinishSticky(v, radix1, radixShift, f, widened, w, top, m, e);
    }
  }

  lemma FormOfRadix(radix1: nat, radixShift: nat, f: int)
    requires radix1 > 0
    ensures radix1 * Pow(2, radixShift) > 0
    ensures var radix := radix1 * Pow(2, radixShift);
            && Up(radix, f) == Mul(Up(radix1, f), Up(2, f * radixShift))
            && Down(radix, f) == Mul(Down(radix1, f), Down(2, f * radixShift))
  {
    RadixParts(radix1, radixShift, f);
    Positive(radix1, Pow(2, radixShift));
    hide Up, Down, Pow, Mul;
    assert radixShift * f == f * radixShift;
  }

  lemma FinishExact(v: nat, radix1: nat, radixShift: nat, f: int, w: nat, top: int, m: nat, e: int)
    requires radix1 > 0 && (f >= 0 || radix1 == 1) && w == Mul(v, Up(radix1, f))
    requires NearestDouble(w, 1, f * radixShift, top, m, e)
    ensures radix1 * Pow(2, radixShift) > 0
    ensures var radix := radix1 * Pow(2, radixShift);
            NearestDouble(Mul(v, Up(radix, f)), Down(radix, f), 0, top, m, e)
  {
    hide NearestDouble, Pow, Up, Down, Mul, SameNumber;
    FormOfRadix(radix1, radixShift, f);
    var radix := radix1 * Pow(2, radixShift);
    ExactForm(v, radix1, radix, f, f * radixShift);
    NearestSame(w, 1, f * radixShift, Mul(v, Up(radix, f)), Down(radix, f), 0, top, m, e);
  }

  lemma FinishSticky(v: nat, radix1: nat, radixShift: nat, f: int, widened: nat, w: nat, top: int, m: nat, e: int)
    requires radix1 > 0 && f < 0 && w == Sticky(Mul(v, Pow(2, widened)), Pow(radix1, -f)) && w >= Pow(2, 55)
    requires NearestDouble(w, 1, f * radixShift - widened, top, m, e)
    ensures radix1 * Pow(2, radixShift) > 0
    ensures var radix := radix1 * Pow(2, radixShift);
            NearestDouble(Mul(v, Up(radix, f)), Down(radix, f), 0, top, m, e)
  {
    hide NearestDouble, Pow, Up, Down, Mul, SameNumber, Sticky;
    FormOfRadix(radix1, radixShift, f);
    var radix := radix1 * Pow(2, radixShift);
    StickyForm(v, radix1, radix, f, widened, f * radixShift);
    StickyDouble(Mul(v, Pow(2, widened)), Pow(radix1, -f), w, f * radixShift - widened, top, m, e);
    NearestSame(Mul(v, Pow(2, widened)), Pow(radix1, -f), f * radixShift - widened, Mul(v, Up(radix, f)),
                Down(radix, f), 0, top, m, e);
  }
}
