/** js_atod: from a text to the bits of a float64. */
module NumberReader {
  import opened Arithmetic
  import opened Power
  import opened Limbs
  import opened Rounding
  import opened Bignum
  import opened SmallPowers
  import opened PowerScaling
  import opened ScaleAndRound
  import opened RoundToDouble
  import opened DigitCounts
  import opened RadixDigits
  import opened DoubleBits
  import opened RadixLogarithm
  import opened NumberScan
  import opened NumberValue
  import Capacity

  // ----- the digits that are kept -----------------------------------------------------------

  const ATOD_MAX_DIGITS: seq<nat> := [
    64, 80, 32, 55, 49, 45, 21, 40, 38, 37, 35, 34, 33, 32, 16, 31, 30, 30, 29, 29, 28, 28, 27, 27, 27, 26, 26, 26,
      26, 25,
    12, 25, 25, 24, 24
  ]

  /** js_atod keeps every digit that js_dtoa prints, and has room for them. */
  lemma DigitsKept(radix: nat)
    requires 2 <= radix <= 36
    ensures DTOA_MAX_DIGITS[radix - 2] <= ATOD_MAX_DIGITS[radix - 2]
    ensures DIGITS_PER_LIMB[radix - 2] > 0
    ensures ATOD_MAX_DIGITS[radix - 2] / DIGITS_PER_LIMB[radix - 2] + 3 < Capacity.DBIGNUM_LEN_MAX
  {
    LimbBases(radix);
    FewDigitsRead(radix);
    QuotientCheck(ATOD_MAX_DIGITS[radix - 2], DIGITS_PER_LIMB[radix - 2], 6);
  }

  lemma FewDigitsRead(radix: nat)
    requires 2 <= radix <= 36
    ensures DTOA_MAX_DIGITS[radix - 2] <= ATOD_MAX_DIGITS[radix - 2] < 6 * DIGITS_PER_LIMB[radix - 2]
  {
  }

  // ----- the parts of the radix -----------------------------------------------------------

  /** ctz32 */
  function Ctz(r: nat): nat
    requires r > 0
  {
    if r % 2 == 1 then 0 else 1 + Ctz(r / 2)
  }

  /** radix >> ctz32(radix) */
  function OddOf(r: nat): nat
    requires r > 0
  {
    if r % 2 == 1 then r else OddOf(r / 2)
  }

  lemma {:induction false} CtzSplits(r: nat)
    requires r > 0
    ensures OddOf(r) % 2 == 1 && 0 < OddOf(r) <= r && OddOf(r) * Pow(2, Ctz(r)) == r
  {
    if r % 2 == 0 {
      CtzSplits(r / 2);
      TwiceProduct(OddOf(r / 2), Pow(2, Ctz(r / 2)));
      assert Ctz(r) == Ctz(r / 2) + 1 && Pow(2, Ctz(r)) == 2 * Pow(2, Ctz(r / 2));
    } else {
      PowOne(2);
    }
  }

  lemma TwiceProduct(q: nat, p: nat)
    ensures q * (2 * p) == 2 * (q * p)
  {
  }

  lemma RadixSplit(radix: nat)
    requires 2 <= radix <= 36
    ensures OddPart(OddOf(radix)) && OddOf(radix) * Pow(2, Ctz(radix)) == radix
    ensures OddOf(radix) == 1 <==> IsPowerOfTwo(radix)
    ensures IsPowerOfTwo(radix) ==> Ctz(radix) == RadixBits(radix)
  {
    SmallPow2();
    hide Pow, Ctz, OddOf;
    CtzSplits(radix);
    CtzBelow(radix, 6);
  }

  lemma {:induction false} CtzBelow(r: nat, n: nat)
    requires 0 < r < Pow(2, n)
    ensures Ctz(r) < n
  {
    if r % 2 == 0 {
      assert Pow(2, n) == 2 * Pow(2, n - 1);
      CtzBelow(r / 2, n - 1);
    }
  }

  // ----- what is read -----------------------------------------------------------------------

  /** A text as js_atod takes it apart. `dot` is the number of digits before the
      dot; the exponent counts bits if `bin`; on overflow only its sign counts. */
  datatype Numeral =
    | NoNumber
    | Infinite(neg: bool, end: nat)
    | Numeral(neg: bool, ds: seq<nat>, dot: nat, bin: bool, expNeg: bool, expn: nat, overflow: bool, end: nat)

  function Bits(radix: nat): nat {
    if IsPowerOfTwo(radix) then RadixBits(radix) else 0
  }

  predicate BinaryLetter(c: char) {
    c == 'p' || c == 'P'
  }

  predicate ExponentHere(s: string, p: nat, start: nat, f: Format) {
    var c := At(s, p);
    && !f.intOnly
    && ((f.radix == 10 && (c == 'e' || c == 'E'))
        || (f.radix != 10 && (c == '@' || (1 <= Bits(f.radix) <= 4 && BinaryLetter(c)))))
    && p > start
  }

  predicate SignHere(s: string, p: nat) {
    At(s, p) == '+' || At(s, p) == '-'
  }

  const WORD: string := "Infinity"

  predicate InfinityHere(s: string, p: nat) {
    p + |WORD| <= |s| && s[p..p + |WORD|] == WORD
  }

  function Parse(s: string, f: Format): Numeral
    requires f.radix <= 36
  {
    var neg := At(s, 0) == '-';
    var start := if SignHere(s, 0) then 1 else 0;
    if At(s, start) == '0' then
      if (At(s, start + 1) == 'x' || At(s, start + 1) == 'X') && f.radix == 16 then
        if DigitHere(s, start + 2, 16) then ParseDigits(s, start + 2, start, neg, f) else NoNumber
      else ParseDigits(s, start, start, neg, f)
    else if !f.intOnly && InfinityHere(s, start) then Infinite(neg, start + |WORD|)
    else ParseDigits(s, start, start, neg, f)
  }

  function ParseDigits(s: string, p: nat, start: nat, neg: bool, f: Format): Numeral
    requires f.radix <= 36
  {
    var r := Scan(s, p, start, f, [], -1);
    var e := ParseExponent(s, r.end, start, f);
    if e.NoDigits? || e.end == start then NoNumber
    else Numeral(neg, r.ds, DotOf(r.dot, |r.ds|), e.bin, e.neg, e.expn, e.overflow, e.end)
  }

  /** Without a dot, the number ends where one would be. */
  function DotOf(dotPos: int, pos: nat): nat {
    if dotPos < 0 then pos else dotPos
  }

  datatype ExponentPart = NoDigits | ExponentPart(bin: bool, neg: bool, expn: nat, overflow: bool, end: nat)

  function ParseExponent(s: string, p: nat, start: nat, f: Format): ExponentPart {
    if !ExponentHere(s, p, start, f) then ExponentPart(false, false, 0, false, p)
    else
      var q := if SignHere(s, p + 1) then p + 2 else p + 1;
      if !DigitHere(s, q, 10) then NoDigits
      else
        var e := ScanExponent(s, q + 1, f.underscores, ToDigit(At(s, q)), false);
        ExponentPart(BinaryLetter(At(s, p)), At(s, p + 1) == '-', e.value, e.overflow, e.end)
  }

  function LeadingZeros(ds: seq<nat>): (z: nat)
    ensures z <= |ds| && (forall i :: 0 <= i < z ==> ds[i] == 0) && (z < |ds| ==> ds[z] != 0)
  {
    if ds == [] || ds[0] != 0 then 0 else 1 + LeadingZeros(ds[1..])
  }

  /** The exponent in digits or, for a power of two, in bits. */
  function Scale(radix: nat, bin: bool, expNeg: bool, expn: nat): int {
    var e := if expNeg then 0 - expn else expn as int;
    if IsPowerOfTwo(radix) && !bin then e * RadixBits(radix) else e
  }

  function MaxDigits(radix: nat): (k: nat)
    requires 2 <= radix <= 36
    ensures k >= 1
  {
    ATOD_MAX_DIGITS[radix - 2]
  }

  /** The digits that count: all of them for a power of two, otherwise as many as
      the table says. */
  function Significant(ds: seq<nat>, radix: nat): (r: seq<nat>)
    requires 2 <= radix <= 36
  {
    Kept(ds, LeadingZeros(ds), MaxDigits(radix))
  }

  /** `a` is the float64 nearest to the number: exactly for a power of two, and
      with the digits beyond the table's number taken as zero otherwise. */
  ghost predicate IsReading(ds: seq<nat>, dot: nat, radix: nat, x: int, a: nat)
    requires 2 <= radix <= 36
  {
    var v, g := Horner(Significant(ds, radix), radix), x + dot - LeadingZeros(ds) - |Significant(ds, radix)|;
    if !AnyDigit(ds, 0, |ds|) then a == 0
    else if IsPowerOfTwo(radix) then IsNearest(Horner(ds, radix), 1, x + RadixBits(radix) * (dot - |ds|), a)
    else IsNearest(Mul(v, Up(radix, g)), Down(radix, g), 0, a)
  }

  /** What js_atod returns for a number: the bits without the sign. */
  ghost predicate Reads(n: Numeral, radix: nat, a: nat)
    requires n.Numeral? && 2 <= radix <= 36
  {
    if n.overflow && AnyDigit(n.ds, 0, |n.ds|) then a == if n.expNeg then 0 else INFINITY
    else IsReading(n.ds, n.dot, radix, Scale(radix, n.bin, n.expNeg, n.expn), a)
  }

  // ----- powers of two ------------------------------------------------------------------------

  /** What the two loops over the digits leave behind when some digit is not zero. */
  ghost predicate Taken(v: nat, ds: seq<nat>, z: nat, radix: nat, digitCount: nat, extra: bool) {
    && 2 <= radix <= 36 && AreDigits(ds, radix) && z == LeadingZeros(ds) < |ds|
    && v == Horner(Significant(ds, radix), radix) && digitCount == |Significant(ds, radix)|
    && (extra <==> AnyDigit(ds, z + MaxDigits(radix), |ds|))
  }

  /** tab[0] |= 1 */
  method SetLowBit(a: Mpb)
    requires a.Valid()
    modifies a.tab
    ensures a.Valid() && a.len == old(a.len)
    ensures a.Val() == if old(a.Val()) % 2 == 0 then old(a.Val()) + 1 else old(a.Val())
  {
    ghost var s := a.tab[..a.len];
    ValueFirst(s);
    LowParity(s[0], Value(s[1..]), Value(s));
    if a.tab[0] % 2 == 0 {
      a.tab[0] := a.tab[0] + 1;
      assert a.tab[..a.len][1..] == s[1..];
      ValueFirst(a.tab[..a.len]);
    }
  }

  lemma LowParity(first: nat, rest: nat, v: nat)
    requires v == first + BASE * rest
    ensures v % 2 == first % 2
  {
    assert BASE * rest == 2 * (0x8000_0000 * rest);
  }

  /** The number with the bit that stands for the digits that are not kept. */
  function WithSticky(v: nat, extra: bool): nat {
    if extra && v % 2 == 0 then v + 1 else v
  }

  lemma AfterZeros(ds: seq<nat>, z: nat, radix: nat)
    requires radix >= 2 && AreDigits(ds, radix) && z == LeadingZeros(ds) < |ds|
    ensures AreDigits(ds[z..], radix) && ds[z] != 0 && Horner(ds, radix) == Horner(ds[z..], radix)
    ensures Pow(radix, |ds| - z - 1) <= Horner(ds, radix) < Pow(radix, |ds| - z)
  {
    hide Horner, Pow;
    WithoutZeros(ds, z, radix);
    FirstDigit(ds[z..], radix);
  }

  lemma DigitFrom(ds: seq<nat>, z: nat, lo: nat)
    requires z <= |ds|
    ensures AnyDigit(ds, z + lo, |ds|) <==> AnyDigit(ds[z..], lo, |ds| - z)
  {
    if j :| z + lo <= j < |ds| && ds[j] != 0 {
      assert ds[z..][j - z] != 0;
    }
    if j :| lo <= j < |ds| - z && ds[z..][j] != 0 {
      assert ds[z + j] != 0;
    }
  }

  lemma KeptPart(ds: seq<nat>, z: nat, maxDigits: nat)
    requires z <= |ds|
    ensures var k := Smaller(|ds| - z, maxDigits);
            && Kept(ds, z, maxDigits) == ds[z..][..k]
            && (AnyDigit(ds, z + maxDigits, |ds|) <==> AnyDigit(ds[z..], k, |ds| - z))
  {
    DigitFrom(ds, z, maxDigits);
    NoDigitBeyond(ds[z..], maxDigits);
    NoDigitBeyond(ds[z..], |ds| - z);
    hide AnyDigit;
  }

  lemma StickyTaken(v: nat, ds: seq<nat>, z: nat, radix: nat, digitCount: nat, extra: bool)
    requires Taken(v, ds, z, radix, digitCount, extra)
    ensures digitCount >= 1 && |ds| - z - digitCount >= 0 && Pow(radix, |ds| - z - digitCount) > 0
    ensures Pow(radix, digitCount - 1) <= v < Pow(radix, digitCount)
    ensures WithSticky(v, extra) == Sticky(Horner(ds, radix), Pow(radix, |ds| - z - digitCount))
    ensures extra ==> digitCount == MaxDigits(radix)
    ensures !extra ==> Horner(ds, radix) == v * Pow(radix, |ds| - z - digitCount)
  {
    hide MaxDigits, Horner, Pow, AnyDigit, Sticky, WithSticky, IsPowerOfTwo, Values;
    var max := MaxDigits(radix);
    AfterZeros(ds, z, radix);
    KeptPart(ds, z, max);
    NoDigitBeyond(ds, z + max);
    KeptQuotient(ds[z..], digitCount, radix);
    FirstDigit(ds[z..][..digitCount], radix);
    StickyQuotient(Horner(ds, radix), Pow(radix, |ds| - z - digitCount), v, extra);
  }

  lemma StickyQuotient(n: nat, p: nat, v: nat, extra: bool)
    requires p > 0 && n / p == v && (extra <==> n % p != 0)
    ensures WithSticky(v, extra) == Sticky(n, p) && (!extra ==> n == v * p)
  {
    QuotientParts(n, p);
  }

  lemma NoDigitBeyond(ds: seq<nat>, lo: nat)
    ensures lo >= |ds| ==> !AnyDigit(ds, lo, |ds|)
  {
  }

  lemma EnoughBits55(radix: nat, k: nat)
    requires 2 <= radix <= 36 && IsPowerOfTwo(radix) && k == MaxDigits(radix)
    ensures k >= 1 && Pow(radix, k - 1) >= Pow(2, 55)
  {
    BitsFit(radix);
    hide Pow;
    PowPow(2, RadixBits(radix), k - 1);
    PowMonotone(2, 55, RadixBits(radix) * (k - 1));
  }

  /** What js_atod reads is at least 2^expn1 / radix and less than 2^expn1. */
  lemma TwoLimits(n: nat, t: nat, radix: nat, x: int, expn1: int)
    requires 2 <= radix <= 36 && IsPowerOfTwo(radix) && t >= 1 && Pow(radix, t - 1) <= n < Pow(radix, t)
    requires expn1 == x + t * RadixBits(radix)
    ensures expn1 >= 1024 + RadixBits(radix) ==> IsNearest(n, 1, x, INFINITY)
    ensures expn1 <= -1075 ==> IsNearest(n, 1, x, 0)
  {
    BitsFit(radix);
    var b := RadixBits(radix);
    PowOne(radix);
    hide Pow, IsNearest, RadixBits, IsPowerOfTwo;
    PowPow(2, b, t);
    PowPow(2, b, t - 1);
    assert b * t == t * b && b * (t - 1) == t * b - b;
    Atleast1(radix, t - 1);
    if expn1 >= 1024 + b {
      AtLeastBits(n, b * (t - 1), x, 1024);
      LargeNearest(n, 1, x);
    }
    if expn1 <= -1075 {
      BelowBits(n, b * t, x, -1075);
      SmallNearest(n, 1, x);
    }
  }

  lemma Atleast1(b: nat, e: nat)
    requires b > 0
    ensures Pow(b, e) >= 1
  {
  }

  /** The branch for powers of two: round_to_d alone, or no rounding at all. */
  method ReadTwo(tmp0: Mpb, radix: nat, digitCount: nat, ghost extra: bool, expn0: int, expnOffset: int,
                 ghost ds: seq<nat>, ghost v: nat, ghost dot: nat)
    returns (a: nat)
    requires tmp0.Valid() && tmp0.tab.Length >= 4 && 2 <= radix <= 36 && IsPowerOfTwo(radix)
    requires Taken(v, ds, LeadingZeros(ds), radix, digitCount, extra) && tmp0.Val() == WithSticky(v, extra)
    requires expnOffset == LeadingZeros(ds) + digitCount - dot
    modifies tmp0, tmp0.tab
    ensures IsNearest(Horner(ds, radix), 1, expn0 + RadixBits(radix) * (dot - |ds|), a)
  {
    hide Pow, Horner, IsNearest, NearestDouble, Taken, Sticky, Value, RadixBits, IsPowerOfTwo, WithSticky;
    ghost var z, n := LeadingZeros(ds), Horner(ds, radix);
    assert z + digitCount <= |ds| by { TakenIs(v, ds, z, radix, digitCount, extra); }
    ghost var rest: nat := |ds| - z - digitCount;
    var bits := RadixBits(radix);
    var expn := expn0 - expnOffset * bits;
    var expn1 := expn + digitCount * bits;
    ghost var x := expn0 + bits * (dot - |ds|);
    assert x == expn - bits * rest
           && expn1 == x + (|ds| - z) * bits by { TwoExponents(bits, expn0, z, digitCount, dot, |ds|); }
    TakenIs(v, ds, z, radix, digitCount, extra);
    TwoLimits(n, |ds| - z, radix, x, expn1);
    if expn1 >= 1024 + bits {
      return INFINITY;
    }
    if expn1 <= -1075 {
      return 0;
    }
    ghost var w := tmp0.Val();
    RoundRoom(tmp0);
    TakenPositive(v, ds, z, radix, digitCount, extra);
    var m, e;
    ghost var top;
    m, e, top := RoundToD(tmp0, -expn);
    a := Pack(m, e);
    ReadTwoNearest(v, ds, z, radix, digitCount, extra, expn, top, m, e);
  }

  lemma TakenIs(v: nat, ds: seq<nat>, z: nat, radix: nat, digitCount: nat, extra: bool)
    requires Taken(v, ds, z, radix, digitCount, extra)
    ensures digitCount >= 1 && z + digitCount <= |ds|
    ensures Pow(radix, |ds| - z - 1) <= Horner(ds, radix) < Pow(radix, |ds| - z)
  {
    StickyTaken(v, ds, z, radix, digitCount, extra);
    AfterZeros(ds, z, radix);
  }

  lemma TakenPositive(v: nat, ds: seq<nat>, z: nat, radix: nat, digitCount: nat, extra: bool)
    requires Taken(v, ds, z, radix, digitCount, extra)
    ensures v > 0 && WithSticky(v, extra) > 0
  {
    StickyTaken(v, ds, z, radix, digitCount, extra);
    hide Pow;
    Atleast1(radix, digitCount - 1);
  }

  lemma TwoExponents(bits: nat, expn0: int, z: nat, k: nat, dot: nat, n: nat)
    requires z + k <= n
    ensures var expn, x := expn0 - (z + k - dot) * bits, expn0 + bits * (dot - n);
            x == expn - bits * (n - z - k) && expn + k * bits == x + (n - z) * bits
  {
  }

  lemma RoundRoom(a: Mpb)
    requires a.Valid()
    ensures a.Val() < Pow(2, 53) ==> a.len <= 2
  {
    a.TopLimb();
    Pow53();
    if a.len > 2 {
      PowMonotone(BASE, 2, a.len - 1);
      assert Pow(BASE, 2) == BASE * BASE;
    }
  }

  lemma ReadTwoNearest(v: nat, ds: seq<nat>, z: nat, radix: nat, digitCount: nat, extra: bool, expn: int, top: int,
                       m: nat, e: int)
    requires Taken(v, ds, z, radix, digitCount, extra) && IsPowerOfTwo(radix) && z + digitCount <= |ds|
    requires NearestDouble(WithSticky(v, extra), 1, expn, top, m, e)
    ensures IsNearest(Horner(ds, radix), 1, expn - RadixBits(radix) * (|ds| - z - digitCount), Pack(m, e))
  {
    StickyTaken(v, ds, z, radix, digitCount, extra);
    BitsFit(radix);
    var n, w, rest, b := Horner(ds, radix), WithSticky(v, extra), |ds| - z - digitCount, RadixBits(radix);
    hide Horner, Sticky, NearestDouble, IsNearest, SameNumber, Taken, RadixBits, IsPowerOfTwo, MaxDigits;
    PowPow(2, b, rest);
    var d := Pow(2, b * rest);
    hide Pow;
    if extra {
      EnoughBits55(radix, digitCount);
      assert w >= Pow(2, 55);
      StickyDouble(n, d, w, expn, top, m, e);
      NearestIs(n, d, expn, top, m, e);
      DividedByTwos(n, expn, b * rest);
      NearestForm(n, d, expn, n, 1, expn - b * rest, Pack(m, e));
    } else {
      NearestIs(v, 1, expn, top, m, e);
      DividedByTwos(v * d, expn, b * rest);
      MultipliedByTwos(v, expn, b * rest);
      NearestForm(v, 1, expn, n, 1, expn - b * rest, Pack(m, e));
    }
  }

  lemma MultipliedByTwos(v: nat, x: int, s: nat)
    ensures SameNumber(v, 1, x, v * Pow(2, s), 1, x - s)
  {
    TwoPowers(x - s, s, x);
    Whole(2, s);
    hide Pow, Up, Down;
    MultipliedProducts(v, Pow(2, s), Up(2, x - s), Down(2, x - s), Up(2, x), Down(2, x));
  }

  lemma MultipliedProducts(v: nat, p: nat, u1: nat, d1: nat, u: nat, w: nat)
    requires (u1 * p) * w == (d1 * 1) * u
    ensures (v * 1) * (u * d1) == ((v * p) * 1) * (u1 * w)
  {
    assert ((v * p) * 1) * (u1 * w) == v * ((u1 * p) * w);
  }

  // ----- other radices ----------------------------------------------------------------------------

  lemma ReadingSizes(radix: nat)
    requires 2 <= radix <= 36 && !IsPowerOfTwo(radix)
    ensures var d := DIGITS_PER_LIMB[radix - 2];
            && d > 0 && MaxExponent(radix) <= 45 * d && -MinExponent(radix) <= 40 * d
            && MaxDigits(radix) <= 5 * d
  {
    MaxSizes(radix);
    MinSizes(radix);
    hide MaxExponent, MinExponent;
  }

  lemma MaxSizes(radix: nat)
    requires 2 <= radix <= 36
    ensures DIGITS_PER_LIMB[radix - 2] > 0 && MaxExponent(radix) <= 45 * DIGITS_PER_LIMB[radix - 2]
  {
  }

  lemma MinSizes(radix: nat)
    requires 2 <= radix <= 36
    ensures -MinExponent(radix) <= 40 * DIGITS_PER_LIMB[radix - 2]
  {
  }

  lemma FewLimbsRead(radix: nat, radix1: nat, s: nat, x: nat)
    requires 2 <= radix <= 36 && OddPart(radix1) && radix1 * Pow(2, s) == radix && x <= 45 * DIGITS_PER_LIMB[radix - 2]
    ensures LimbsFor(radix1, x) <= 45
  {
    if radix1 != 1 {
      Capacity.OddPartBelow(radix, radix1, s);
      Capacity.MoreDigits(radix1, radix);
      var d := DIGITS_PER_LIMB[radix1 - 2];
      hide DIGITS_PER_LIMB;
      Times(DIGITS_PER_LIMB[radix - 2], d, 45, 45);
      QuotientCheck(x + d - 1, d, 46);
    }
  }

  /** The digits that are kept fill at most five limbs. */
  lemma FewLimbsKept(a: Mpb, radix: nat, digitCount: nat)
    requires a.Valid() && 2 <= radix <= 36 && !IsPowerOfTwo(radix) && digitCount <= MaxDigits(radix)
    requires a.Val() < Pow(radix, digitCount)
    ensures a.len <= 5
  {
    ReadingSizes(radix);
    LimbBases(radix);
    var d := DIGITS_PER_LIMB[radix - 2];
    hide Pow, DIGITS_PER_LIMB, LimbBase, MaxExponent, MinExponent, Value, IsPowerOfTwo, MaxDigits;
    PowPow(radix, d, 5);
    PowBase(Pow(radix, d), BASE, 5);
    PowMonotone(radix, digitCount, d * 5);
    a.TopLimb();
    if a.len > 5 {
      PowMonotone(BASE, 5, a.len - 1);
    }
  }

  lemma ReadingRoomFor(len: nat, capacity: nat, v: nat, radix: nat, radix1: nat, s: nat, f: int, digitCount: nat)
    requires 2 <= radix <= 36 && !IsPowerOfTwo(radix) && OddPart(radix1) && radix1 * Pow(2, s) == radix && v > 0
    requires len <= 5 && digitCount <= MaxDigits(radix) && capacity >= Capacity.DBIGNUM_LEN_MAX
    requires MinExponent(radix) < f + digitCount <= MaxExponent(radix)
    ensures HasRoom(len, capacity, v, radix1, s, f, false, 55)
    ensures len + LimbsFor(radix1, Max(f, 0)) + 2 <= capacity
  {
    ReadingSizes(radix);
    hide MaxExponent, MinExponent, MaxDigits, Log2;
    FewLimbsRead(radix, radix1, s, Max(f, 0));
    FewLimbsRead(radix, radix1, s, Max(-f, 0));
    hide DIGITS_PER_LIMB, LimbsFor, Pow;
    LimbsForZero(radix1);
  }

  lemma LimbsForZero(radix1: nat)
    requires OddPart(radix1)
    ensures LimbsFor(radix1, 0) == 0
  {
  }

  /** The branch for all other radices: the powers of the radix from the table
      decide first. */
  method ReadOther(tmp0: Mpb, radix: nat, radix1: nat, radixShift: nat, digitCount: nat, expn0: int, expnOffset: int,
                   ghost ds: seq<nat>, ghost extra: bool)
    returns (a: nat)
    requires 2 <= radix <= 36 && !IsPowerOfTwo(radix) && OddPart(radix1) && radix1 * Pow(2, radixShift) == radix
    requires tmp0.Valid() && tmp0.tab.Length >= Capacity.DBIGNUM_LEN_MAX
    requires Taken(tmp0.Val(), ds, LeadingZeros(ds), radix, digitCount, extra)
    modifies tmp0, tmp0.tab
    ensures var g := expn0 - expnOffset; IsNearest(Mul(old(tmp0.Val()), Up(radix, g)), Down(radix, g), 0, a)
  {
    ghost var v := tmp0.Val();
    StickyTaken(v, ds, LeadingZeros(ds), radix, digitCount, extra);
    TakenPositive(v, ds, LeadingZeros(ds), radix, digitCount, extra);
    hide Value, IsNearest, NearestDouble, Pow, Horner, Sticky, IsPowerOfTwo, MaxExponent, MinExponent, Up, Down,
         HasRoom, LimbsFor, Mul, MaxDigits;
    var expn := expn0 - expnOffset;
    var expn1 := expn + digitCount;
    assert digitCount <= MaxDigits(radix) by { KeptSize(ds, radix); }
    OtherLimits(v, radix, expn, digitCount);
    if expn1 >= MaxExponent(radix) + 1 {
      return INFINITY;
    }
    if expn1 <= MinExponent(radix) {
      return 0;
    }
    FewLimbsKept(tmp0, radix, digitCount);
    ReadingRoomFor(tmp0.len, tmp0.tab.Length, v, radix, radix1, radixShift, expn, digitCount);
    var m, e;
    ghost var top;
    m, e, top := MulPowRoundToD(tmp0, radix1, radixShift, expn);
    a := Pack(m, e);
    NearestIs(Mul(v, Up(radix, expn)), Down(radix, expn), 0, top, m, e);
  }

  lemma OtherLimits(v: nat, radix: nat, f: int, digitCount: nat)
    requires 2 <= radix <= 36 && !IsPowerOfTwo(radix) && digitCount >= 1
    requires 0 < v && Pow(radix, digitCount - 1) <= v < Pow(radix, digitCount)
    ensures var n, d := Mul(v, Up(radix, f)), Down(radix, f);
            && (f + digitCount >= MaxExponent(radix) + 1 ==> IsNearest(n, d, 0, INFINITY))
            && (f + digitCount <= MinExponent(radix) ==> IsNearest(n, d, 0, 0))
  {
    hide Pow, IsNearest, IsPowerOfTwo, Up, Down, Mul, AtLeastTwoTo, BelowTwoTo;
    ScaledNumber(v, radix, f);
    if f + digitCount >= MaxExponent(radix) + 1 {
      AtLeastMax(v, radix, f, digitCount);
      LargeNearest(Mul(v, Up(radix, f)), Down(radix, f), 0);
    }
    if f + digitCount <= MinExponent(radix) {
      BelowMin(v, radix, f, digitCount);
      SmallNearest(Mul(v, Up(radix, f)), Down(radix, f), 0);
    }
  }

  lemma KeptSize(ds: seq<nat>, radix: nat)
    requires 2 <= radix <= 36
    ensures |Significant(ds, radix)| <= MaxDigits(radix)
  {
  }

  lemma ScaledNumber(v: nat, radix: nat, f: int)
    requires v > 0 && radix > 0
    ensures Mul(v, Up(radix, f)) > 0 && Down(radix, f) > 0
  {
  }

  // ----- the whole text -----------------------------------------------------------------------------

  /** Where the text goes on, and its number: the sign and the bits without it. */
  datatype Outcome = NaN | Double(neg: bool, bits: nat, end: nat)

  /** What js_atod returns for a text that has been taken apart. */
  ghost predicate Returns(n: Numeral, radix: nat, r: Outcome)
    requires 2 <= radix <= 36
  {
    match n
    case NoNumber => r == NaN
    case Infinite(neg, end) => r == Double(neg, INFINITY, end)
    case Numeral(neg, _, _, _, _, _, _, end) => r.Double? && r.neg == neg && r.end == end && Reads(n, radix, r.bits)
  }

  lemma {:induction false} LeadingZerosAre(ds: seq<nat>, z: nat)
    requires z <= |ds| && (forall i :: 0 <= i < z ==> ds[i] == 0) && (z < |ds| ==> ds[z] != 0)
    ensures LeadingZeros(ds) == z
    ensures AnyDigit(ds, 0, |ds|) <==> z < |ds|
  {
    var y := LeadingZeros(ds);
    assert y < |ds| ==> ds[y] != 0;
    if j :| 0 <= j < |ds| && ds[j] != 0 {
      assert z <= j;
    }
  }

  /** js_atod */
  method Atod(tmp0: Mpb, s: string, f: Format) returns (r: Outcome)
    requires 2 <= f.radix <= 36 && tmp0.tab.Length >= Capacity.DBIGNUM_LEN_MAX
    modifies tmp0, tmp0.tab
    ensures Returns(Parse(s, f), f.radix, r)
  {
    hide ParseDigits, Reads, DigitHere, InfinityHere;
    var neg, start: nat := false, 0;
    if At(s, 0) == '+' {
      start := 1;
    } else if At(s, 0) == '-' {
      neg := true;
      start := 1;
    }
    var p: nat := start;
    if At(s, start) == '0' {
      if (At(s, start + 1) == 'x' || At(s, start + 1) == 'X') && f.radix == 16 {
        p := start + 2;
        if !DigitHere(s, p, 16) {
          return NaN;
        }
      }
    } else if !f.intOnly && InfinityHere(s, start) {
      return Double(neg, INFINITY, start + |WORD|);
    }
    r := ReadNumber(tmp0, s, p, start, neg, f);
  }

  /** The part of js_atod behind sign and prefix. */
  method ReadNumber(tmp0: Mpb, s: string, p0: nat, start: nat, neg: bool, f: Format) returns (r: Outcome)
    requires 2 <= f.radix <= 36 && tmp0.tab.Length >= Capacity.DBIGNUM_LEN_MAX && p0 <= |s|
    modifies tmp0, tmp0.tab
    ensures Returns(ParseDigits(s, p0, start, neg, f), f.radix, r)
  {
    hide Scan, ParseExponent, IsReading, AnyDigit, Read, Scale, Value;
    var p, sigPos, dotPos, pos, digitCount, extra := ReadSignificand(tmp0, s, p0, start, f);
    ghost var ds := Scan(s, p0, start, f, [], -1).ds;
    var e := ReadExponentPart(s, p, start, f);
    assert digitCount != 0 <==> AnyDigit(ds, 0, |ds|) by { SomeRead(tmp0, ds, f.radix, sigPos, digitCount, extra); }
    if e.NoDigits? {
      return NaN;
    }
    OverflowEnds(s, p, start, f);
    if digitCount != 0 && e.overflow {
      return Double(neg, if e.neg then 0 else INFINITY, e.end);
    }
    if e.end == start {
      return NaN;
    }
    var bits := 0;
    if digitCount != 0 {
      bits := ScaleNumber(tmp0, f.radix, sigPos, digitCount, DotOf(dotPos, pos), Scale(f.radix, e.bin, e.neg, e.expn),
                          ds, extra);
    } else {
      ZeroRead(ds, DotOf(dotPos, pos), f.radix, Scale(f.radix, e.bin, e.neg, e.expn));
    }
    r := Double(neg, bits, e.end);
  }

  lemma OverflowEnds(s: string, p: nat, start: nat, f: Format)
    ensures var e := ParseExponent(s, p, start, f); e.ExponentPart? && e.overflow ==> e.end > start
  {
  }

  lemma ZeroRead(ds: seq<nat>, dot: nat, radix: nat, x: int)
    requires 2 <= radix <= 36 && !AnyDigit(ds, 0, |ds|)
    ensures IsReading(ds, dot, radix, x, 0)
  {
  }

  /** The digits have been read: `extra` tells of digits that are not kept. */
  ghost predicate Read(a: Mpb, ds: seq<nat>, radix: nat, sigPos: nat, digitCount: nat, extra: bool)
    reads a, a.tab
  {
    && a.Valid() && 2 <= radix <= 36 && AreDigits(ds, radix) && sigPos == LeadingZeros(ds)
    && digitCount == |Significant(ds, radix)| && (extra <==> AnyDigit(ds, sigPos + MaxDigits(radix), |ds|))
    && a.Val() == WithSticky(Horner(Significant(ds, radix), radix), extra && IsPowerOfTwo(radix))
  }

  lemma SomeRead(a: Mpb, ds: seq<nat>, radix: nat, sigPos: nat, digitCount: nat, extra: bool)
    requires Read(a, ds, radix, sigPos, digitCount, extra)
    ensures digitCount != 0 <==> AnyDigit(ds, 0, |ds|)
    ensures digitCount != 0 ==> Taken(Horner(Significant(ds, radix), radix), ds, sigPos, radix, digitCount, extra)
  {
    hide Horner, MaxDigits, WithSticky, Value, IsPowerOfTwo, AnyDigit;
    LeadingZerosAre(ds, LeadingZeros(ds));
  }

  method ReadSignificand(tmp0: Mpb, s: string, p0: nat, start: nat, f: Format)
    returns (p: nat, sigPos: nat, dotPos: int, pos: nat, digitCount: nat, extra: bool)
    requires 2 <= f.radix <= 36 && tmp0.tab.Length >= Capacity.DBIGNUM_LEN_MAX && p0 <= |s|
    modifies tmp0, tmp0.tab
    ensures var r := Scan(s, p0, start, f, [], -1);
            && p == r.end <= |s| && dotPos == r.dot && pos == |r.ds|
            && Read(tmp0, r.ds, f.radix, sigPos, digitCount, extra)
  {
    hide Scan, Horner, Value, AnyDigit, IsPowerOfTwo, MaxDigits, DigitRoom;
    p, sigPos, dotPos := SkipZeros(s, p0, start, f);
    ghost var r := Scan(s, p, start, f, Zeros(sigPos), dotPos);
    assert r.ds[..sigPos] == Zeros(sigPos);
    forall i | 0 <= i < sigPos ensures r.ds[i] == 0 { assert r.ds[i] == r.ds[..sigPos][i]; }
    LeadingZerosAre(r.ds, sigPos);
    EnoughRoom(f.radix, tmp0.tab.Length);
    p, dotPos, pos, digitCount, extra := ReadDigits(tmp0, s, p, start, f, sigPos, dotPos, MaxDigits(f.radix));
    if IsPowerOfTwo(f.radix) && extra {
      SetLowBit(tmp0);
    }
  }

  lemma EnoughRoom(radix: nat, capacity: nat)
    requires 2 <= radix <= 36 && capacity >= Capacity.DBIGNUM_LEN_MAX
    ensures DigitRoom(radix, MaxDigits(radix), capacity)
  {
    DigitsKept(radix);
  }

  method ReadExponentPart(s: string, p0: nat, start: nat, f: Format) returns (e: ExponentPart)
    requires p0 <= |s|
    ensures e == ParseExponent(s, p0, start, f)
  {
    hide ScanExponent, ExponentHere;
    e := ExponentPart(false, false, 0, false, p0);
    if ExponentHere(s, p0, start, f) {
      var bin, p, neg := BinaryLetter(At(s, p0)), p0 + 1, false;
      if At(s, p) == '+' {
        p := p + 1;
      } else if At(s, p) == '-' {
        neg := true;
        p := p + 1;
      }
      var c := ToDigit(At(s, p));
      if c >= 10 {
        return NoDigits;
      }
      var expn, overflow, end := ReadExponent(s, p + 1, f.underscores, c);
      e := ExponentPart(bin, neg, expn, overflow, end);
    }
  }

  /** The two ways to scale. */
  method ScaleNumber(tmp0: Mpb, radix: nat, sigPos: nat, digitCount: nat, dot: nat, x: int, ghost ds: seq<nat>,
                     ghost extra: bool)
    returns (bits: nat)
    requires Read(tmp0, ds, radix, sigPos, digitCount, extra) && digitCount != 0
    requires tmp0.tab.Length >= Capacity.DBIGNUM_LEN_MAX
    modifies tmp0, tmp0.tab
    ensures IsReading(ds, dot, radix, x, bits)
  {
    hide Horner, Value, AnyDigit, MaxDigits, LeadingZeros, Significant, Taken, IsNearest, RadixBits, IsPowerOfTwo, Up,
         Down;
    ghost var v := Horner(Significant(ds, radix), radix);
    SomeRead(tmp0, ds, radix, sigPos, digitCount, extra);
    var expnOffset := sigPos + digitCount - dot;
    if IsPowerOfTwo(radix) {
      bits := ReadTwo(tmp0, radix, digitCount, extra, x, expnOffset, ds, v, dot);
    } else {
      RadixSplit(radix);
      bits := ReadOther(tmp0, radix, OddOf(radix), Ctz(radix), digitCount, x, expnOffset, ds, extra);
      assert x - expnOffset == x + dot - sigPos - digitCount;
    }
  }

  // ----- exponents that overflow --------------------------------------------------------------------

  const SHORT: nat := 100_000_000

  /** An exponent that js_atod does not read to its end is beyond all float64: with
      all of its digits the result would be the same, unless the text is longer than
      any that fits into memory. */
  lemma OverflowIsRight(ds: seq<nat>, dot: nat, radix: nat, bin: bool, expNeg: bool, expn: nat, overflow: bool,
                        all: nat, a: nat)
    requires 2 <= radix <= 36 && AreDigits(ds, radix) && |ds| <= SHORT && dot <= SHORT
    requires if overflow then all > 9 * EXPN_LIMIT else all == expn
    requires if overflow && AnyDigit(ds, 0, |ds|) then a == if expNeg then 0 else INFINITY
             else IsReading(ds, dot, radix, Scale(radix, bin, expNeg, expn), a)
    ensures IsReading(ds, dot, radix, Scale(radix, bin, expNeg, all), a)
  {
    hide IsReading, AnyDigit;
    if overflow {
      if AnyDigit(ds, 0, |ds|) {
        FarExponent(radix, bin, expNeg, all);
        LeadingZerosAre(ds, LeadingZeros(ds));
        if IsPowerOfTwo(radix) {
          FarTwo(ds, dot, radix, Scale(radix, bin, expNeg, all));
        } else {
          FarOther(ds, dot, radix, Scale(radix, bin, expNeg, all));
        }
      } else {
        ZeroRead(ds, dot, radix, Scale(radix, bin, expNeg, all));
        NothingRead(ds, dot, radix, Scale(radix, bin, expNeg, expn), a);
      }
    }
  }

  lemma NothingRead(ds: seq<nat>, dot: nat, radix: nat, x: int, a: nat)
    requires 2 <= radix <= 36 && !AnyDigit(ds, 0, |ds|) && IsReading(ds, dot, radix, x, a)
    ensures a == 0
  {
  }

  lemma FarExponent(radix: nat, bin: bool, expNeg: bool, all: nat)
    requires all > 9 * EXPN_LIMIT
    ensures if expNeg then Scale(radix, bin, expNeg, all) < -19 * SHORT else Scale(radix, bin, expNeg, all) > 19 * SHORT
  {
    Times(all, all, 1, RadixBits(radix));
  }

  lemma FarTwo(ds: seq<nat>, dot: nat, radix: nat, x: int)
    requires 2 <= radix <= 36 && IsPowerOfTwo(radix) && AreDigits(ds, radix) && LeadingZeros(ds) < |ds| <= SHORT
    requires dot <= SHORT && AnyDigit(ds, 0, |ds|) && (x > 19 * SHORT || x < -19 * SHORT)
    ensures IsReading(ds, dot, radix, x, if x < 0 then 0 else INFINITY)
  {
    hide Pow, Horner, IsNearest, IsPowerOfTwo, AnyDigit, RadixBits, LeadingZeros, MaxDigits, Significant, Up, Down, Mul;
    var z, bits := LeadingZeros(ds), RadixBits(radix);
    AfterZeros(ds, z, radix);
    FewBits5(radix);
    FarSum(bits, dot, |ds|, z, x);
    var y := x + bits * (dot - |ds|);
    var t: nat := |ds| - z;
    TwoLimits(Horner(ds, radix), t, radix, y, y + t * bits);
  }

  lemma FewBits5(radix: nat)
    ensures RadixBits(radix) <= 5
  {
  }

  lemma FarSum(bits: nat, dot: nat, n: nat, z: nat, x: int)
    requires bits <= 5 && dot <= SHORT && z <= n <= SHORT
    ensures var expn1 := x + bits * (dot - n) + (n - z) * bits;
            (x > 19 * SHORT ==> expn1 >= 1024 + bits) && (x < -19 * SHORT ==> expn1 <= -1075)
  {
    Times(dot, SHORT, bits, 5);
    Times(z, SHORT, bits, 5);
    assert bits * (dot - n) + (n - z) * bits == dot * bits - z * bits;
  }

  lemma FarOther(ds: seq<nat>, dot: nat, radix: nat, x: int)
    requires 2 <= radix <= 36 && !IsPowerOfTwo(radix) && AreDigits(ds, radix) && LeadingZeros(ds) < |ds| <= SHORT
    requires dot <= SHORT && AnyDigit(ds, 0, |ds|) && (x > 19 * SHORT || x < -19 * SHORT)
    ensures IsReading(ds, dot, radix, x, if x < 0 then 0 else INFINITY)
  {
    hide Pow, Horner, IsNearest, IsPowerOfTwo, AnyDigit, Significant, MaxExponent, MinExponent, Up, Down, Sticky,
         LeadingZeros, MaxDigits;
    var z, v, k := LeadingZeros(ds), Horner(Significant(ds, radix), radix), |Significant(ds, radix)|;
    var extra := AnyDigit(ds, z + MaxDigits(radix), |ds|);
    StickyTaken(v, ds, z, radix, k, extra);
    TakenPositive(v, ds, z, radix, k, extra);
    SmallLimits(radix);
    KeptFew(ds, radix);
    OtherLimits(v, radix, x + dot - z - k, k);
  }

  lemma KeptFew(ds: seq<nat>, radix: nat)
    requires 2 <= radix <= 36
    ensures |Significant(ds, radix)| <= |ds|
  {
  }

  lemma SmallLimits(radix: nat)
    requires 2 <= radix <= 36
    ensures -2000 <= MinExponent(radix) && MaxExponent(radix) <= 2000
  {
  }
}
