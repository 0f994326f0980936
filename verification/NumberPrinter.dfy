/** js_dtoa in its free format: whole numbers, the dot and the exponent. */
module NumberPrinter {
  import opened Arithmetic
  import opened Power
  import opened Rounding
  import opened Bignum
  import opened DigitCounts
  import opened FreeFormat
  import opened RadixDigits
  import opened RoundToDouble
  import opened DoubleBits
  import opened NumberReader
  import opened RadixLogarithm
  import Capacity

  // ----- whole numbers --------------------------------------------------------------------

  function DigitCount(n: nat, radix: nat): (k: nat)
    requires radix >= 2
    ensures k >= 1
  {
    if n < radix then 1 else
      QuotientSmall(n, radix);
      Smaller10(n, radix);
      1 + DigitCount(n / radix, radix)
  }

  lemma Smaller10(n: nat, radix: nat)
    requires radix >= 2 && n > 0
    ensures n / radix < n
  {
    QuotientCheck(n, radix, n);
    Times(n, n, 2, radix);
  }

  /** A number without leading zeros. */
  function Shortest(n: nat, radix: nat): string
    requires 2 <= radix <= 36
  {
    Chars(DigitsOf(n, radix, DigitCount(n, radix)))
  }

  lemma {:induction false} DigitCountIs(n: nat, radix: nat)
    requires radix >= 2
    ensures n < Pow(radix, DigitCount(n, radix))
    ensures DigitCount(n, radix) > 1 ==> n >= Pow(radix, DigitCount(n, radix) - 1)
    decreases n
  {
    PowOne(radix);
    if n >= radix {
      QuotientSmall(n, radix);
      Smaller10(n, radix);
      var k := DigitCount(n / radix, radix);
      DigitCountIs(n / radix, radix);
      PowNext(radix, k);
      PowNext(radix, k - 1);
      hide Pow;
      QuotientRange(n, radix, if k > 1 then Pow(radix, k - 1) else 1, Pow(radix, k));
    }
  }

  lemma PowNext(radix: nat, k: nat)
    ensures Pow(radix, k + 1) == radix * Pow(radix, k)
  {
  }

  lemma QuotientRange(n: nat, radix: nat, lo: nat, hi: nat)
    requires radix > 0 && n >= radix && 0 <= n / radix < hi && (lo <= n / radix || lo == 1)
    ensures radix * lo <= n < radix * hi
  {
    QuotientCheck(n, radix, hi);
    QuotientCheck(n, radix, lo);
  }

  /** The last k digits follow the digits of the quotient. */
  lemma {:induction false} CountQuotient(n: nat, radix: nat, k: nat)
    requires radix >= 2
    ensures n / Pow(radix, k) >= 0
    ensures n / Pow(radix, k) > 0 ==> DigitCount(n, radix) == DigitCount(n / Pow(radix, k), radix) + k
    decreases k
  {
    QuotientSmall(n, Pow(radix, k));
    if k == 0 {
      DivideBack(n, 1, 0, n);
    } else {
      QuotientSmall(n, radix);
      CountQuotient(n / radix, radix, k - 1);
      Nested(n, radix, Pow(radix, k - 1));
      assert Pow(radix, k) == radix * Pow(radix, k - 1);
      if n < radix {
        NoQuotient(n, radix);
        NoQuotient(0, Pow(radix, k - 1));
      }
    }
  }

  lemma ShortestSplit(n: nat, radix: nat, k: nat)
    requires 2 <= radix <= 36 && n / Pow(radix, k) > 0
    ensures Shortest(n, radix) == Shortest(n / Pow(radix, k), radix) + Chars(DigitsOf(n, radix, k))
  {
    CountQuotient(n, radix, k);
    hide DigitsOf, DigitCount, Pow, Chars;
    var q := n / Pow(radix, k);
    TwoRounds(n, radix, k, DigitCount(q, radix));
    CharsAppend(DigitsOf(q, radix, DigitCount(q, radix)), DigitsOf(n, radix, k));
  }

  /** u32toa, and the last branch of u64toa_radix: digits from the last one on. */
  method DigitsBackward(n0: nat, radix: nat) returns (s: string)
    requires 2 <= radix <= 36
    ensures s == Shortest(n0, radix)
  {
    hide DigitsOf, DigitCount, Chars, DigitChar, Shortest;
    var n: nat, more := n0, n0 >= radix;
    s := [DigitChar(n % radix)];
    LastDigit(n, radix);
    while more
      invariant more ==> n >= radix && Shortest(n0, radix) == Shortest(n / radix, radix) + s
      invariant !more ==> Shortest(n0, radix) == s
      decreases n, more
    {
      QuotientSmall(n, radix);
      Smaller10(n, radix);
      n := n / radix;
      more := n >= radix;
      LastDigit(n, radix);
      s := [DigitChar(n % radix)] + s;
    }
  }

  lemma LastDigit(n: nat, radix: nat)
    requires 2 <= radix <= 36
    ensures n % radix < 36
    ensures if n >= radix then
              n / radix >= 0 && Shortest(n, radix) == Shortest(n / radix, radix) + [DigitChar(n % radix)]
            else Shortest(n, radix) == [DigitChar(n % radix)]
  {
    QuotientSmall(n, radix);
    QuotientParts(n, radix);
    assert DigitsOf(n, radix, 1) == [n % radix];
    if n >= radix {
      PowOne(radix);
      QuotientCheck(n, radix, 1);
      ShortestSplit(n, radix, 1);
    }
    assert Chars([n % radix]) == [DigitChar(n % radix)];
  }

  /** u32toa_len, limb_to_a and u64toa_bin_len: a given number of digits. */
  method FixedDigits(n: nat, radix: nat, len: nat) returns (s: string)
    requires 2 <= radix <= 36
    ensures s == Chars(DigitsOf(n, radix, len))
  {
    var buf := new char[len];
    LimbToA(buf, 0, n, radix, len);
    s := buf[..];
    assert buf[0..len] == buf[..];
  }

  const GIGA: nat := 1_000_000_000

  lemma GigaIs()
    ensures Pow(10, 9) == GIGA
  {
  }

  /** u64toa: nine digits at a time. */
  method Decimal(n0: nat) returns (s: string)
    requires n0 < 0x1_0000_0000_0000_0000
    ensures s == Shortest(n0, 10)
  {
    GigaIs();
    hide DigitsOf, DigitCount, Chars, DigitChar, Shortest, Pow;
    if n0 < 0x1_0000_0000 {
      s := DigitsBackward(n0, 10);
      return;
    }
    var n1, n := n0 / GIGA, n0 % GIGA;
    ShortestSplit(n0, 10, 9);
    SameLast(n0);
    if n1 >= 0x1_0000_0000 {
      var n2 := n1 / GIGA;
      ShortestSplit(n1, 10, 9);
      SameLast(n1);
      AtMostTwo(n2);
      s := [];
      if n2 >= 10 {
        s := s + [DigitChar(n2 / 10)];
        n2 := n2 % 10;
      }
      s := s + [DigitChar(n2)];
      var middle := FixedDigits(n1 % GIGA, 10, 9);
      s := s + middle;
    } else {
      s := DigitsBackward(n1, 10);
    }
    var last := FixedDigits(n, 10, 9);
    s := s + last;
  }

  lemma SameLast(n: nat)
    ensures DigitsOf(n % GIGA, 10, 9) == DigitsOf(n, 10, 9)
  {
    GigaIs();
    hide Pow, DigitsOf;
    SameDigits(n % GIGA, n, 10, 9);
  }

  lemma AtMostTwo(n: nat)
    requires n < 100
    ensures if n >= 10 then Shortest(n, 10) == [DigitChar(n / 10), DigitChar(n % 10)]
            else Shortest(n, 10) == [DigitChar(n)]
  {
    LastDigit(n, 10);
    if n >= 10 {
      LastDigit(n / 10, 10);
    }
  }

  /** The number of digits in a radix 2^bits. */
  lemma {:induction false} BinaryCount(n: nat, bits: nat)
    requires n > 0 && bits > 0
    ensures Pow(2, bits) >= 2 && DigitCount(n, Pow(2, bits)) == (Log2(n) + bits) / bits
    decreases n
  {
    PowMonotone(2, 1, bits);
    PowOne(2);
    var radix, l := Pow(2, bits), Log2(n);
    Log2Is(n);
    hide Pow, Log2;
    if n < radix {
      if l >= bits { PowMonotone(2, bits, l); }
      DivideBack(1, bits, l, l + bits);
    } else {
      if l < bits { PowMonotone(2, l + 1, bits); }
      QuotientSmall(n, radix);
      Smaller10(n, radix);
      QuotientCheck(n, radix, 1);
      BinaryCount(n / radix, bits);
      LogQuotient(n, bits, l);
      OneMoreDigit(l, bits);
    }
  }

  lemma LogQuotient(n: nat, bits: nat, l: nat)
    requires Pow(2, l) <= n < Pow(2, l + 1) && bits <= l
    ensures n / Pow(2, bits) > 0 && Log2(n / Pow(2, bits)) == l - bits
  {
    PowAdd(2, l - bits, bits);
    PowAdd(2, l + 1 - bits, bits);
    hide Pow, Log2;
    var p := Pow(2, bits);
    Above(n, p, Pow(2, l - bits));
    QuotientCheck(n, p, Pow(2, l + 1 - bits));
    Log2Unique(n / p, l - bits);
  }

  lemma OneMoreDigit(l: nat, bits: nat)
    requires 0 < bits <= l
    ensures (l + bits) / bits == 1 + (l - bits + bits) / bits
  {
    QuotientParts(l, bits);
    DivideBack(l / bits + 1, bits, l % bits, l + bits);
  }

  /** u64toa_radix */
  method WholeNumber(n: nat, radix: nat) returns (s: string)
    requires n < 0x1_0000_0000_0000_0000 && 2 <= radix <= 36
    ensures s == Shortest(n, radix)
  {
    hide DigitsOf, DigitCount, Chars, Log2;
    if radix == 10 {
      s := Decimal(n);
    } else if IsPowerOfTwo(radix) {
      BitsFit(radix);
      var bits := RadixBits(radix);
      var len := 1;
      if n > 0 {
        BinaryCount(n, bits);
        QuotientSmall(Log2(n) + bits, bits);
        len := (Log2(n) + 1 + bits - 1) / bits;
      } else {
        LastDigit(0, radix);
      }
      s := FixedDigits(n, radix, len);
      assert n == 0 ==> DigitCount(n, radix) == 1 by { OneDigit(radix); }
    } else {
      s := DigitsBackward(n, radix);
    }
  }

  lemma OneDigit(radix: nat)
    requires radix >= 2
    ensures DigitCount(0, radix) == 1
  {
  }

  // ----- dot and exponent -----------------------------------------------------------------------

  datatype ExponentMode = Auto | Always | Never

  predicate ExponentForm(e1: int, radix: nat, mode: ExponentMode)
    requires 2 <= radix <= 36
  {
    mode.Always? || (mode.Auto? && (e1 <= -6 || e1 > DTOA_MAX_DIGITS[radix - 2] + 4))
  }

  function ExponentLetter(radix: nat): char {
    if radix == 10 then 'e' else if IsPowerOfTwo(radix) && RadixBits(radix) <= 4 then 'p' else '@'
  }

  /** What is written of it: with one digit before the dot, and in bits after `p`. */
  function WrittenExponent(e1: int, radix: nat): int {
    if ExponentLetter(radix) == 'p' then (e1 - 1) * RadixBits(radix) else e1 - 1
  }

  function ExponentText(e1: int, radix: nat): string {
    var e := WrittenExponent(e1, radix);
    [ExponentLetter(radix)] + if e < 0 then "-" + Shortest(-e, 10) else "+" + Shortest(e, 10)
  }

  function Repeated(c: char, n: nat): (s: string)
    ensures |s| == n && forall i :: 0 <= i < n ==> s[i] == c
  {
    seq(n, i => c)
  }

  /** The digits 0.ds * radix^e1 with a dot, zeros or an exponent. */
  function Layout(ds: string, e1: int, radix: nat, mode: ExponentMode): string
    requires ds != [] && 2 <= radix <= 36
  {
    if ExponentForm(e1, radix, mode) then WithDot(ds, 1) + ExponentText(e1, radix)
    else if e1 <= 0 then "0." + Repeated('0', -e1) + ds
    else WithDot(ds, Smaller(|ds|, e1)) + Repeated('0', if e1 > |ds| then e1 - |ds| else 0)
  }

  /** In decimal and without a forced exponent this is Number::toString (section
      6.1.6.1.20 of ECMA-262) for the digits ds of 0.ds * 10^n. */
  lemma NumberToString(ds: string, n: int)
    requires ds != []
    ensures var k := |ds|;
            var exponent := "e" + (if n - 1 < 0 then "-" + Shortest(1 - n, 10) else "+" + Shortest(n - 1, 10));
            Layout(ds, n, 10, Auto)
            == if k <= n <= 21 then ds + Repeated('0', n - k)
               else if 0 < n <= 21 then ds[..n] + "." + ds[n..]
               else if -6 < n <= 0 then "0." + Repeated('0', -n) + ds
               else if k == 1 then ds + exponent
               else ds[..1] + "." + ds[1..] + exponent
  {
    hide Shortest;
    assert DTOA_MAX_DIGITS[8] == 17;
  }

  method ZeroText(n: int) returns (s: string)
    ensures s == Repeated('0', if n > 0 then n else 0)
  {
    s := [];
    var i := 0;
    while i < n
      invariant 0 <= i && (i <= n || n < 0) && s == Repeated('0', i)
      invariant n < 0 ==> i == 0
    {
      s := s + ['0'];
      i := i + 1;
    }
  }

  /** output_digits into a text of its own. */
  method DigitText(tmp1: Mpb, radix: nat, p: nat, dotPos: nat) returns (s: string)
    requires 2 <= radix <= 36 && tmp1.Valid() && dotPos <= p
    modifies tmp1, tmp1.tab
    ensures s == WithDot(Chars(DigitsOf(old(tmp1.Val()), radix, p)), dotPos)
  {
    var buf := new char[p + 1];
    var len := OutputDigits(buf, tmp1, radix, p, dotPos);
    s := buf[..len];
  }

  /** The output part of js_dtoa. */
  method Output(tmp1: Mpb, p: nat, e1: int, radix: nat, mode: ExponentMode) returns (s: string)
    requires 2 <= radix <= 36 && tmp1.Valid() && p >= 1
    modifies tmp1, tmp1.tab
    ensures s == Layout(Chars(DigitsOf(old(tmp1.Val()), radix, p)), e1, radix, mode)
  {
    hide DigitsOf, Chars, WithDot, DTOA_MAX_DIGITS, Shortest;
    ghost var ds := Chars(DigitsOf(tmp1.Val(), radix, p));
    if ExponentForm(e1, radix, mode) {
      s := DigitText(tmp1, radix, p, 1);
      var e := e1 - 1;
      if ExponentLetter(radix) == 'p' {
        e := e * RadixBits(radix);
      }
      var sign := if e < 0 then "-" else "+";
      var digits := DigitsBackward(if e < 0 then -e else e, 10);
      s := s + ([ExponentLetter(radix)] + (sign + digits));
    } else if e1 <= 0 {
      s := DigitText(tmp1, radix, p, p);
      var zeros := ZeroText(-e1);
      WithoutDot(ds);
      s := "0." + zeros + s;
    } else {
      s := DigitText(tmp1, radix, p, Smaller(p, e1));
      var zeros := ZeroText(e1 - p);
      s := s + zeros;
    }
  }

  // ----- js_dtoa ----------------------------------------------------------------------------------

  /** A whole number below 2^53. */
  predicate IsWhole(m: nat, e: int) {
    1 <= e <= 53 && m % Pow(2, 53 - e) == 0
  }

  /** The text of a float64 in the free format; `a` is its bits without the sign. */
  ghost predicate Prints(neg: bool, a: nat, radix: nat, mode: ExponentMode, minusZero: bool, s: string)
    requires 2 <= radix <= 36
  {
    var sign := if neg then "-" else "";
    if a == INFINITY then s == sign + WORD
    else if a > INFINITY then s == "NaN"
    else if a == 0 then s == (if neg && minusZero then "-" else "") + Layout("0", 1, radix, mode)
    else PrintsNumber(Mantissa(a), Exponent(a), sign, radix, mode, s)
  }

  ghost predicate PrintsNumber(m: nat, e: int, sign: string, radix: nat, mode: ExponentMode, s: string)
    requires 2 <= radix <= 36
  {
    if IsWhole(m, e) && !mode.Always? then s == sign + Shortest(m / Pow(2, 53 - e), radix)
    else PrintsDigits(m, e, 1 + MulLog2Radix(e - 1, radix), sign, radix, mode, s)
  }

  /** The digits of the search for the shortest text, laid out. */
  ghost predicate PrintsDigits(m: nat, e: int, e0: int, sign: string, radix: nat, mode: ExponentMode, s: string)
    requires 2 <= radix <= 36
  {
    exists mant, e1, p :: Digits(m, e, radix, e0, mant, e1, p) && p >= 1
                          && s == sign + Layout(Chars(DigitsOf(mant, radix, p)), e1, radix, mode)
  }

  /** js_dtoa with JS_DTOA_FORMAT_FREE */
  method JsDtoa(tmp1: Mpb, neg: bool, a: nat, radix: nat, mode: ExponentMode, minusZero: bool) returns (s: string)
    requires 2 <= radix <= 36 && tmp1.tab.Length >= Capacity.DBIGNUM_LEN_MAX
    modifies tmp1, tmp1.tab
    ensures Prints(neg, a, radix, mode, minusZero, s)
  {
    hide PrintsNumber, Layout, Mantissa, Exponent;
    var sign := if neg then "-" else "";
    if a == INFINITY {
      return sign + WORD;
    }
    if a > INFINITY {
      return "NaN";
    }
    if a == 0 {
      tmp1.SetU64(0);
      ZeroDigits(radix);
      s := Output(tmp1, 1, 1, radix, mode);
      s := (if neg && minusZero then "-" else "") + s;
      return;
    }
    var m, e := Mantissa(a), Exponent(a);
    PackUnpack(a);
    s := NumberText(tmp1, m, e, sign, radix, mode);
  }

  lemma ZeroDigits(radix: nat)
    requires 2 <= radix <= 36
    ensures Chars(DigitsOf(0, radix, 1)) == "0"
  {
    assert DigitsOf(0, radix, 1) == [0];
  }

  /** The text of a float64 that is not zero. */
  method NumberText(tmp1: Mpb, m: nat, e: int, sign: string, radix: nat, mode: ExponentMode) returns (s: string)
    requires 2 <= radix <= 36 && tmp1.tab.Length >= Capacity.DBIGNUM_LEN_MAX && IsDouble(m, e)
    modifies tmp1, tmp1.tab
    ensures PrintsNumber(m, e, sign, radix, mode, s)
  {
    hide Layout, IsDouble, Pow, Shortest, Digits, Arguments, IsLog, MulLog2Radix, Chars, DigitsOf;
    if 1 <= e <= 53 && m % Pow(2, 53 - e) == 0 && !mode.Always? {
      WholeFits(m, e);
      s := WholeNumber(m / Pow(2, 53 - e), radix);
      s := sign + s;
      return;
    }
    var e0 := 1 + MulLog2Radix(e - 1, radix);
    DoubleRange(m, e);
    LogarithmExact(e - 1, radix);
    assert e - 1 + 1 == e;
    RadixSplit(radix);
    Capacity.BufferSuffices(tmp1.tab.Length, m, e, radix, OddOf(radix), Ctz(radix), e0);
    var mant, e1, p := FreeFormatDigits(tmp1, m, e, radix, OddOf(radix), Ctz(radix), e0);
    DigitFacts(m, e, radix, e0, mant, e1, p);
    tmp1.SetU64(mant);
    s := Output(tmp1, p, e1, radix, mode);
    s := sign + s;
  }

  lemma DoubleRange(m: nat, e: int)
    requires IsDouble(m, e)
    ensures m > 0 && -1073 <= e <= 1024
  {
    hide Pow;
  }

  lemma WholeFits(m: nat, e: int)
    requires IsDouble(m, e) && 1 <= e <= 53
    ensures 0 <= m / Pow(2, 53 - e) < 0x1_0000_0000_0000_0000
  {
    Pow53();
    hide Pow;
    QuotientSmall(m, Pow(2, 53 - e));
  }

  lemma DigitFacts(m: nat, e: int, radix: nat, e0: int, mant: nat, e1: int, p: nat)
    requires 2 <= radix <= 36 && Digits(m, e, radix, e0, mant, e1, p)
    ensures mant < 0x1_0000_0000_0000_0000 && p >= 1
  {
    SmallMantissa(radix, p, mant);
  }
}
