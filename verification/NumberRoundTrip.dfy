/** A float64 printed by js_dtoa and read by js_atod is the same float64: for all
    float64, radices and ways to write the exponent. */
module NumberRoundTrip {
  import opened Arithmetic
  import opened Power
  import opened PowerScaling
  import opened ScaleAndRound
  import opened RoundToDouble
  import opened DigitCounts
  import opened FreeFormat
  import opened RadixDigits
  import opened DoubleBits
  import opened RadixLogarithm
  import opened NumberScan
  import opened NumberValue
  import opened NumberReader
  import opened NumberPrinter

  // ----- what is read exactly ---------------------------------------------------------------

  lemma BinaryForm(v: nat, radix: nat, f: int, a: nat)
    requires 2 <= radix <= 36 && IsPowerOfTwo(radix) && IsNearest(v, 1, RadixBits(radix) * f, a)
    ensures IsNearest(Mul(v, Up(radix, f)), Down(radix, f), 0, a)
  {
    BitsFit(radix);
    var bits := RadixBits(radix);
    hide RadixBits, IsPowerOfTwo, IsNearest, SameNumber;
    FormOfRadix(1, bits, f);
    ExactForm(v, 1, radix, f, f * bits);
    UpOfOne(v, f);
    assert bits * f == f * bits;
    hide Up, Down;
    NearestForm(v, 1, f * bits, Mul(v, Up(radix, f)), Down(radix, f), 0, a);
  }

  lemma UpOfOne(v: nat, f: int)
    ensures Mul(v, Up(1, f)) == v
  {
    PowOfOne(Max(f, 0));
    MulLaws(v, 1, 1);
  }

  /** Digits beyond the kept ones that are all zero change nothing: the number is
      read exactly. `x` counts digits. */
  lemma ExactReading(ds: seq<nat>, dot: nat, radix: nat, x: int, a: nat)
    requires 2 <= radix <= 36 && AreDigits(ds, radix) && AnyDigit(ds, 0, |ds|)
    requires !AnyDigit(ds, LeadingZeros(ds) + MaxDigits(radix), |ds|)
    requires IsReading(ds, dot, radix, if IsPowerOfTwo(radix) then x * RadixBits(radix) else x, a)
    ensures var g := x + dot - |ds|; IsNearest(Mul(Horner(ds, radix), Up(radix, g)), Down(radix, g), 0, a)
  {
    hide Horner, AnyDigit, MaxDigits, Significant, IsNearest, Up, Down, IsPowerOfTwo, RadixBits;
    var g, z := x + dot - |ds|, LeadingZeros(ds);
    if IsPowerOfTwo(radix) {
      assert x * RadixBits(radix) + RadixBits(radix) * (dot - |ds|) == RadixBits(radix) * g;
      BinaryForm(Horner(ds, radix), radix, g, a);
    } else {
      var v, k := Horner(Significant(ds, radix), radix), |Significant(ds, radix)|;
      LeadingZerosAre(ds, z);
      assert Taken(v, ds, z, radix, k, false);
      StickyTaken(v, ds, z, radix, k, false);
      TakenIs(v, ds, z, radix, k, false);
      hide Taken, LeadingZeros;
      var rest: nat := |ds| - z - k;
      assert x + dot - z - k == g + rest;
      ZerosBack(v, radix, rest, g);
      NearestForm(Mul(v, Up(radix, g + rest)), Down(radix, g + rest), 0, Mul(Horner(ds, radix), Up(radix, g)),
                  Down(radix, g), 0, a);
    }
  }

  lemma ZerosBack(v: nat, radix: nat, rest: nat, g: int)
    requires radix > 0
    ensures Down(radix, g) > 0
    ensures v * Pow(radix, rest) >= 0
    ensures SameNumber(Mul(v, Up(radix, g + rest)), Down(radix, g + rest), 0,
                       Mul(v * Pow(radix, rest), Up(radix, g)), Down(radix, g), 0)
  {
    Positive(v, Pow(radix, rest));
    ZerosRemoved(v * Pow(radix, rest), v, rest, radix, g);
  }

  // ----- how a printed text is taken apart ------------------------------------------------------

  /** Digits as js_dtoa writes them. */
  predicate IsDigits(t: string, radix: nat) {
    forall i :: 0 <= i < |t| ==> ToDigit(t[i]) < radix && ('0' <= t[i] <= '9' || 'a' <= t[i] <= 'z')
  }

  lemma CharsAreDigits(ds: seq<nat>, radix: nat)
    requires radix <= 36 && forall i :: 0 <= i < |ds| ==> ds[i] < radix
    ensures IsDigits(Chars(ds), radix) && Values(Chars(ds)) == ds
  {
  }

  lemma {:induction false} ScanRun(s: string, p: nat, start: nat, f: Format, ds: seq<nat>, dot: int, t: string)
    requires f.radix <= 36 && p + |t| <= |s| && s[p..p + |t|] == t && IsDigits(t, f.radix)
    ensures Scan(s, p, start, f, ds, dot) == Scan(s, p + |t|, start, f, ds + Values(t), dot)
    decreases |t|
  {
    hide Scan, ToDigit;
    if t == [] {
      assert ds + Values(t) == ds;
    } else {
      assert s[p] == t[0];
      ScanDigit(s, p, start, f, ds, dot);
      assert s[p + 1..p + |t|] == t[1..];
      ScanRun(s, p + 1, start, f, ds + [ToDigit(t[0])], dot, t[1..]);
      assert ds + [ToDigit(t[0])] + Values(t[1..]) == ds + Values(t);
    }
  }

  /** Whole digits, perhaps a dot and more digits, and an exponent or nothing. */
  function Assembled(a: string, b: string, tail: string): string {
    a + (if b == [] then [] else "." + b) + tail
  }

  /** What ends the digits. */
  predicate Ends(s: string, p: nat, radix: nat) {
    ToDigit(At(s, p)) >= radix && At(s, p) != '.' && At(s, p) != '_'
  }

  lemma ScanEnds(s: string, p: nat, start: nat, f: Format, ds: seq<nat>, dot: int)
    requires f.radix <= 36 && Ends(s, p, f.radix)
    ensures Scan(s, p, start, f, ds, dot) == Significand(ds, dot, p)
  {
    ScanEnd(s, p, start, f, ds, dot);
  }

  lemma DotSeen(s: string, p: nat, start: nat, f: Format)
    requires start < p < |s| && s[p] == '.' && !f.intOnly
    ensures DotHere(s, p, start, f)
  {
  }

  lemma ScanAssembled(s: string, start: nat, f: Format, a: string, b: string, tail: string)
    requires f.radix <= 36 && !f.intOnly && a != [] && IsDigits(a, f.radix) && IsDigits(b, f.radix)
    requires start <= |s| && s[start..] == Assembled(a, b, tail) && Ends(s, |s| - |tail|, f.radix)
    ensures Scan(s, start, start, f, [], -1)
         == Significand(Values(a) + Values(b), if b == [] then -1 else |a|, |s| - |tail|)
  {
    hide Scan, ToDigit, IsDigits, Values, Ends, DotHere;
    var p := start + |a|;
    assert s[start..p] == s[start..][..|a|] == a;
    ScanRun(s, start, start, f, [], -1, a);
    assert [] + Values(a) == Values(a);
    if b == [] {
      assert Values(a) + Values(b) == Values(a);
      ScanEnds(s, p, start, f, Values(a), -1);
    } else {
      assert s[p] == s[start..][|a|] == '.';
      DotSeen(s, p, start, f);
      ScanDot(s, p, start, f, Values(a));
      var q := p + 1 + |b|;
      assert s[p + 1..q] == s[start..][|a| + 1..|a| + 1 + |b|] == b;
      ScanRun(s, p + 1, start, f, Values(a), |a|, b);
      ScanEnds(s, q, start, f, Values(a) + Values(b), |a|);
    }
  }

  lemma FirstOf(s: string, p: nat, radix: nat)
    requires p < |s| && IsDigits(s[p..], radix)
    ensures DigitHere(s, p, radix) && s[p] != '_' && IsDigits(s[p + 1..], radix)
    ensures Values(s[p..]) == [ToDigit(s[p])] + Values(s[p + 1..])
  {
    hide ToDigit;
    var t, u := s[p..], s[p + 1..];
    assert t[0] == s[p] && t[1..] == u;
    assert forall i {:trigger u[i]} :: 0 <= i < |u| ==> u[i] == t[i + 1];
  }

  lemma {:induction false} ExponentRun(s: string, p: nat, underscores: bool, value: nat, overflow: bool)
    requires p <= |s| && IsDigits(s[p..], 10)
    ensures ExponentDigits(s, p, underscores) == Values(s[p..])
    ensures ScanExponent(s, p, underscores, value, overflow).end == |s|
    decreases |s| - p
  {
    hide ScanExponent, ExponentDigits, ToDigit, IsDigits, Values, DigitHere;
    ExponentStep(s, p, underscores, value, overflow);
    if p < |s| {
      FirstOf(s, p, 10);
      var over := overflow || value > EXPN_LIMIT;
      ExponentRun(s, p + 1, underscores, if over then value else value * 10 + ToDigit(s[p]), over);
    } else {
      assert s[p..] == [];
      NoDigitAtEnd(s, p);
    }
  }

  lemma NoDigitAtEnd(s: string, p: nat)
    requires p >= |s|
    ensures !DigitHere(s, p, 10) && Values([]) == []
  {
  }

  lemma EndIsNoDigit()
    ensures ToDigit('\0') == 36 && ToDigit('_') == 36 && ToDigit('.') == 36 && ToDigit('@') == 36
  {
  }

  /** The digits of the exponent behind its sign. */
  lemma ExponentValue(s: string, p: nat, underscores: bool, n: nat)
    requires p < |s| && s[p..] == Shortest(n, 10) && n <= 9 * EXPN_LIMIT
    ensures DigitHere(s, p, 10)
    ensures ScanExponent(s, p + 1, underscores, ToDigit(At(s, p)), false) == Scanned(n, false, |s|)
  {
    DigitCountIs(n, 10);
    PrintAndRead(n, 10, DigitCount(n, 10));
    CharsAreDigits(DigitsOf(n, 10, DigitCount(n, 10)), 10);
    hide ScanExponent, ExponentDigits, ToDigit, Horner, Chars, DigitsOf, Pow, DigitCount, IsDigits, Values, DigitHere;
    FirstOf(s, p, 10);
    var d := ToDigit(s[p]);
    ExponentRun(s, p + 1, underscores, d, false);
    HornerSnoc([], d, 10);
    HornerEmpty();
    assert [] + [d] == [d];
    ExponentIs(s, p + 1, underscores, d, false, [d]);
  }

  lemma HornerEmpty()
    ensures Horner([], 10) == 0
  {
  }

  function Size(e: int): nat {
    if e < 0 then -e else e
  }

  lemma LetterFacts(radix: nat)
    requires 2 <= radix <= 36
    ensures var c := ExponentLetter(radix);
            && ToDigit(c) >= radix && c != '.' && c != '_' && c != 'x' && c != 'X'
            && (c == 'p' <==> BinaryLetter(c))
            && ((radix == 10 && (c == 'e' || c == 'E'))
                || (radix != 10 && (c == '@' || (1 <= Bits(radix) <= 4 && BinaryLetter(c)))))
  {
  }

  lemma ParseTail(s: string, p: nat, start: nat, f: Format, e1: int)
    requires 2 <= f.radix <= 36 && !f.intOnly && start < p <= |s| && s[p..] == ExponentText(e1, f.radix)
    requires Size(WrittenExponent(e1, f.radix)) <= 9 * EXPN_LIMIT
    ensures Ends(s, p, f.radix)
    ensures ParseExponent(s, p, start, f)
            == ExponentPart(ExponentLetter(f.radix) == 'p', WrittenExponent(e1, f.radix) < 0,
                                                          Size(WrittenExponent(e1, f.radix)), false, |s|)
  {
    hide ExponentText, Shortest, ScanExponent, ToDigit, WrittenExponent, ExponentLetter, Bits, DigitHere;
    LetterFacts(f.radix);
    TailChars(s, p, e1, f.radix);
    ExponentValue(s, p + 2, f.underscores, Size(WrittenExponent(e1, f.radix)));
  }

  lemma TailChars(s: string, p: nat, e1: int, radix: nat)
    requires p <= |s| && s[p..] == ExponentText(e1, radix)
    ensures var e := WrittenExponent(e1, radix);
            && p + 2 < |s| && s[p] == ExponentLetter(radix) && s[p + 1] == (if e < 0 then '-' else '+')
            && s[p + 2..] == Shortest(Size(e), 10)
  {
    ShortestNotEmpty(Size(WrittenExponent(e1, radix)), 10);
    hide Shortest, WrittenExponent, ExponentLetter;
    var t := s[p..];
    assert s[p] == t[0] && s[p + 1] == t[1] && s[p + 2..] == t[2..];
  }

  lemma ShortestNotEmpty(n: nat, radix: nat)
    requires 2 <= radix <= 36
    ensures Shortest(n, radix) != []
  {
  }

  lemma NoTail(s: string, start: nat, f: Format)
    requires 2 <= f.radix <= 36
    ensures Ends(s, |s|, f.radix)
    ensures ParseExponent(s, |s|, start, f) == ExponentPart(false, false, 0, false, |s|)
  {
    EndIsNoDigit();
  }

  function Sign(neg: bool): string {
    if neg then "-" else ""
  }

  function Tail(hasExp: bool, e1: int, radix: nat): string {
    if hasExp then ExponentText(e1, radix) else ""
  }

  /** The text is taken apart into the pieces it was made of. */
  lemma ParseAssembled(s: string, start: nat, neg: bool, f: Format, a: string, b: string, hasExp: bool, e1: int)
    requires 2 <= f.radix <= 36 && !f.intOnly && a != [] && IsDigits(a, f.radix) && IsDigits(b, f.radix)
    requires start <= |s| && s[start..] == Assembled(a, b, Tail(hasExp, e1, f.radix))
    requires Size(WrittenExponent(e1, f.radix)) <= 9 * EXPN_LIMIT
    ensures var e := if hasExp then WrittenExponent(e1, f.radix) else 0;
            ParseDigits(s, start, start, neg, f)
            == Numeral(neg, Values(a) + Values(b), |a|, hasExp && ExponentLetter(f.radix) == 'p', e < 0, Size(e),
                       false, |s|)
  {
    hide Scan, ParseExponent, ExponentText, WrittenExponent, IsDigits, Values, Ends, ExponentLetter;
    var tail := Tail(hasExp, e1, f.radix);
    var p := |s| - |tail|;
    assert s[p..] == s[start..][|s[start..]| - |tail|..] == tail;
    if hasExp {
      ParseTail(s, p, start, f, e1);
    } else {
      NoTail(s, start, f);
    }
    ScanAssembled(s, start, f, a, b, tail);
  }

  lemma ParsePrinted(s: string, neg: bool, f: Format, a: string, b: string, hasExp: bool, e1: int)
    requires 2 <= f.radix <= 36 && !f.intOnly && a != [] && IsDigits(a, f.radix) && IsDigits(b, f.radix)
    requires s == Sign(neg) + Assembled(a, b, Tail(hasExp, e1, f.radix))
    requires Size(WrittenExponent(e1, f.radix)) <= 9 * EXPN_LIMIT
    ensures var e := if hasExp then WrittenExponent(e1, f.radix) else 0;
            Parse(s, f)
            == Numeral(neg, Values(a) + Values(b), |a|, hasExp && ExponentLetter(f.radix) == 'p', e < 0, Size(e),
                       false, |s|)
  {
    var start := |Sign(neg)|;
    assert s[start..] == Assembled(a, b, Tail(hasExp, e1, f.radix));
    ParseAssembled(s, start, neg, f, a, b, hasExp, e1);
    NoPrefix(s, start, f, a, b, hasExp, e1);
    FirstChar(s, neg, f.radix, a);
    hide ParseDigits, Assembled, Values, WrittenExponent, ExponentLetter, Tail, ToDigit, InfinityHere, SignHere,
         IsDigits, At;
  }

  lemma FirstChar(s: string, neg: bool, radix: nat, a: string)
    requires a != [] && IsDigits(a, radix) && |s| > |Sign(neg)| && s[..|Sign(neg)|] == Sign(neg)
             && s[|Sign(neg)|] == a[0]
    ensures (SignHere(s, 0) <==> neg) && (At(s, 0) == '-' <==> neg) && !InfinityHere(s, |Sign(neg)|)
  {
    var start := |Sign(neg)|;
    assert neg ==> s[0] == s[..start][0];
    if InfinityHere(s, start) {
      WordStarts(s, start);
    }
  }

  lemma WordStarts(s: string, p: nat)
    requires InfinityHere(s, p)
    ensures s[p] == 'I'
  {
    assert s[p] == s[p..p + |WORD|][0];
  }

  /** Behind a leading zero there is no `x`. */
  lemma NoPrefix(s: string, start: nat, f: Format, a: string, b: string, hasExp: bool, e1: int)
    requires 2 <= f.radix <= 36 && a != [] && IsDigits(a, f.radix) && start <= |s|
    requires s[start..] == Assembled(a, b, Tail(hasExp, e1, f.radix))
    ensures f.radix == 16 ==> At(s, start + 1) != 'x' && At(s, start + 1) != 'X'
  {
    LetterFacts(f.radix);
    hide ExponentLetter, Shortest, WrittenExponent;
    if start + 1 < |s| {
      assert s[start + 1] == s[start..][1];
    }
  }

  // ----- the value of a printed text --------------------------------------------------------------

  lemma Joined(a: string, b: string, radix: nat)
    requires IsDigits(a, radix) && IsDigits(b, radix)
    ensures IsDigits(a + b, radix) && Values(a + b) == Values(a) + Values(b)
  {
    hide ToDigit;
    var t := a + b;
    assert forall i {:trigger t[i]} :: 0 <= i < |t| ==> t[i] == if i < |a| then a[i] else b[i - |a|];
  }

  lemma Halves(t: string, n: nat, radix: nat)
    requires n <= |t| && IsDigits(t, radix)
    ensures IsDigits(t[..n], radix) && IsDigits(t[n..], radix) && Values(t[..n]) + Values(t[n..]) == Values(t)
  {
    hide ToDigit;
  }

  lemma ZeroChars(n: nat, radix: nat)
    requires radix > 0
    ensures IsDigits(Repeated('0', n), radix) && Values(Repeated('0', n)) == Zeros(n)
  {
  }

  /** The text of the digits ds, taken apart: zeros around them, wherever the dot
      stands. */
  ghost predicate IsLayout(text: string, ds: seq<nat>, e1: int, radix: nat, a: string, b: string, hasExp: bool,
                           z: nat, k: nat)
    requires 2 <= radix <= 36
  {
    && text == Assembled(a, b, Tail(hasExp, e1, radix))
    && a != [] && IsDigits(a, radix) && IsDigits(b, radix)
    && Values(a) + Values(b) == Zeros(z) + ds + Zeros(k)
    && (if hasExp then e1 - 1 else 0) + |a| - |Values(a) + Values(b)| == e1 - |ds| - k
  }

  lemma LayoutParts(ds: seq<nat>, e1: int, radix: nat, mode: ExponentMode)
    returns (a: string, b: string, hasExp: bool, z: nat, k: nat)
    requires 2 <= radix <= 36 && ds != [] && forall i :: 0 <= i < |ds| ==> ds[i] < radix
    ensures IsLayout(Layout(Chars(ds), e1, radix, mode), ds, e1, radix, a, b, hasExp, z, k)
  {
    CharsAreDigits(ds, radix);
    var t := Chars(ds);
    hide ExponentText, Chars, IsDigits, Values, IsLayout, WithDot, ExponentForm;
    hasExp := ExponentForm(e1, radix, mode);
    if hasExp || 0 < e1 < |ds| {
      a, b, z, k := DotInside(t, ds, e1, if hasExp then 1 else e1, radix, hasExp);
      assert Repeated('0', 0) == [];
      assert t[..1] + t[1..] == t;
    } else if e1 <= 0 {
      a, b, z, k := DotBefore(t, ds, e1, radix);
    } else {
      a, b, z, k := DotBehind(t, ds, e1, radix);
      WithoutDot(t);
    }
  }

  lemma NoZeros(ds: seq<nat>)
    ensures Zeros(0) + ds + Zeros(0) == ds && Values([]) == []
  {
  }

  lemma DotSplit(t: string, n: nat, tail: string)
    requires n <= |t|
    ensures WithDot(t, n) + tail == Assembled(t[..n], t[n..], tail)
  {
    assert n == |t| ==> t[..n] == t;
  }

  lemma DotInside(t: string, ds: seq<nat>, e1: int, n: nat, radix: nat, hasExp: bool)
    returns (a: string, b: string, z: nat, k: nat)
    requires 2 <= radix <= 36 && ds != [] && IsDigits(t, radix) && Values(t) == ds && 0 < n <= |t|
             && (hasExp ==> n == 1)
    requires hasExp || n == e1
    ensures IsLayout(WithDot(t, n) + Tail(hasExp, e1, radix), ds, e1, radix, a, b, hasExp, z, k)
  {
    hide IsDigits, Values, Zeros, Tail, WithDot, Assembled;
    Halves(t, n, radix);
    NoZeros(ds);
    DotSplit(t, n, Tail(hasExp, e1, radix));
    a, b, z, k := t[..n], t[n..], 0, 0;
  }

  lemma DotBefore(t: string, ds: seq<nat>, e1: int, radix: nat) returns (a: string, b: string, z: nat, k: nat)
    requires 2 <= radix <= 36 && ds != [] && IsDigits(t, radix) && Values(t) == ds && e1 <= 0
    ensures IsLayout("0." + Repeated('0', -e1) + t, ds, e1, radix, a, b, false, z, k)
  {
    ZeroChars(1, radix);
    ZeroChars(-e1, radix);
    Joined(Repeated('0', -e1), t, radix);
    MoreZeros(1, -e1, ds);
    hide IsDigits, ExponentText, Values, Zeros;
    a, b, z, k := Repeated('0', 1), Repeated('0', -e1) + t, 1 - e1, 0;
    assert "0." + Repeated('0', -e1) + t == Assembled(a, b, "");
  }

  lemma DotBehind(t: string, ds: seq<nat>, e1: int, radix: nat) returns (a: string, b: string, z: nat, k: nat)
    requires 2 <= radix <= 36 && ds != [] && IsDigits(t, radix) && Values(t) == ds && e1 >= |ds|
    ensures IsLayout(t + Repeated('0', e1 - |t|), ds, e1, radix, a, b, false, z, k)
  {
    k := e1 - |ds|;
    ZeroChars(k, radix);
    Joined(t, Repeated('0', k), radix);
    MoreZeros(0, 0, ds);
    NoZeros(ds);
    hide IsDigits, ExponentText, Values;
    a, b, z := t + Repeated('0', k), "", 0;
    assert Values(b) == [];
    assert Assembled(a, b, "") == a;
  }

  lemma MoreZeros(m: nat, n: nat, ds: seq<nat>)
    ensures Zeros(m) + (Zeros(n) + ds) == Zeros(m + n) + ds + Zeros(0)
  {
  }

  lemma ValueAround(z: nat, d: seq<nat>, k: nat, radix: nat)
    requires radix >= 2 && AreDigits(d, radix)
    ensures var ds := Zeros(z) + d + Zeros(k);
            && AreDigits(ds, radix) && Horner(d, radix) * Pow(radix, k) >= 0
            && Horner(ds, radix) == Horner(d, radix) * Pow(radix, k)
  {
    hide Horner, Pow;
    HornerAppend(Zeros(z), d, radix);
    HornerAppend(Zeros(z) + d, Zeros(k), radix);
    AllZeros(z, radix);
    AllZeros(k, radix);
    Positive(Horner(d, radix), Pow(radix, k));
    assert 0 * Pow(radix, |d|) == 0;
  }

  /** The value of the digits, which all are kept. */
  lemma DigitsValue(mant: nat, radix: nat, p: nat, z: nat, k: nat)
    requires 2 <= radix <= 36 && 0 < mant < Pow(radix, p) && p <= MaxDigits(radix)
    ensures var ds := Zeros(z) + DigitsOf(mant, radix, p) + Zeros(k);
            && AreDigits(ds, radix) && mant * Pow(radix, k) >= 0 && Horner(ds, radix) == mant * Pow(radix, k)
            && AnyDigit(ds, 0, |ds|) && !AnyDigit(ds, LeadingZeros(ds) + MaxDigits(radix), |ds|)
  {
    hide Horner, Pow, DigitsOf, MaxDigits, AnyDigit, Zeros, LeadingZeros;
    var d := DigitsOf(mant, radix, p);
    HornerOfDigits(mant, radix, p);
    DivideBack(0, Pow(radix, p), mant, mant);
    ValueAround(z, d, k, radix);
    Positive(mant, Pow(radix, k));
    HornerNonZero(Zeros(z) + d + Zeros(k), radix);
    ZerosAround(z, d, k, MaxDigits(radix));
  }

  lemma ZerosAround(z: nat, d: seq<nat>, k: nat, max: nat)
    requires |d| <= max
    ensures var ds := Zeros(z) + d + Zeros(k); !AnyDigit(ds, LeadingZeros(ds) + max, |ds|)
  {
    var ds := Zeros(z) + d + Zeros(k);
    assert LeadingZeros(ds) >= z || LeadingZeros(ds) == |ds|;
  }

  lemma AllZeros(n: nat, radix: nat)
    requires radix >= 2
    ensures Horner(Zeros(n), radix) == 0
  {
    HornerZeros(n, Zeros(n), radix);
    assert Zeros(n)[..n] == Zeros(n);
  }

  lemma ScaleWritten(e1: int, radix: nat, hasExp: bool)
    ensures var e, x := if hasExp then WrittenExponent(e1, radix) else 0, if hasExp then e1 - 1 else 0;
            Scale(radix, hasExp && ExponentLetter(radix) == 'p', e < 0, Size(e))
            == if IsPowerOfTwo(radix) then x * RadixBits(radix) else x
  {
  }

  /** Reading a text made of the digits of `mant` gives the float64 nearest to
      mant * radix^g. */
  lemma ReadsDigits(s: string, neg: bool, f: Format, a: string, b: string, hasExp: bool, e1: int, mant: nat, p: nat,
                    z: nat, k: nat, r: Outcome)
    requires 2 <= f.radix <= 36 && !f.intOnly && a != [] && IsDigits(a, f.radix) && IsDigits(b, f.radix)
    requires s == Sign(neg) + Assembled(a, b, Tail(hasExp, e1, f.radix))
    requires Size(WrittenExponent(e1, f.radix)) <= 9 * EXPN_LIMIT
    requires 0 < mant < Pow(f.radix, p) && p <= MaxDigits(f.radix)
    requires Values(a) + Values(b) == Zeros(z) + DigitsOf(mant, f.radix, p) + Zeros(k)
    requires Returns(Parse(s, f), f.radix, r)
    ensures r.Double? && r.neg == neg && r.end == |s|
    ensures var g := (if hasExp then e1 - 1 else 0) + |a| - |Values(a) + Values(b)| + k;
            Down(f.radix, g) > 0 && IsNearest(Mul(mant, Up(f.radix, g)), Down(f.radix, g), 0, r.bits)
  {
    hide Parse, Values, Pow, IsDigits, Assembled, WrittenExponent, MaxDigits, DigitsOf, Tail, Up, Down, IsNearest,
         Horner, IsReading, Scale, LeadingZeros, AnyDigit, AreDigits, IsPowerOfTwo, RadixBits;
    var ds, radix, x := Values(a) + Values(b), f.radix, if hasExp then e1 - 1 else 0;
    ParsePrinted(s, neg, f, a, b, hasExp, e1);
    DigitsValue(mant, radix, p, z, k);
    ScaleWritten(e1, radix, hasExp);
    ExactReading(ds, |a|, radix, x, r.bits);
    var g := x + |a| - |ds|;
    ZerosDropped(mant, radix, k, g);
    NearestForm(Mul(Horner(ds, radix), Up(radix, g)), Down(radix, g), 0, Mul(mant, Up(radix, g + k)),
                Down(radix, g + k), 0, r.bits);
  }

  lemma ZerosDropped(v: nat, radix: nat, k: nat, g: int)
    requires radix > 0
    ensures Down(radix, g + k) > 0 && v * Pow(radix, k) >= 0
    ensures SameNumber(Mul(v * Pow(radix, k), Up(radix, g)), Down(radix, g), 0,
                       Mul(v, Up(radix, g + k)), Down(radix, g + k), 0)
  {
    Positive(v, Pow(radix, k));
    ZerosRemoved(v * Pow(radix, k), v, k, radix, g);
  }

  // ----- the round trip -----------------------------------------------------------------------------

  lemma SmallExponent(radix: nat, e: int, e1: int)
    requires 2 <= radix <= 36 && -1073 <= e <= 1024
    requires e1 == 1 + MulLog2Radix(e - 1, radix) || e1 == 2 + MulLog2Radix(e - 1, radix)
    ensures Size(WrittenExponent(e1, radix)) <= 9 * EXPN_LIMIT
  {
    SmallLogarithm(e - 1, radix);
    hide MulLog2Radix;
    var w := WrittenExponent(e1, radix);
    assert -15000 <= w <= 15000;
  }

  lemma SmallLogarithm(a: int, radix: nat)
    requires 2 <= radix <= 36 && -2048 <= a <= 2047
    ensures -2100 <= MulLog2Radix(a, radix) <= 2100
  {
    if !IsPowerOfTwo(radix) {
      var m := MULT[radix - 2];
      assert 0 <= m < MULT_BITS;
      assert -2048 * MULT_BITS <= a * m <= 2047 * MULT_BITS by {
        Times(Size(a), 2048, m, MULT_BITS);
        assert a < 0 ==> a * m == 0 - Size(a) * m;
        if a >= 0 { Times(a, 2047, m, MULT_BITS); }
      }
    }
  }

  /** The digits of the search read back as the float64. */
  lemma SearchReadsBack(m: nat, e: int, neg: bool, radix: nat, mode: ExponentMode, s: string, f: Format, r: Outcome)
    requires 2 <= radix == f.radix <= 36 && !f.intOnly && IsDouble(m, e)
    requires PrintsDigits(m, e, 1 + MulLog2Radix(e - 1, radix), Sign(neg), radix, mode, s)
    requires Returns(Parse(s, f), radix, r)
    ensures r == Double(neg, Pack(m, e), |s|)
  {
    hide Digits, Layout, Chars, DigitsOf, Parse, IsDouble, NearestDouble, IsNearest, Pow, MulLog2Radix, Up, Down,
         WrittenExponent, DTOA_MAX_DIGITS, ATOD_MAX_DIGITS, IsDigits, Values, Assembled, Tail;
    var e0 := 1 + MulLog2Radix(e - 1, radix);
    var mant: nat, e1: int, p: nat :| Digits(m, e, radix, e0, mant, e1, p) && p >= 1
                                      && s == Sign(neg) + Layout(Chars(DigitsOf(mant, radix, p)), e1, radix, mode);
    FoundDigits(m, e, radix, e0, mant, e1, p);
    DoubleRange(m, e);
    SmallExponent(radix, e, e1);
    var a, b, hasExp, z, k := LayoutParts(DigitsOf(mant, radix, p), e1, radix, mode);
    ReadsDigits(s, neg, f, a, b, hasExp, e1, mant, p, z, k, r);
    OnlyNearest(Mul(mant, Up(radix, e1 - p)), Down(radix, e1 - p), 0, r.bits, Pack(m, e));
  }

  lemma FoundDigits(m: nat, e: int, radix: nat, e0: int, mant: nat, e1: int, p: nat)
    requires 2 <= radix <= 36 && Digits(m, e, radix, e0, mant, e1, p)
    ensures (e1 == e0 || e1 == e0 + 1) && 1 <= p <= MaxDigits(radix) && 0 < mant < Pow(radix, p)
    ensures IsNearest(Mul(mant, Up(radix, e1 - p)), Down(radix, e1 - p), 0, Pack(m, e))
  {
    DigitsKept(radix);
    hide NearestDouble, Pow, Up, Down, Mul, TryExponent, TryMantissa;
    assert ReadsBack(m, e, radix, e0, p);
    var top :| NearestDouble(Mul(mant, Up(radix, e1 - p)), Down(radix, e1 - p), 0, top, m, e);
    NearestIs(Mul(mant, Up(radix, e1 - p)), Down(radix, e1 - p), 0, top, m, e);
  }

  /** A whole number is its own nearest float64. */
  lemma WholeIsNearest(m: nat, e: int, radix: nat)
    requires IsDouble(m, e) && IsWhole(m, e) && radix > 0
    ensures var v := m / Pow(2, 53 - e);
            0 < v < Pow(2, 53) && IsNearest(Mul(v, Up(radix, 0)), Down(radix, 0), 0, Pack(m, e))
  {
    var p, v := Pow(2, 53 - e), m / Pow(2, 53 - e);
    Whole(radix, 0);
    MulLaws(v, 1, 1);
    assert v * p == m && 0 < v <= m by { WholeParts(m, p); }
    MulLaws(m, 1, 1);
    assert Close(m, 1, m);
    var top := CloseDouble(m, 1, m, e);
    hide NearestDouble, Pow, SameNumber;
    NearestIs(m, 1, e - 53, top, m, e);
    MultipliedByTwos(v, 0, 53 - e);
    assert 0 - (53 - e) == e - 53;
    SameBack(v, 1, 0, m, 1, e - 53);
    NearestForm(m, 1, e - 53, v, 1, 0, Pack(m, e));
  }

  lemma WholeParts(m: nat, p: nat)
    requires p > 0 && m % p == 0 && m > 0
    ensures m / p * p == m && 0 < m / p <= m
  {
    QuotientParts(m, p);
  }

  lemma SameBack(n: nat, d: nat, x: int, n1: nat, d1: nat, x1: int)
    requires SameNumber(n, d, x, n1, d1, x1)
    ensures SameNumber(n1, d1, x1, n, d, x)
  {
    hide Mul, Up, Down;
  }

  /** No more digits than the printer would need. */
  lemma FewWholeDigits(v: nat, radix: nat)
    requires 2 <= radix <= 36 && 0 < v < Pow(2, 53)
    ensures DigitCount(v, radix) <= MaxDigits(radix) && v < Pow(radix, DigitCount(v, radix))
  {
    DigitCountIs(v, radix);
    EnoughDigits(radix);
    DigitsKept(radix);
    Pow53();
    var k, p := DigitCount(v, radix), DTOA_MAX_DIGITS[radix - 2];
    hide DTOA_MAX_DIGITS, DigitCount, Pow;
    if k > p {
      PowMonotone(radix, p - 1, k - 1);
    }
  }

  lemma WholeReadsBack(m: nat, e: int, neg: bool, radix: nat, s: string, f: Format, r: Outcome)
    requires 2 <= radix == f.radix <= 36 && !f.intOnly && IsDouble(m, e) && IsWhole(m, e)
    requires s == Sign(neg) + Shortest(m / Pow(2, 53 - e), radix) && Returns(Parse(s, f), radix, r)
    ensures r == Double(neg, Pack(m, e), |s|)
  {
    var v := m / Pow(2, 53 - e);
    WholeIsNearest(m, e, radix);
    FewWholeDigits(v, radix);
    var k := DigitCount(v, radix);
    CharsAreDigits(DigitsOf(v, radix, k), radix);
    NoZeros(DigitsOf(v, radix, k));
    ZeroExponent(radix);
    hide Size, Chars, DigitsOf, DigitCount, Parse, IsDouble, IsWhole, IsNearest, Pow, Up, Down, WrittenExponent,
         IsDigits, Values, MaxDigits, Zeros;
    var a := Shortest(v, radix);
    assert Assembled(a, "", "") == a;
    assert Values(a) + Values("") == Values(a);
    ReadsDigits(s, neg, f, a, "", false, 1, v, k, 0, 0, r);
    OnlyNearest(Mul(v, Up(radix, 0)), Down(radix, 0), 0, r.bits, Pack(m, e));
  }

  lemma ZeroReadsBack(neg: bool, radix: nat, mode: ExponentMode, s: string, f: Format, r: Outcome)
    requires 2 <= radix == f.radix <= 36 && !f.intOnly
    requires s == Sign(neg) + Layout("0", 1, radix, mode) && Returns(Parse(s, f), radix, r)
    ensures r == Double(neg, 0, |s|)
  {
    assert Chars([0]) == "0";
    ZeroExponent(radix);
    hide Size, Layout, Chars, Parse, WrittenExponent, IsDigits, Values, Zeros, Assembled, Tail, ExponentLetter,
         IsReading, AnyDigit, Scale;
    var a, b, hasExp, z, k := LayoutParts([0], 1, radix, mode);
    ParsePrinted(s, neg, f, a, b, hasExp, 1);
    var ds := Values(a) + Values(b);
    OnlyZeros(ds, z, k);
    ReadZero(ds, |a|, radix, r.bits);
  }

  lemma OnlyZeros(ds: seq<nat>, z: nat, k: nat)
    requires ds == Zeros(z) + [0] + Zeros(k)
    ensures !AnyDigit(ds, 0, |ds|)
  {
  }

  lemma ZeroExponent(radix: nat)
    ensures WrittenExponent(1, radix) == 0 && Size(WrittenExponent(1, radix)) <= 9 * EXPN_LIMIT
  {
  }

  lemma ReadZero(ds: seq<nat>, dot: nat, radix: nat, a: nat)
    requires 2 <= radix <= 36 && !AnyDigit(ds, 0, |ds|)
    ensures forall x :: IsReading(ds, dot, radix, x, a) ==> a == 0
  {
  }

  lemma InfinityReadsBack(neg: bool, radix: nat, s: string, f: Format, r: Outcome)
    requires 2 <= radix == f.radix <= 36 && !f.intOnly && s == Sign(neg) + WORD && Returns(Parse(s, f), radix, r)
    ensures r == Double(neg, INFINITY, |s|)
  {
    var start := |Sign(neg)|;
    assert s[start..] == WORD && s[start..start + |WORD|] == WORD;
    assert s[start] == 'I';
  }

  /** Every float64 that is not a NaN reads back from the text js_dtoa prints for it,
      in every radix and with every way to write the exponent; only the sign of a
      zero needs its flag. */
  lemma TextReadsBack(neg: bool, a: nat, radix: nat, mode: ExponentMode, minusZero: bool, s: string, f: Format,
                      r: Outcome)
    requires a <= INFINITY && 2 <= radix == f.radix <= 36 && !f.intOnly
    requires Prints(neg, a, radix, mode, minusZero, s) && Returns(Parse(s, f), radix, r)
    ensures r == Double(neg && (a != 0 || minusZero), a, |s|)
  {
    hide Layout, Parse, Returns, Mantissa, Exponent, IsDouble, IsWhole, Shortest, MulLog2Radix, PrintsDigits, Pack;
    if a == INFINITY {
      InfinityReadsBack(neg, radix, s, f, r);
    } else if a == 0 {
      ZeroReadsBack(neg && minusZero, radix, mode, s, f, r);
    } else {
      PackUnpack(a);
      var m, e := Mantissa(a), Exponent(a);
      if IsWhole(m, e) && !mode.Always? {
        WholeReadsBack(m, e, neg, radix, s, f, r);
      } else {
        SearchReadsBack(m, e, neg, radix, mode, s, f, r);
      }
    }
  }
}
