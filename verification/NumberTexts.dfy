/** What js_atod and js_dtoa do with texts, character by character. */
module NumberTexts {
  import opened Power
  import opened RadixDigits
  import opened FreeFormat
  import DoubleBits
  import opened RadixLogarithm
  import opened ShortestDigits
  import opened NumberScan
  import opened NumberReader
  import opened NumberPrinter

  // ----- digits ---------------------------------------------------------------------------

  const DIGITS: string := "0123456789abcdefghijklmnopqrstuvwxyz"
  const CAPITALS: string := "0123456789ABCDEFGHIJKLMNOPQRSTUVWXYZ"

  lemma Alphabet(d: nat)
    requires d < 36
    ensures DigitChar(d) == DIGITS[d]
  {
  }

  lemma Capitals(d: nat)
    requires d < 36
    ensures CAPITALS[d] as int == if d < 10 then '0' as int + d else 'A' as int + d - 10
  {
  }

  /** The digits are written in small letters and read in both. */
  lemma DigitLetters(d: nat, c: char)
    requires d < 36
    ensures DigitChar(d) == DIGITS[d]
    ensures ToDigit(c) == d <==> c == DIGITS[d] || c == CAPITALS[d]
  {
    Alphabet(d);
    Capitals(d);
    hide DIGITS, CAPITALS;
  }

  // ----- the digits of a number ---------------------------------------------------------------

  /** The digits that stand in s[p..q], dots and separators left out. */
  function DigitsIn(s: string, p: nat, q: nat): (r: seq<nat>)
    decreases q - p
  {
    if p >= q then []
    else if ToDigit(At(s, p)) < 36 then [ToDigit(At(s, p))] + DigitsIn(s, p + 1, q)
    else DigitsIn(s, p + 1, q)
  }

  /** A digit, a dot behind a digit or before one, or a separator between the first
      position and a digit. */
  predicate PartOfNumber(s: string, i: nat, start: nat, f: Format) {
    var c, digitNext := At(s, i), ToDigit(At(s, i + 1)) < f.radix;
    || ToDigit(c) < f.radix
    || (c == '.' && !f.intOnly && (i > start || digitNext))
    || (c == '_' && f.underscores && i > start && digitNext)
  }

  ghost predicate NoDot(s: string, p: nat, q: nat) {
    forall i: nat :: p <= i < q ==> At(s, i) != '.'
  }

  /** The only dot of s[p..q] is at i. */
  ghost predicate OnlyDot(s: string, p: nat, i: nat, q: nat) {
    p <= i < q && At(s, i) == '.' && NoDot(s, p, i) && NoDot(s, i + 1, q)
  }

  /** The number ends at p: nothing that belongs to it follows, or a second dot. */
  predicate Stops(s: string, p: nat, start: nat, f: Format, dot: int) {
    PartOfNumber(s, p, start, f) ==> At(s, p) == '.' && dot >= 0
  }

  /** What js_atod takes as a number from `p` on: digits, at most one dot, separators
      between digits, as far as they go. */
  ghost predicate Reads(s: string, p: nat, start: nat, f: Format, ds: seq<nat>, dot: int, r: Significand) {
    && r.end >= p && r.ds == ds + DigitsIn(s, p, r.end)
    && (forall i: nat :: p <= i < r.end ==> PartOfNumber(s, i, start, f))
    && Stops(s, r.end, start, f, r.dot)
    && if dot >= 0 then r.dot == dot && NoDot(s, p, r.end)
       else if r.dot < 0 then r.dot == -1 && NoDot(s, p, r.end)
       else exists i: nat :: OnlyDot(s, p, i, r.end) && r.dot == |ds| + |DigitsIn(s, p, i)|
  }

  lemma DotAndSeparator()
    ensures ToDigit('.') == 36 && ToDigit('_') == 36
  {
  }

  lemma DigitTaken(s: string, p: nat, start: nat, f: Format, ds: seq<nat>, dot: int, r: Significand)
    requires f.radix <= 36 && ToDigit(At(s, p)) < f.radix
    requires Reads(s, p + 1, start, f, ds + [ToDigit(At(s, p))], dot, r)
    ensures Reads(s, p, start, f, ds, dot, r)
  {
    DotAndSeparator();
    hide ToDigit, At, Stops;
    var d := ToDigit(At(s, p));
    assert ds + DigitsIn(s, p, r.end) == (ds + [d]) + DigitsIn(s, p + 1, r.end);
    if dot < 0 && r.dot >= 0 {
      var i: nat :| OnlyDot(s, p + 1, i, r.end) && r.dot == |ds + [d]| + |DigitsIn(s, p + 1, i)|;
      assert OnlyDot(s, p, i, r.end);
      assert DigitsIn(s, p, i) == [d] + DigitsIn(s, p + 1, i);
    }
  }

  lemma SeparatorTaken(s: string, p: nat, start: nat, f: Format, ds: seq<nat>, dot: int, r: Significand)
    requires f.radix <= 36 && SeparatorHere(s, p, start, f) && ToDigit(At(s, p + 1)) < f.radix
    requires Reads(s, p + 1, start, f, ds, dot, r)
    ensures Reads(s, p, start, f, ds, dot, r)
  {
    DotAndSeparator();
    hide ToDigit, Stops;
    if dot < 0 && r.dot >= 0 {
      var i: nat :| OnlyDot(s, p + 1, i, r.end) && r.dot == |ds| + |DigitsIn(s, p + 1, i)|;
      assert OnlyDot(s, p, i, r.end);
    }
  }

  lemma DotTaken(s: string, p: nat, start: nat, f: Format, ds: seq<nat>, r: Significand)
    requires f.radix <= 36 && DotHere(s, p, start, f) && Reads(s, p + 1, start, f, ds, |ds|, r)
    ensures Reads(s, p, start, f, ds, -1, r)
  {
    DotAndSeparator();
    hide ToDigit, Stops;
    assert OnlyDot(s, p, p, r.end) && DigitsIn(s, p, p) == [];
  }

  /** The scan takes exactly that. */
  lemma {:induction false} ScanMeans(s: string, p: nat, start: nat, f: Format, ds: seq<nat>, dot: int)
    requires f.radix <= 36 && p <= |s| && dot >= -1
    ensures Reads(s, p, start, f, ds, dot, Scan(s, p, start, f, ds, dot))
    decreases |s| - p
  {
    DotAndSeparator();
    var r := Scan(s, p, start, f, ds, dot);
    hide ToDigit, Reads, DotHere, SeparatorHere, Scan;
    DigitHereIs(s, p, f.radix);
    DigitHereIs(s, p + 1, f.radix);
    if DotHere(s, p, start, f) && dot < 0 {
      ScanDot(s, p, start, f, ds);
      ScanMeans(s, p + 1, start, f, ds, |ds|);
      DotTaken(s, p, start, f, ds, r);
    } else if DotHere(s, p, start, f) {
      SecondDot(s, p, start, f, ds, dot);
      Stopped(s, p, start, f, ds, dot);
    } else if SeparatorHere(s, p, start, f) && DigitHere(s, p + 1, f.radix) {
      ScanSeparator(s, p, start, f, ds, dot);
      ScanMeans(s, p + 1, start, f, ds, dot);
      SeparatorTaken(s, p, start, f, ds, dot, r);
    } else if DigitHere(s, p, f.radix) {
      ScanDigit(s, p, start, f, ds, dot);
      ScanMeans(s, p + 1, start, f, ds + [ToDigit(At(s, p))], dot);
      DigitTaken(s, p, start, f, ds, dot, r);
    } else {
      ScanEnd(s, p, start, f, ds, dot);
      Stopped(s, p, start, f, ds, dot);
    }
  }

  lemma Stopped(s: string, p: nat, start: nat, f: Format, ds: seq<nat>, dot: int)
    requires dot >= -1 && f.radix <= 36
    requires DotHere(s, p, start, f) ==> dot >= 0
    requires !DotHere(s, p, start, f) ==> !DigitHere(s, p, f.radix)
                                          && (SeparatorHere(s, p, start, f) ==> !DigitHere(s, p + 1, f.radix))
    ensures Reads(s, p, start, f, ds, dot, Significand(ds, dot, p))
  {
    DotAndSeparator();
    hide ToDigit;
    assert DigitsIn(s, p, p) == [];
    assert ds + [] == ds;
  }

  // ----- whole texts ------------------------------------------------------------------------------

  /** A sign, separators, a dot and an exponent. */
  lemma DecimalText()
    ensures Parse("-1_0.5E-1z", Format(10, true, false)) == Numeral(true, [1, 0, 5], 2, false, true, 1, false, 9)
  {
    var s, f := "-1_0.5E-1z", Format(10, true, false);
    DecimalDigits(s, f);
    assert ScanExponent(s, 9, true, 1, false) == Scanned(1, false, 9);
    hide Scan;
    assert At(s, 6) == 'E' && At(s, 7) == '-' && At(s, 8) == '1';
    assert ParseExponent(s, 6, 1, f) == ExponentPart(false, true, 1, false, 9);
    hide ParseExponent, ScanExponent;
    assert At(s, 0) == '-' && At(s, 1) == '1';
    assert !InfinityHere(s, 1) by { assert s[1] != WORD[0]; }
    assert Parse(s, f) == ParseDigits(s, 1, 1, true, f);
  }

  lemma DecimalDigits(s: string, f: Format)
    requires s == "-1_0.5E-1z" && f == Format(10, true, false)
    ensures Scan(s, 1, 1, f, [], -1) == Significand([1, 0, 5], 2, 6)
  {
    assert At(s, 1) == '1' && At(s, 2) == '_' && At(s, 3) == '0';
    assert At(s, 4) == '.' && At(s, 5) == '5' && At(s, 6) == 'E';
    hide At, Scan;
    ScanDigit(s, 1, 1, f, [], -1);
    assert [] + [1] == [1];
    ScanSeparator(s, 2, 1, f, [1], -1);
    ScanDigit(s, 3, 1, f, [1], -1);
    assert [1] + [0] == [1, 0];
    ScanDot(s, 4, 1, f, [1, 0]);
    ScanDigit(s, 5, 1, f, [1, 0], 2);
    assert [1, 0] + [5] == [1, 0, 5];
    ScanEnd(s, 6, 1, f, [1, 0, 5], 2);
  }

  /** A prefix, and an exponent that counts bits. */
  lemma HexText()
    ensures Parse("0x1F.8p+3", Format(16, false, false)) == Numeral(false, [1, 15, 8], 2, true, false, 3, false, 9)
  {
    var s, f := "0x1F.8p+3", Format(16, false, false);
    HexDigits(s, f);
    assert ScanExponent(s, 9, false, 3, false) == Scanned(3, false, 9);
    hide Scan;
    assert At(s, 6) == 'p' && At(s, 7) == '+' && At(s, 8) == '3';
    assert ParseExponent(s, 6, 0, f) == ExponentPart(true, false, 3, false, 9);
    hide ParseExponent, ScanExponent;
    assert At(s, 0) == '0' && At(s, 1) == 'x' && At(s, 2) == '1';
    assert Parse(s, f) == ParseDigits(s, 2, 0, false, f);
  }

  lemma HexDigits(s: string, f: Format)
    requires s == "0x1F.8p+3" && f == Format(16, false, false)
    ensures Scan(s, 2, 0, f, [], -1) == Significand([1, 15, 8], 2, 6)
  {
    assert At(s, 2) == '1' && At(s, 3) == 'F' && At(s, 4) == '.' && At(s, 5) == '8' && At(s, 6) == 'p';
    hide At, Scan;
    ScanDigit(s, 2, 0, f, [], -1);
    assert [] + [1] == [1];
    ScanDigit(s, 3, 0, f, [1], -1);
    assert [1] + [15] == [1, 15];
    ScanDot(s, 4, 0, f, [1, 15]);
    ScanDigit(s, 5, 0, f, [1, 15], 2);
    assert [1, 15] + [8] == [1, 15, 8];
    ScanEnd(s, 6, 0, f, [1, 15, 8], 2);
  }

  // ----- 2^-44 ------------------------------------------------------------------------------------

  const BITS_OF_TWO_TO_MINUS_44: nat := 979 * DoubleBits.TWO52

  lemma SeventeenChars()
    ensures Chars([5, 6, 8, 4, 3] + [4, 1, 8, 8, 6, 0] + [8, 0, 8, 0, 1, 5]) == "5" + "6843418860808015"
  {
  }

  lemma Chunks()
    ensures DigitsOf(56843, 10, 5) == [5, 6, 8, 4, 3]
    ensures DigitsOf(418860, 10, 6) == [4, 1, 8, 8, 6, 0] && DigitsOf(808015, 10, 6) == [8, 0, 8, 0, 1, 5]
  {
  }

  lemma SeventeenDigits()
    ensures Chars(DigitsOf(56843418860808015, 10, 17)) == "5" + "6843418860808015"
  {
    Chunks();
    SeventeenChars();
    assert Pow(10, 6) == 1_000_000;
    hide DigitsOf, Chars, Pow;
    DigitsSplit(56843418860808015, 10, 11, 6);
    DigitsSplit(56843418860, 10, 5, 6);
  }

  /** js_dtoa prints 2^-44 with 17 digits. */
  lemma PrintedTooLong(minusZero: bool, s: string)
    requires Prints(false, BITS_OF_TWO_TO_MINUS_44, 10, Auto, minusZero, s)
    ensures s == "5" + "." + "6843418860808015" + "e-14"
  {
    IsTwoToMinus44();
    SeventeenDigits();
    hide IsDouble, IsLog, Digits, Chars, DigitsOf, Pow, Layout, WithDot;
    assert 1 + MulLog2Radix(-44, 10) == -13;
    assert PrintsNumber(ShortestDigits.TWO52, -43, "", 10, Auto, s);
    var mant, e1, p :| Digits(ShortestDigits.TWO52, -43, 10, -13, mant, e1, p) && p >= 1
                       && s == Layout(Chars(DigitsOf(mant, 10, p)), e1, 10, Auto);
    OneDigitTooMany(mant, e1, p);
    hide Shortest;
    LayoutSmall('5', "6843418860808015");
  }

  lemma LayoutSmall(d: char, rest: string)
    requires rest != []
    ensures Layout([d] + rest, -13, 10, Auto) == [d] + "." + rest + "e-14"
  {
    AtMostTwo(14);
    hide Shortest;
    NumberToString([d] + rest, -13);
    assert 1 - -13 == 14;
    assert ([d] + rest)[..1] == [d] && ([d] + rest)[1..] == rest;
    hide Layout;
    assert "e" + ("-" + "14") == "e-14";
  }
}
