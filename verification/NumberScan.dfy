/** js_atod from left to right: leading zeros, significant digits with a dot and
    separators among them, and the exponent. */
module NumberScan {
  import opened Arithmetic
  import opened SmallPowers
  import opened Limbs
  import opened Bignum
  import opened RadixDigits

  /** The radix, and the flags that matter while a text is read. */
  datatype Format = Format(radix: nat, underscores: bool, intOnly: bool)

  /** The digits of a number, how many of them stand before its dot (-1: there is
      no dot), and where the text goes on. */
  datatype Significand = Significand(ds: seq<nat>, dot: int, end: nat)

  /** A C string ends with a zero. */
  function At(s: string, p: nat): char {
    if p < |s| then s[p] else '\0'
  }

  predicate DigitHere(s: string, p: nat, radix: nat) {
    ToDigit(At(s, p)) < radix
  }

  predicate DotHere(s: string, p: nat, start: nat, f: Format) {
    At(s, p) == '.' && (p > start || DigitHere(s, p + 1, f.radix)) && !f.intOnly
  }

  predicate SeparatorHere(s: string, p: nat, start: nat, f: Format) {
    f.underscores && At(s, p) == '_' && p > start
  }

  /** Everything that can be read as digits from `p` on, after `ds` and the dot at `dot`. */
  function Scan(s: string, p: nat, start: nat, f: Format, ds: seq<nat>, dot: int): (r: Significand)
    requires f.radix <= 36
    ensures |r.ds| >= |ds| && r.ds[..|ds|] == ds && r.end >= p
    ensures forall i :: |ds| <= i < |r.ds| ==> r.ds[i] < f.radix
    ensures p <= |s| ==> r.end <= |s|
    decreases |s| - p, 1
  {
    if !DotHere(s, p, start, f) then ScanHere(s, p, start, f, ds, dot)
    else if dot >= 0 then Significand(ds, dot, p)
    else ScanHere(s, p + 1, start, f, ds, |ds|)
  }

  /** The same where no dot is looked for. */
  function ScanHere(s: string, p: nat, start: nat, f: Format, ds: seq<nat>, dot: int): (r: Significand)
    requires f.radix <= 36
    ensures |r.ds| >= |ds| && r.ds[..|ds|] == ds && r.end >= p
    ensures forall i :: |ds| <= i < |r.ds| ==> r.ds[i] < f.radix
    ensures p <= |s| ==> r.end <= |s|
    decreases |s| - p, 0
  {
    var q := if SeparatorHere(s, p, start, f) && DigitHere(s, p + 1, f.radix) then p + 1 else p;
    if DigitHere(s, q, f.radix) then Scan(s, q + 1, start, f, ds + [ToDigit(At(s, q))], dot)
    else Significand(ds, dot, q)
  }

  lemma ScanDot(s: string, p: nat, start: nat, f: Format, ds: seq<nat>)
    requires f.radix <= 36 && DotHere(s, p, start, f)
    ensures p < |s| && Scan(s, p, start, f, ds, -1) == Scan(s, p + 1, start, f, ds, |ds|)
  {
    DotIsNoDigit();
    hide ToDigit;
  }

  lemma ScanSeparator(s: string, p: nat, start: nat, f: Format, ds: seq<nat>, dot: int)
    requires f.radix <= 36 && SeparatorHere(s, p, start, f) && DigitHere(s, p + 1, f.radix)
    ensures p < |s| && Scan(s, p, start, f, ds, dot) == Scan(s, p + 1, start, f, ds, dot)
  {
  }

  lemma ScanDigit(s: string, p: nat, start: nat, f: Format, ds: seq<nat>, dot: int)
    requires f.radix <= 36 && DigitHere(s, p, f.radix)
    ensures p < |s| && Scan(s, p, start, f, ds, dot) == Scan(s, p + 1, start, f, ds + [ToDigit(At(s, p))], dot)
  {
  }

  lemma ScanEnd(s: string, p: nat, start: nat, f: Format, ds: seq<nat>, dot: int)
    requires f.radix <= 36 && !DigitHere(s, p, f.radix) && (DotHere(s, p, start, f) ==> dot >= 0)
    requires SeparatorHere(s, p, start, f) ==> !DigitHere(s, p + 1, f.radix)
    ensures Scan(s, p, start, f, ds, dot) == Significand(ds, dot, p)
  {
  }

  function Zeros(n: nat): (r: seq<nat>)
    ensures |r| == n && forall i :: 0 <= i < n ==> r[i] == 0
  {
    seq(n, i => 0)
  }

  /** The first loop of js_atod. */
  method SkipZeros(s: string, p0: nat, start: nat, f: Format) returns (p: nat, pos: nat, dotPos: int)
    requires 2 <= f.radix <= 36 && p0 <= |s|
    ensures p0 <= p <= |s| && dotPos >= -1
    ensures Scan(s, p0, start, f, [], -1) == Scan(s, p, start, f, Zeros(pos), dotPos)
    ensures var ds := Scan(s, p, start, f, Zeros(pos), dotPos).ds; |ds| > pos ==> ds[pos] != 0
  {
    hide Scan;
    p, pos, dotPos := p0, 0, -1;
    assert Zeros(0) == [];
    while true
      invariant p0 <= p <= |s| && dotPos >= -1
      invariant Scan(s, p0, start, f, [], -1) == Scan(s, p, start, f, Zeros(pos), dotPos)
      decreases |s| - p
    {
      if DotHere(s, p, start, f) {
        if dotPos >= 0 {
          ScanEnd(s, p, start, f, Zeros(pos), dotPos);
          break;
        }
        ScanDot(s, p, start, f, Zeros(pos));
        dotPos := pos;
        p := p + 1;
      }
      if SeparatorHere(s, p, start, f) && At(s, p + 1) == '0' {
        ScanSeparator(s, p, start, f, Zeros(pos), dotPos);
        p := p + 1;
      }
      if At(s, p) != '0' {
        FirstNotZero(s, p, start, f, Zeros(pos), dotPos);
        break;
      }
      ScanDigit(s, p, start, f, Zeros(pos), dotPos);
      assert Zeros(pos) + [0] == Zeros(pos + 1);
      p := p + 1;
      pos := pos + 1;
    }
  }

  lemma ZeroDigit(c: char)
    ensures ToDigit(c) == 0 <==> c == '0'
  {
  }

  lemma FirstNotZero(s: string, p: nat, start: nat, f: Format, ds: seq<nat>, dot: int)
    requires f.radix <= 36 && At(s, p) != '0' && (DotHere(s, p, start, f) ==> dot >= 0)
    requires SeparatorHere(s, p, start, f) ==> At(s, p + 1) != '0'
    ensures var r := Scan(s, p, start, f, ds, dot).ds; |r| > |ds| ==> r[|ds|] != 0
  {
    hide ToDigit, At, DotHere, SeparatorHere;
    ZeroDigit(At(s, p));
    ZeroDigit(At(s, p + 1));
    var q := if SeparatorHere(s, p, start, f) && DigitHere(s, p + 1, f.radix) then p + 1 else p;
    if !DotHere(s, p, start, f) && DigitHere(s, q, f.radix) {
      var more := ds + [ToDigit(At(s, q))];
      assert Scan(s, p, start, f, ds, dot) == Scan(s, q + 1, start, f, more, dot);
      assert Scan(s, q + 1, start, f, more, dot).ds[..|more|] == more;
    }
  }

  /** The digits that are kept: at most `maxDigits` of those after the first z. */
  function Kept(ds: seq<nat>, z: nat, maxDigits: nat): seq<nat>
    requires z <= |ds|
  {
    ds[z..z + Smaller(|ds| - z, maxDigits)]
  }

  /** After the zeros and the digits `ds`: the kept ones are in the number and in
      the limb that is being filled. */
  ghost predicate Collected(v: nat, len: nat, cur: nat, count: nat, ds: seq<nat>, z: nat, radix: nat, maxDigits: nat,
                            digitCount: nat, extra: bool, groups: nat)
  {
    && 2 <= radix <= 36 && z <= |ds| && digitCount == Smaller(|ds| - z, maxDigits)
    && Reading(v, len, cur, count, Kept(ds, z, maxDigits), radix, DIGITS_PER_LIMB[radix - 2], groups)
    && (extra <==> AnyDigit(ds, z + maxDigits, |ds|))
  }

  /** The second loop of js_atod: a limb's worth of digits is collected before the
      number is touched. Digits beyond maxDigits only tell whether one of them is
      not zero. */
  method ReadDigits(tmp0: Mpb, s: string, p0: nat, start: nat, f: Format, z: nat, dotPos0: int, maxDigits: nat)
    returns (p: nat, dotPos: int, pos: nat, digitCount: nat, extra: bool)
    requires 2 <= f.radix <= 36 && p0 <= |s| && dotPos0 >= -1
    requires DigitRoom(f.radix, maxDigits, tmp0.tab.Length)
    modifies tmp0, tmp0.tab
    ensures var r := Scan(s, p0, start, f, Zeros(z), dotPos0);
            && p == r.end && dotPos == r.dot && z <= pos == |r.ds|
            && digitCount == Smaller(pos - z, maxDigits)
            && tmp0.Valid() && tmp0.Val() == Horner(Kept(r.ds, z, maxDigits), f.radix)
            && (extra <==> AnyDigit(r.ds, z + maxDigits, pos))
  {
    hide DigitRoom, Scan, Collected, ToDigit, Horner, Kept, AnyDigit, Value;
    SomeRoom(f.radix, maxDigits, tmp0.tab.Length);
    p, dotPos, pos, digitCount, extra := p0, dotPos0, z, 0, false;
    var cur: nat, count: nat := 0, 0;
    ghost var groups: nat, ds: seq<nat> := 0, Zeros(z);
    StartDigits(tmp0, f.radix, ds, maxDigits);
    while true
      invariant p <= |s| && pos == |ds| && dotPos >= -1
      invariant Scan(s, p0, start, f, Zeros(z), dotPos0) == Scan(s, p, start, f, ds, dotPos)
      invariant tmp0.Valid()
                && Collected(tmp0.Val(), tmp0.len, cur, count, ds, z, f.radix, maxDigits, digitCount, extra, groups)
      decreases |s| - p
    {
      var more;
      more, p, dotPos := ToNextDigit(s, p, start, f, pos, dotPos, ds);
      if !more {
        break;
      }
      var c := ToDigit(At(s, p));
      cur, count, digitCount, extra, groups :=
        TakeDigit(tmp0, cur, count, c, f.radix, ds, z, maxDigits, digitCount, extra, groups);
      p := p + 1;
      pos := pos + 1;
      ds := ds + [c];
    }
    FinishDigits(tmp0, cur, count, f.radix, ds, z, maxDigits, digitCount, extra, groups);
  }

  /** Over a dot and a separator to the next digit, if there is one. */
  method ToNextDigit(s: string, p0: nat, start: nat, f: Format, pos: nat, dotPos0: int, ghost ds: seq<nat>)
    returns (more: bool, p: nat, dotPos: int)
    requires 2 <= f.radix <= 36 && p0 <= |s| && dotPos0 >= -1 && pos == |ds|
    ensures dotPos >= -1 && p0 <= p && if more then p < |s| else p <= |s|
    ensures more ==> ToDigit(At(s, p)) < f.radix
    ensures Scan(s, p0, start, f, ds, dotPos0)
         == if more then Scan(s, p + 1, start, f, ds + [ToDigit(At(s, p))], dotPos) else Significand(ds, dotPos, p)
  {
    hide Scan, DotHere, SeparatorHere, DigitHere, ToDigit;
    p, dotPos := p0, dotPos0;
    if DotHere(s, p, start, f) {
      if dotPos >= 0 {
        SecondDot(s, p, start, f, ds, dotPos);
        return false, p, dotPos;
      }
      ScanDot(s, p, start, f, ds);
      dotPos := pos;
      p := p + 1;
    }
    if SeparatorHere(s, p, start, f) && DigitHere(s, p + 1, f.radix) {
      ScanSeparator(s, p, start, f, ds, dotPos);
      p := p + 1;
    }
    DigitHereIs(s, p, f.radix);
    more := ToDigit(At(s, p)) < f.radix;
    if more {
      ScanDigit(s, p, start, f, ds, dotPos);
    } else {
      ScanEnd(s, p, start, f, ds, dotPos);
    }
  }

  ghost predicate DigitRoom(radix: nat, maxDigits: nat, capacity: nat) {
    2 <= radix <= 36 && DIGITS_PER_LIMB[radix - 2] > 0 && maxDigits / DIGITS_PER_LIMB[radix - 2] + 3 < capacity
  }

  lemma SomeRoom(radix: nat, maxDigits: nat, capacity: nat)
    requires DigitRoom(radix, maxDigits, capacity)
    ensures capacity >= 1
  {
    QuotientSmall(maxDigits, DIGITS_PER_LIMB[radix - 2]);
  }

  lemma DigitHereIs(s: string, p: nat, radix: nat)
    ensures DigitHere(s, p, radix) <==> ToDigit(At(s, p)) < radix
  {
  }

  lemma SecondDot(s: string, p: nat, start: nat, f: Format, ds: seq<nat>, dot: int)
    requires f.radix <= 36 && DotHere(s, p, start, f) && dot >= 0
    ensures Scan(s, p, start, f, ds, dot) == Significand(ds, dot, p)
  {
  }

  method StartDigits(tmp0: Mpb, radix: nat, ghost zeros: seq<nat>, ghost maxDigits: nat)
    requires tmp0.tab.Length >= 1 && 2 <= radix <= 36
    modifies tmp0, tmp0.tab
    ensures tmp0.Valid() && Collected(tmp0.Val(), tmp0.len, 0, 0, zeros, |zeros|, radix, maxDigits, 0, false, 0)
  {
    hide Reading;
    StartReading(tmp0, radix);
    assert Kept(zeros, |zeros|, maxDigits) == [];
  }

  /** One digit: kept, or only looked at. */
  method TakeDigit(tmp0: Mpb, cur0: nat, count0: nat, c: nat, radix: nat, ghost ds: seq<nat>, ghost z: nat,
                   maxDigits: nat, digitCount0: nat, extra0: bool, ghost groups0: nat)
    returns (cur: nat, count: nat, digitCount: nat, extra: bool, ghost groups: nat)
    requires 2 <= radix <= 36 && c < radix && tmp0.Valid()
    requires DigitRoom(radix, maxDigits, tmp0.tab.Length)
    requires Collected(tmp0.Val(), tmp0.len, cur0, count0, ds, z, radix, maxDigits, digitCount0, extra0, groups0)
    modifies tmp0, tmp0.tab
    ensures tmp0.Valid() && Collected(tmp0.Val(), tmp0.len, cur, count, ds + [c], z, radix, maxDigits, digitCount,
                                      extra, groups)
  {
    assert |DIGITS_PER_LIMB| == 35;
    hide Reading, AnyDigit, Kept, DIGITS_PER_LIMB;
    OneDigitMore(ds, c, z, maxDigits);
    cur, count, digitCount, extra, groups := cur0, count0, digitCount0, extra0, groups0;
    if digitCount < maxDigits {
      var kept := Kept(ds, z, maxDigits);
      RoomLeft(tmp0.Val(), tmp0.len, cur, count, kept, radix, DIGITS_PER_LIMB[radix - 2], groups, maxDigits);
      cur, count, groups := AddDigit(tmp0, cur, count, c, radix, kept, groups);
      digitCount := digitCount + 1;
    } else {
      assert Kept(ds, z, maxDigits) + [] == Kept(ds, z, maxDigits);
      extra := extra || c != 0;
    }
  }

  /** The limb that is not full. */
  method FinishDigits(tmp0: Mpb, cur: nat, count: nat, radix: nat, ghost ds: seq<nat>, ghost z: nat, maxDigits: nat,
                      digitCount: nat, extra: bool, ghost groups: nat)
    requires tmp0.Valid() && 2 <= radix <= 36 && DigitRoom(radix, maxDigits, tmp0.tab.Length)
    requires Collected(tmp0.Val(), tmp0.len, cur, count, ds, z, radix, maxDigits, digitCount, extra, groups)
    modifies tmp0, tmp0.tab
    ensures tmp0.Valid() && z <= |ds| && tmp0.Val() == Horner(Kept(ds, z, maxDigits), radix)
    ensures digitCount == Smaller(|ds| - z, maxDigits) && (extra <==> AnyDigit(ds, z + maxDigits, |ds|))
  {
    assert |DIGITS_PER_LIMB| == 35;
    hide Reading, AnyDigit, Horner, DIGITS_PER_LIMB;
    var kept := Kept(ds, z, maxDigits);
    RoomLeft(tmp0.Val(), tmp0.len, cur, count, kept, radix, DIGITS_PER_LIMB[radix - 2], groups, maxDigits);
    LastLimb(tmp0, cur, count, radix, kept, groups);
  }

  lemma DotIsNoDigit()
    ensures ToDigit('.') == 36
  {
  }

  lemma OneDigitMore(ds: seq<nat>, c: nat, z: nat, maxDigits: nat)
    requires z <= |ds|
    ensures var n := |ds| - z;
            && Kept(ds + [c], z, maxDigits) == Kept(ds, z, maxDigits) + (if n < maxDigits then [c] else [])
            && |Kept(ds, z, maxDigits)| == Smaller(n, maxDigits)
    ensures AnyDigit(ds + [c], z + maxDigits, |ds| + 1)
        <==> AnyDigit(ds, z + maxDigits, |ds|) || (|ds| - z >= maxDigits && c != 0)
  {
    var lo, more := z + maxDigits, ds + [c];
    if j :| lo <= j < |ds| && ds[j] != 0 {
      assert more[j] != 0;
    }
    assert more[|ds|] == c;
    if j :| lo <= j < |more| && more[j] != 0 {
      assert j < |ds| ==> ds[j] != 0;
    }
  }

  // ----- the exponent -----------------------------------------------------------------

  const EXPN_LIMIT: nat := (0x7fff_ffff - 2 - 9) / 10

  /** The value of the exponent's digits unless it overflows, and where they end. */
  datatype Scanned = Scanned(value: nat, overflow: bool, end: nat)

  /** Where the next digit of an exponent is, if there is one. */
  function NextDigitAt(s: string, p: nat, underscores: bool): (q: nat)
    ensures p <= q <= p + 1
  {
    if underscores && At(s, p) == '_' && DigitHere(s, p + 1, 10) then p + 1 else p
  }

  /** Its digits from `p` on; once it has overflowed, they are only skipped. */
  function ScanExponent(s: string, p: nat, underscores: bool, value: nat, overflow: bool): (r: Scanned)
    ensures p <= r.end && (p <= |s| ==> r.end <= |s|)
    decreases |s| - p
  {
    var q := NextDigitAt(s, p, underscores);
    if !DigitHere(s, q, 10) then Scanned(value, overflow, q)
    else if overflow || value > EXPN_LIMIT then ScanExponent(s, q + 1, underscores, value, true)
    else ScanExponent(s, q + 1, underscores, value * 10 + ToDigit(At(s, q)), false)
  }

  /** The digits of the exponent. */
  function ExponentDigits(s: string, p: nat, underscores: bool): (r: seq<nat>)
    ensures |r| <= (if p <= |s| then |s| - p else 0) && forall i :: 0 <= i < |r| ==> r[i] < 10
    decreases |s| - p
  {
    var q := NextDigitAt(s, p, underscores);
    if !DigitHere(s, q, 10) then [] else [ToDigit(At(s, q))] + ExponentDigits(s, q + 1, underscores)
  }

  lemma ExponentStep(s: string, p: nat, underscores: bool, value: nat, overflow: bool)
    ensures var q := NextDigitAt(s, p, underscores);
            var over := overflow || value > EXPN_LIMIT;
            if DigitHere(s, q, 10) then
              && q < |s| && ExponentDigits(s, p, underscores)
                            == [ToDigit(At(s, q))] + ExponentDigits(s, q + 1, underscores)
              && ScanExponent(s, p, underscores, value, overflow)
                 == ScanExponent(s, q + 1, underscores, if over then value else value * 10 + ToDigit(At(s, q)), over)
            else ExponentDigits(s, p, underscores) == [] && ScanExponent(s, p, underscores, value, overflow)
                                                            == Scanned(value, overflow, q)
  {
  }

  /** Without overflow the value is that of all digits; with it, that is more. */
  lemma {:induction false} ExponentIs(s: string, p: nat, underscores: bool, value: nat, overflow: bool, read: seq<nat>)
    requires if overflow then Horner(read, 10) > 9 * EXPN_LIMIT else Horner(read, 10) == value
    ensures var r, v := ScanExponent(s, p, underscores, value, overflow),
              Horner(read + ExponentDigits(s, p, underscores), 10);
            if r.overflow then v > 9 * EXPN_LIMIT else v == r.value
    decreases |s| - p
  {
    hide Horner, ScanExponent, ExponentDigits, NextDigitAt, ToDigit;
    ExponentStep(s, p, underscores, value, overflow);
    var q := NextDigitAt(s, p, underscores);
    if DigitHere(s, q, 10) {
      var d, rest := ToDigit(At(s, q)), ExponentDigits(s, q + 1, underscores);
      HornerSnoc(read, d, 10);
      assert read + ([d] + rest) == read + [d] + rest;
      var over := overflow || value > EXPN_LIMIT;
      ExponentIs(s, q + 1, underscores, if over then value else value * 10 + d, over, read + [d]);
    } else {
      assert read + [] == read;
    }
  }

  /** The loop over the exponent's digits, behind the first one. */
  method ReadExponent(s: string, p0: nat, underscores: bool, first: nat) returns (expn: nat, overflow: bool, p: nat)
    requires p0 <= |s|
    ensures Scanned(expn, overflow, p) == ScanExponent(s, p0, underscores, first, false)
  {
    expn, overflow, p := first, false, p0;
    while true
      invariant p0 <= p <= |s|
      invariant ScanExponent(s, p0, underscores, first, false) == ScanExponent(s, p, underscores, expn, overflow)
      decreases |s| - p
    {
      ghost var q := p;
      if underscores && At(s, p) == '_' && DigitHere(s, p + 1, 10) {
        p := p + 1;
      }
      var c := ToDigit(At(s, p));
      if c >= 10 {
        break;
      }
      if !overflow {
        if expn > EXPN_LIMIT {
          overflow := true;
        } else {
          expn := expn * 10 + c;
        }
      }
      p := p + 1;
    }
  }
}
