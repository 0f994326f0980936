/** What the encoder writes, in the terms of sections 3.3, 5 and 6.1 of RFC 3492:
    letters, thresholds, variable-length integers and the bias. */
module PunycodeExact {
  import opened Arithmetic
  import opened Power
  import opened Punycode
  import Rounding

  /** Digits 0 to 25 are the letters a to z, digits 26 to 35 are 0 to 9; capital
      letters are read like small ones. */
  lemma DigitLetters(d: nat)
    requires d < 36
    ensures DigitToBasic(d) == if d < 26 then 'a' as nat + d else '0' as nat + (d - 26)
    ensures BasicToDigit(DigitToBasic(d)) == d && (d < 26 ==> BasicToDigit('A' as nat + d) == d)
  {
  }

  /** The threshold of the j-th digit is 36 * (j + 1) - bias, but at least 1 and at
      most 26. */
  lemma ThresholdIs(j: nat, bias: int)
    ensures var t := Threshold(36 * (j + 1), bias);
            && 1 <= t <= 26 && (t != 36 * (j + 1) - bias ==> if t == 1 then 36 * (j + 1) - bias < 1
                                                             else t == 26 < 36 * (j + 1) - bias)
  {
  }

  /** The value of digits: each has the weight of the one before it times 36 minus
      the threshold there. */
  ghost function Worth(text: seq<nat>, j: nat, bias: int): int {
    if text == [] then 0
    else BasicToDigit(text[0]) + (36 - Threshold(36 * (j + 1), bias)) * Worth(text[1..], j + 1, bias)
  }

  /** Only the last digit is below its threshold. */
  ghost predicate Terminated(text: seq<nat>, j: nat, bias: int) {
    text != [] && forall i :: 0 <= i < |text| ==>
      (BasicToDigit(text[i]) < Threshold(36 * (j + i + 1), bias) <==> i == |text| - 1)
  }

  /** A delta is written as a variable-length integer of that value. */
  lemma {:induction false} EmitWorth(q: nat, j: nat, bias: int)
    ensures var text := EmitDelta(q, 36 * (j + 1), bias); Worth(text, j, bias) == q && Terminated(text, j, bias)
    decreases q
  {
    var k := 36 * (j + 1);
    var t, text := Threshold(k, bias), EmitDelta(q, k, bias);
    if q < t {
      assert text == [DigitToBasic(q)] && text[1..] == [];
      assert Worth(text[1..], j + 1, bias) == 0;
    } else {
      QuotientParts(q - t, 36 - t);
      var left := (q - t) / (36 - t);
      var rest := EmitDelta(left, 36 * (j + 2), bias);
      assert 36 * (j + 1) + 36 == 36 * (j + 2);
      assert text == [DigitToBasic(t + (q - t) % (36 - t))] + rest && text[1..] == rest;
      hide Threshold, EmitDelta, Worth, Terminated, BasicToDigit;
      EmitWorth(left, j + 1, bias);
      WorthStep(text, rest, j, bias, q, left);
      MoreDigits(text, rest, j, bias);
    }
  }

  lemma WorthStep(text: seq<nat>, rest: seq<nat>, j: nat, bias: int, q: nat, left: nat)
    requires text != [] && text[1..] == rest && Worth(rest, j + 1, bias) == left
    requires var t := Threshold(36 * (j + 1), bias);
             q >= t && left == (q - t) / (36 - t) && BasicToDigit(text[0]) == t + (q - t) % (36 - t)
    ensures Worth(text, j, bias) == q
  {
    var t := Threshold(36 * (j + 1), bias);
    QuotientParts(q - t, 36 - t);
    hide Threshold, BasicToDigit;
    assert left * (36 - t) == (36 - t) * left;
  }

  lemma MoreDigits(text: seq<nat>, rest: seq<nat>, j: nat, bias: int)
    requires text != [] && text[1..] == rest && Terminated(rest, j + 1, bias)
    requires BasicToDigit(text[0]) >= Threshold(36 * (j + 1), bias)
    ensures Terminated(text, j, bias)
  {
    hide Threshold, BasicToDigit;
    forall i | 0 <= i < |text|
      ensures BasicToDigit(text[i]) < Threshold(36 * (j + i + 1), bias) <==> i == |text| - 1
    {
      if i > 0 {
        assert text[i] == rest[i - 1] && j + 1 + (i - 1) + 1 == j + i + 1;
      }
    }
  }

  // ----- the bias -----------------------------------------------------------------

  /** delta / 35^j is the first quotient that is at most 455. */
  predicate Settled(y: nat, j: nat) {
    && 0 <= y / Pow(35, j) <= 455
    && forall i :: 0 <= i < j ==> y / Pow(35, i) > 455
  }

  lemma {:induction false} ScaleIs(y: nat, k: nat) returns (j: nat)
    ensures Settled(y, j)
    ensures var d := y / Pow(35, j); Scale(y, k) == k + 36 * j + 36 * d / (d + 38)
    decreases y
  {
    PowOne(35);
    DivideBack(y, 1, 0, y);
    if y <= 455 {
      return 0;
    }
    var i := ScaleIs(y / 35, k + 36);
    j := i + 1;
    Quotients(y, i);
    forall h | 0 <= h < j
      ensures y / Pow(35, h) > 455
    {
      if h > 0 {
        Quotients(y, h - 1);
      }
    }
  }

  lemma Quotients(y: nat, i: nat)
    ensures y / Pow(35, i + 1) == y / 35 / Pow(35, i) >= 0
  {
    assert Pow(35, i + 1) == 35 * Pow(35, i);
    Rounding.Nested(y, 35, Pow(35, i));
    QuotientSmall(y / 35, Pow(35, i));
  }

  /** The bias after a delta, without a loop. The first delta is divided by 700, the
      others by 2. */
  lemma AdaptIs(delta: nat, points: nat, firstTime: bool) returns (x: nat, j: nat)
    requires delta <= 0x7FFF_FFFF && points > 0
    ensures x == if firstTime then delta / 700 else delta / 2
    ensures x / points >= 0 && Settled(x + x / points, j)
    ensures var d := (x + x / points) / Pow(35, j);
            Adapt(delta, points, firstTime) == 36 * j + 36 * d / (d + 38)
  {
    x := if firstTime then delta / 700 else delta / 2;
    QuotientSmall(x, points);
    j := ScaleIs(x + x / points, 0);
  }

  // ----- two strings ----------------------------------------------------------------

  function Codes(s: string): (r: seq<nat>)
    ensures |r| == |s| && forall i :: 0 <= i < |s| ==> r[i] == s[i] as nat
  {
    seq(|s|, i requires 0 <= i < |s| => s[i] as nat)
  }

  lemma EmitLast(q: nat, k: nat, bias: int, c: nat)
    requires q < Threshold(k, bias) && c == DigitToBasic(q)
    ensures EmitDelta(q, k, bias) == [c]
  {
  }

  lemma EmitFirst(q: nat, k: nat, bias: int, c: nat, left: nat)
    requires var t := Threshold(k, bias);
             q >= t && left == (q - t) / (36 - t) && c == DigitToBasic(t + (q - t) % (36 - t))
    ensures EmitDelta(q, k, bias) == [c] + EmitDelta(left, k + 36, bias)
  {
    QuotientParts(q - Threshold(k, bias), 36 - Threshold(k, bias));
  }

  const FIRST: seq<nat> := [0x34, 0x63, 0x61]
  const SECOND: seq<nat> := [0x30, 0x62]

  lemma TwoDeltas()
    ensures EmitDelta(100, 36, 72) == FIRST && EmitDelta(36, 36, 0) == SECOND
  {
    hide EmitDelta;
    EmitFirst(100, 36, 72, 0x34, 2);
    EmitFirst(2, 72, 72, 0x63, 0);
    EmitLast(0, 108, 72, 0x61);
    EmitFirst(36, 36, 0, 0x30, 1);
    EmitLast(1, 72, 0, 0x62);
  }

  lemma PairFacts(c: seq<nat>)
    requires c == [0xE4, 0xF6]
    ensures IsString(c) && Ucs2Decode(c) == c && CodePoints(c)
    ensures Keep(c, 0x80) == [] && Keep(c, 0xE4) == [] && Keep(c, 0xE5) == [0xE4] && Keep(c, 0xF6) == [0xE4]
            && Keep(c, 0xF7) == c
    ensures Smallest(c, 0x80, MAX_INT) == 0xE4 && Smallest(c, 0xE5, MAX_INT) == 0xF6
  {
    TwoPoints(c, 0x80);
    TwoPoints(c, 0xE4);
    TwoPoints(c, 0xE5);
    TwoPoints(c, 0xF6);
    TwoPoints(c, 0xF7);
    assert c[1..] == [0xF6] && c[1..][1..] == [];
    assert Ucs2Decode(c) == [0xE4] + ([0xF6] + Ucs2Decode([]));
  }

  lemma TwoPoints(c: seq<nat>, n: nat)
    requires |c| == 2 && c[0] < c[1] < MAX_INT
    ensures Keep(c, n) == (if c[0] < n then [c[0]] else []) + (if c[1] < n then [c[1]] else [])
    ensures Smallest(c, n, MAX_INT) == if n <= c[0] then c[0] else if n <= c[1] then c[1] else MAX_INT
  {
    assert c[1..] == [c[1]] && c[1..][1..] == [] && c[..1] == [c[0]] && c[..1][..0] == [];
    assert Keep(c[1..], n) == if c[1] < n then [c[1]] else [];
    assert Smallest(c[..1], n, MAX_INT) == if n <= c[0] then c[0] else MAX_INT;
  }

  lemma PassEnds(c: seq<nat>, n: nat, e: Enc, points: nat, b: nat)
    requires points > 0 && e.h == |Handled(c, |c|, n)|
    ensures EncodePass(c, |c|, n, e, points, b) == Ok(e)
  {
  }

  /** What a pass for `n` does at the code point x. */
  function At(x: nat, n: nat, e: Enc, points: nat, b: nat): Enc
    requires points > 0
  {
    if x < n then e.(delta := e.delta + 1) else if x == n then Emit(e, points, b) else e
  }

  lemma PassStep(c: seq<nat>, p: nat, n: nat, e: Enc, points: nat, b: nat)
    requires p < |c| && points > 0 && e.h == |Handled(c, p, n)| && e.delta < MAX_INT
    ensures At(c[p], n, e, points, b).h == |Handled(c, p + 1, n)|
    ensures EncodePass(c, p, n, e, points, b) == EncodePass(c, p + 1, n, At(c[p], n, e, points, b), points, b)
  {
    HandledStep(c, p, n);
  }

  /** One round of the main loop over a pair. */
  lemma Round(c: seq<nat>, n: nat, m: nat, e: Enc, b: nat) returns (e2: Enc)
    requires |c| == 2 && e.h < 2 && e.h == |Keep(c, n)| && (forall x :: x in c ==> x < MAX_INT)
    requires Smallest(c, n, MAX_INT) == m && n <= m && m - n <= 1000 && e.delta <= 1000
    ensures e2 == At(c[1], m, At(c[0], m, Skip(e, m - n), e.h + 1, b), e.h + 1, b) && e2.h == |Keep(c, m + 1)|
    ensures EncodeMain(c, n, e, b) == EncodeMain(c, m + 1, e2.(delta := e2.delta + 1), b)
  {
    hide EncodePass, Handled, Keep, Smallest;
    NextPass(c, n, m);
    SmallSteps(m - n, e.delta, e.h);
    var e0 := Skip(e, m - n);
    PassStep(c, 0, m, e0, e.h + 1, b);
    var e1 := At(c[0], m, e0, e.h + 1, b);
    PassStep(c, 1, m, e1, e.h + 1, b);
    hide At;
    e2 := At(c[1], m, e1, e.h + 1, b);
    PassEnds(c, m, e2, e.h + 1, b);
    HandledEnds(c, m);
  }

  lemma SmallSteps(steps: nat, delta: nat, h: nat)
    requires steps <= 1000 && delta <= 1000 && h < 2
    ensures steps <= (MAX_INT - delta) / (h + 1) && 0 <= steps * (h + 1) <= 2000
  {
  }

  lemma FirstRound(c: seq<nat>) returns (e: Enc)
    requires c == [0xE4, 0xF6]
    ensures e == Enc(FIRST, 1, 0, 1) && e.h == |Keep(c, 0xE5)|
    ensures 0 == |Keep(c, 0x80)| && EncodeMain(c, 0x80, Enc([], 0, 72, 0), 0) == EncodeMain(c, 0xE5, e, 0)
  {
    hide EncodeMain, EmitDelta, Keep, Smallest, Adapt, Ucs2Decode;
    PairFacts(c);
    TwoDeltas();
    NoBias();
    e := Round(c, 0x80, 0xE4, Enc([], 0, 72, 0), 0);
    assert [] + FIRST == FIRST;
    e := e.(delta := e.delta + 1);
  }

  lemma SecondRound(c: seq<nat>) returns (e: Enc)
    requires c == [0xE4, 0xF6]
    ensures e.out == FIRST + SECOND && e.h == |Keep(c, 0xF7)| == 2 && 1 == |Keep(c, 0xE5)|
    ensures EncodeMain(c, 0xE5, Enc(FIRST, 1, 0, 1), 0) == EncodeMain(c, 0xF7, e, 0)
  {
    hide EncodeMain, EmitDelta, Keep, Smallest, Adapt, Ucs2Decode;
    PairFacts(c);
    TwoDeltas();
    e := Round(c, 0xE5, 0xF6, Enc(FIRST, 1, 0, 1), 0);
    e := e.(delta := e.delta + 1);
  }

  lemma NoBias()
    ensures Adapt(100, 1, true) == 0
  {
  }

  lemma MainEnds(c: seq<nat>, n: nat, e: Enc, b: nat)
    requires e.h == |Keep(c, n)| == |c| && forall x :: x in c ==> x < MAX_INT
    ensures EncodeMain(c, n, e, b) == Ok(e.out)
  {
  }

  /** Two insertions into nothing: the second one uses the bias after the first. */
  lemma TwoUmlauts()
    ensures IsString([0xE4, 0xF6]) && Encode([0xE4, 0xF6]) == Ok(Codes("4ca0b"))
  {
    hide EncodeMain, EmitDelta, Keep, Smallest, Adapt, Ucs2Decode;
    var c: seq<nat> := [0xE4, 0xF6];
    PairFacts(c);
    var e1 := FirstRound(c);
    var e2 := SecondRound(c);
    MainEnds(c, 0xF7, e2, 0);
    assert [] + (if Keep(c, 0x80) == [] then [] else [DELIMITER]) == [];
    assert FIRST + SECOND == Codes("4ca0b");
  }

  /** A string of basic code points is written as it is, with a delimiter behind it. */
  lemma BasicOnly(s: seq<nat>)
    requires forall i :: 0 <= i < |s| ==> s[i] < 0x80
    ensures IsString(s) && Encode(s) == Ok(if s == [] then [] else s + Codes("-"))
  {
    PlainPoints(s);
    AllKept(s, 0x80);
    assert Codes("-") == [DELIMITER];
    var out := s + if s == [] then [] else [DELIMITER];
    MainEnds(s, 0x80, Enc(out, 0, 72, |s|), |s|);
    assert s == [] ==> out == [];
  }

  lemma {:induction false} PlainPoints(s: seq<nat>)
    requires forall i :: 0 <= i < |s| ==> s[i] < 0x80
    ensures Ucs2Decode(s) == s
  {
    if s != [] {
      PlainPoints(s[1..]);
      assert s == [s[0]] + s[1..];
    }
  }

  lemma {:induction false} AllKept(s: seq<nat>, n: nat)
    requires forall i :: 0 <= i < |s| ==> s[i] < n
    ensures Keep(s, n) == s
  {
    if s != [] {
      AllKept(s[1..], n);
      assert s == [s[0]] + s[1..];
    }
  }

  // ----- what the decoder takes -----------------------------------------------------------

  lemma {:induction false} DeltaText(text: seq<nat>, i: int, w: nat, k: nat, bias: int)
    requires w > 0
    ensures var r := ReadDelta(text, i, w, k, bias);
            r.Ok? ==>
              var n := |text| - |r.value.1|;
              n > 0 && r.value.1 == text[n..] && forall j :: 0 <= j < n ==> text[j] < 0x80
    decreases |text|
  {
    var r := ReadDelta(text, i, w, k, bias);
    if r.Ok? {
      var i1, t := i + BasicToDigit(text[0]) * w, Threshold(k, bias);
      if BasicToDigit(text[0]) >= t {
        DeltaText(text[1..], i1, w * (BASE - t), k + 36, bias);
        assert forall j :: 0 < j < |text| ==> text[j] == text[1..][j - 1];
      }
    }
  }

  lemma {:induction false} MainText(text: seq<nat>, d: Dec)
    requires DecodeMain(text, d).Ok?
    ensures forall j :: 0 <= j < |text| ==> text[j] < 0x80
    decreases |text|
  {
    if text != [] {
      DeltaText(text, d.i, 1, 36, d.bias);
      var (i, rest) := ReadDelta(text, d.i, 1, 36, d.bias).value;
      MainText(rest, Insert(d, i).value);
      hide ReadDelta, Insert;
      var n := |text| - |rest|;
      assert forall j :: n <= j < |text| ==> text[j] == rest[j - n];
    }
  }

  /** Whatever is decoded is a text of basic code points. */
  lemma OnlyBasicText(text: seq<nat>, j: nat)
    requires Decode(text).Ok? && j < |text|
    ensures text[j] < 0x80
  {
    hide Basic, DecodeMain, DecodePoints, Decode;
    DecodedParts(text);
    var b, start := Basic(text), Start(text);
    MainText(text[start..], Initial(text[..b]));
    if j >= start {
      assert text[j] == text[start..][j - start];
    } else if j < b {
      FirstPart(text, j);
    }
  }

  lemma DecodedParts(text: seq<nat>)
    requires Decode(text).Ok?
    ensures DecodePoints(text).Ok? && DecodeMain(text[Start(text)..], Initial(text[..Basic(text)])).Ok?
  {
    hide Basic, DecodeMain;
  }

  lemma FirstPart(text: seq<nat>, j: nat)
    requires DecodePoints(text).Ok? && j < Basic(text)
    ensures text[j] < 0x80
  {
    hide DecodeMain, Basic;
  }

  /** A letter or digit has its value in section 5 of RFC 3492. A character above them
      has none, but one below or between them is taken for a digit too. */
  lemma DigitExact(c: nat)
    ensures var isDigit := || 'a' as nat <= c <= 'z' as nat || 'A' as nat <= c <= 'Z' as nat
                           || '0' as nat <= c <= '9' as nat;
            (BasicToDigit(c) < 36 <==> isDigit) <==> isDigit || c > 'z' as nat
  {
  }

  /** For example the control character 0x16 is read as "a" is, so that a text that
      should be refused is decoded. */
  lemma ControlCharacterRead()
    ensures Decode([0x16]) == Ok([0x80]) == Decode(Codes("a"))
  {
    ZeroDigit(0x16);
    ZeroDigit(0x61);
    assert Codes("a") == [0x61];
  }

  lemma ZeroDigit(c: nat)
    requires BasicToDigit(c) == 0 && c != DELIMITER
    ensures Decode([c]) == Ok([0x80])
  {
    var d := Initial([]);
    assert [c][..0] == [] && [c][1..] == [] && [c][0..] == [c];
    assert Basic([c]) == 0 && Start([c]) == 0;
    assert ReadDelta([c], 0, 1, 36, 72) == Ok((0, []));
    assert Insert(d, 0).value.out == [0x80];
    assert DecodeMain([], Insert(d, 0).value) == Ok([0x80]);
    assert DecodeMain([c], d) == Ok([0x80]);
    assert DecodePoints([c]) == Ok([0x80]);
    var units: seq<nat> := [0x80];
    assert units + [] == units;
    assert FromCodePoints([0x80]) == Ok(units);
  }

  /** One code point beyond the first 65536 is a pair of surrogates. */
  lemma OnePair()
    ensures Ucs2Decode([0xD83D, 0xDE00]) == [0x1F600] && Units(0x1F600) == [0xD83D, 0xDE00]
  {
  }
}
