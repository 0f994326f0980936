/** Digits of numbers of any length: output_digits writes them, the loop of
    js_atod reads them, one limb at a time in both directions. */
module RadixDigits {
  import opened Arithmetic
  import opened Power
  import opened Limbs
  import opened Rounding
  import opened Bignum
  import opened SmallPowers

  const RADIX_BASE: seq<limb> := [
    0x00000000, 0xcfd41b91, 0x00000000, 0x48c27395,
    0x81bf1000, 0x75db9c97, 0x40000000, 0xcfd41b91,
    0x3b9aca00, 0x8c8b6d2b, 0x19a10000, 0x309f1021,
    0x57f6c100, 0x98c29b81, 0x00000000, 0x18754571,
    0x247dbc80, 0x3547667b, 0x4c4b4000, 0x6b5a6e1d,
    0x94ace180, 0xcaf18367, 0x0b640000, 0x0e8d4a51,
    0x1269ae40, 0x17179149, 0x1cb91000, 0x23744899,
    0x2b73a840, 0x34e63b41, 0x40000000, 0x4cfa3cc1,
    0x5c13d840, 0x6d91b519, 0x81bf1000
  ]

  /** radix^digits_per_limb, where the table has 0 for 2^32. */
  function LimbBase(radix: nat): nat
    requires 2 <= radix <= 36
  {
    if RADIX_BASE[radix - 2] == 0 then BASE else RADIX_BASE[radix - 2]
  }

  /** The two tables agree. */
  lemma LimbBases(radix: nat)
    requires 2 <= radix <= 36
    ensures DIGITS_PER_LIMB[radix - 2] >= 1 && LimbBase(radix) == Pow(radix, DIGITS_PER_LIMB[radix - 2]) <= BASE
  {
    if radix % 2 == 0 {
      LimbBasesEven(radix);
    } else {
      LimbBasesOdd(radix);
    }
  }

  lemma LimbBasesOdd(radix: nat)
    requires 3 <= radix <= 35 && radix % 2 == 1
    ensures DIGITS_PER_LIMB[radix - 2] >= 1 && LimbBase(radix) == Pow(radix, DIGITS_PER_LIMB[radix - 2]) <= BASE
  {
    hide Pow;
    if radix <= 17 {
      LimbBases3(radix);
    } else {
      LimbBases19(radix);
    }
  }

  lemma LimbBases3(radix: nat)
    requires 3 <= radix <= 17 && radix % 2 == 1
    ensures DIGITS_PER_LIMB[radix - 2] >= 1 && LimbBase(radix) == Pow(radix, DIGITS_PER_LIMB[radix - 2]) <= BASE
  {
    hide Pow;
    OddPowers3();
    OddPowers11();
  }

  lemma LimbBases19(radix: nat)
    requires 19 <= radix <= 35 && radix % 2 == 1
    ensures DIGITS_PER_LIMB[radix - 2] >= 1 && LimbBase(radix) == Pow(radix, DIGITS_PER_LIMB[radix - 2]) <= BASE
  {
    hide Pow;
    OddPowers19();
    OddPowers27();
  }

  lemma LimbBasesEven(radix: nat)
    requires 2 <= radix <= 36 && radix % 2 == 0
    ensures DIGITS_PER_LIMB[radix - 2] >= 1 && LimbBase(radix) == Pow(radix, DIGITS_PER_LIMB[radix - 2]) <= BASE
  {
    hide Pow;
    if radix <= 12 {
      LimbBases2(radix);
    } else {
      LimbBases14(radix);
    }
  }

  lemma LimbBases2(radix: nat)
    requires 2 <= radix <= 12 && radix % 2 == 0
    ensures DIGITS_PER_LIMB[radix - 2] >= 1 && LimbBase(radix) == Pow(radix, DIGITS_PER_LIMB[radix - 2]) <= BASE
  {
    hide Pow;
    PowTwo32();
    EvenPowers4();
  }

  lemma LimbBases14(radix: nat)
    requires 14 <= radix <= 36 && radix % 2 == 0
    ensures DIGITS_PER_LIMB[radix - 2] >= 1 && LimbBase(radix) == Pow(radix, DIGITS_PER_LIMB[radix - 2]) <= BASE
  {
    hide Pow;
    EvenPowers14();
    EvenPowers26();
  }

  lemma EvenPowers4()
    ensures Pow(4, 16) == 4294967296
    ensures Pow(6, 12) == 2176782336
    ensures Pow(8, 10) == 1073741824
    ensures Pow(10, 9) == 1000000000
    ensures Pow(12, 8) == 429981696
  {
    assert Pow(4, 8) == 65536;
    PowAdd(4, 8, 8);
    assert Pow(6, 6) == 46656;
    PowAdd(6, 6, 6);
  }

  lemma EvenPowers14()
    ensures Pow(14, 8) == 1475789056
    ensures Pow(16, 8) == 4294967296
    ensures Pow(18, 7) == 612220032
    ensures Pow(20, 7) == 1280000000
    ensures Pow(22, 7) == 2494357888
    ensures Pow(24, 6) == 191102976
  {
  }

  lemma EvenPowers26()
    ensures Pow(26, 6) == 308915776
    ensures Pow(28, 6) == 481890304
    ensures Pow(30, 6) == 729000000
    ensures Pow(32, 6) == 1073741824
    ensures Pow(34, 6) == 1544804416
    ensures Pow(36, 6) == 2176782336
  {
  }

  // ----- digits and values ---------------------------------------------------------------

  /** The n last digits of v, most significant first. */
  function DigitsOf(v: nat, radix: nat, n: nat): (r: seq<nat>)
    requires radix >= 2
    ensures |r| == n && forall i :: 0 <= i < n ==> r[i] < radix
    decreases n
  {
    if n == 0 then [] else
      QuotientSmall(v, radix);
      DigitsOf(v / radix, radix, n - 1) + [v % radix]
  }

  /** Reading digits one by one. */
  function Horner(ds: seq<nat>, radix: nat): nat
    requires radix >= 2
  {
    if ds == [] then 0 else
      Positive(Horner(ds[..|ds| - 1], radix), radix);
      Horner(ds[..|ds| - 1], radix) * radix + ds[|ds| - 1]
  }

  ghost predicate AreDigits(ds: seq<nat>, radix: nat) {
    forall i :: 0 <= i < |ds| ==> ds[i] < radix
  }

  lemma HornerSnoc(ds: seq<nat>, d: nat, radix: nat)
    requires radix >= 2
    ensures Horner(ds + [d], radix) == Horner(ds, radix) * radix + d
  {
    assert (ds + [d])[..|ds|] == ds;
  }

  /** The digits of v read as v modulo radix^n. */
  lemma {:induction false} HornerOfDigits(v: nat, radix: nat, n: nat)
    requires radix >= 2
    ensures Horner(DigitsOf(v, radix, n), radix) == v % Pow(radix, n)
    decreases n
  {
    if n == 0 {
      DivideBack(v, 1, 0, v);
    } else {
      QuotientSmall(v, radix);
      HornerOfDigits(v / radix, radix, n - 1);
      Nested(v, radix, Pow(radix, n - 1));
      var ds, last := DigitsOf(v / radix, radix, n - 1), v % radix;
      assert DigitsOf(v, radix, n) == ds + [last];
      assert Pow(radix, n) == radix * Pow(radix, n - 1);
      hide DigitsOf, Pow, Horner;
      HornerSnoc(ds, last, radix);
      Commute(Horner(ds, radix), radix);
    }
  }

  lemma Commute(a: nat, b: nat)
    ensures a * b == b * a
  {
  }

  /** And digits that are read are the digits of what they are read as. */
  lemma {:induction false} DigitsOfHorner(ds: seq<nat>, radix: nat)
    requires radix >= 2 && AreDigits(ds, radix)
    ensures DigitsOf(Horner(ds, radix), radix, |ds|) == ds && Horner(ds, radix) < Pow(radix, |ds|)
    decreases |ds|
  {
    if ds != [] {
      var n := |ds| - 1;
      DigitsOfHorner(ds[..n], radix);
      DivideBack(Horner(ds[..n], radix), radix, ds[n], Horner(ds, radix));
      Times(Horner(ds[..n], radix) + 1, Pow(radix, n), radix, radix);
      assert (Horner(ds[..n], radix) + 1) * radix == Horner(ds[..n], radix) * radix + radix;
      assert Pow(radix, |ds|) == radix * Pow(radix, n);
      assert ds == ds[..n] + [ds[n]];
    }
  }

  /** Writing in two parts. */
  lemma {:induction false} DigitsSplit(v: nat, radix: nat, n: nat, k: nat)
    requires radix >= 2
    ensures v / Pow(radix, k) >= 0 && v % Pow(radix, k) >= 0
    ensures DigitsOf(v, radix, n + k) == DigitsOf(v / Pow(radix, k), radix, n) + DigitsOf(v % Pow(radix, k), radix, k)
    decreases k
  {
    if k == 0 {
      DivideBack(v, 1, 0, v);
    } else {
      QuotientSmall(v, radix);
      QuotientSmall(v, Pow(radix, k));
      var p := Pow(radix, k - 1);
      DigitsSplit(v / radix, radix, n, k - 1);
      Nested(v, radix, p);
      assert Pow(radix, k) == radix * p;
      DivideBack(v / radix % p, radix, v % radix, v % (radix * p));
      assert v / radix / p == v / Pow(radix, k);
      assert v % Pow(radix, k) / radix == v / radix % p && v % Pow(radix, k) % radix == v % radix;
    }
  }

  /** Only v modulo radix^n matters. */
  lemma SameDigits(v: nat, w: nat, radix: nat, n: nat)
    requires radix >= 2 && v % Pow(radix, n) == w % Pow(radix, n)
    ensures DigitsOf(v, radix, n) == DigitsOf(w, radix, n)
  {
    QuotientSmall(v, Pow(radix, n));
    QuotientSmall(w, Pow(radix, n));
    DigitsSplit(v, radix, 0, n);
    DigitsSplit(w, radix, 0, n);
  }

  lemma Distributes2(x: nat, p: nat, y: nat, radix: nat)
    ensures (x * p + y) * radix == x * (radix * p) + y * radix
  {
  }

  // ----- printing --------------------------------------------------------------------------

  function DigitChar(d: nat): (c: char)
    requires d < 36
    ensures ToDigit(c) == d
  {
    if d < 10 then ('0' as int + d) as char else ('a' as int + d - 10) as char
  }

  /** to_digit; 36 for what is not a digit. */
  function ToDigit(c: char): (d: nat)
    ensures d <= 36
  {
    if '0' <= c <= '9' then c as int - '0' as int
    else if 'A' <= c <= 'Z' then c as int - 'A' as int + 10
    else if 'a' <= c <= 'z' then c as int - 'a' as int + 10
    else 36
  }

  function Chars(ds: seq<nat>): (r: seq<char>)
    requires forall i :: 0 <= i < |ds| ==> ds[i] < 36
    ensures |r| == |ds| && forall i :: 0 <= i < |ds| ==> r[i] == DigitChar(ds[i])
  {
    seq(|ds|, i requires 0 <= i < |ds| => DigitChar(ds[i]))
  }

  /** limb_to_a, and u32toa_len for radix 10. */
  method LimbToA(buf: array<char>, at: nat, n0: nat, radix: nat, len: nat)
    requires 2 <= radix <= 36 && at + len <= buf.Length
    modifies buf
    ensures buf[at..at + len] == Chars(DigitsOf(n0, radix, len))
    ensures buf[..at] == old(buf[..at]) && buf[at + len..] == old(buf[at + len..])
  {
    hide DigitChar, DigitsOf, Chars;
    EmptyChars();
    var n: nat, i: nat := n0, len;
    ghost var rest: seq<nat> := [];
    assert buf[at + len..at + len] == [];
    while i > 0
      invariant i <= len && |rest| == len - i && forall k :: 0 <= k < |rest| ==> rest[k] < 36
      invariant DigitsOf(n, radix, i) + rest == DigitsOf(n0, radix, len)
      invariant buf[at + i..at + len] == Chars(rest)
      invariant buf[..at] == old(buf[..at]) && buf[at + len..] == old(buf[at + len..])
    {
      i := i - 1;
      DigitsLast(n, radix, i);
      var digit := n % radix;
      ghost var old1 := buf[at + i + 1..at + len];
      PrependDigit(DigitsOf(n / radix, radix, i), digit, rest);
      n := n / radix;
      buf[at + i] := DigitChar(digit);
      assert buf[at + i..at + len] == [DigitChar(digit)] + old1;
      rest := [digit] + rest;
    }
    assert DigitsOf(n, radix, 0) + rest == rest;
  }

  lemma EmptyChars()
    ensures Chars([]) == []
  {
  }

  lemma PrependDigit(a: seq<nat>, d: nat, rest: seq<nat>)
    requires d < 36 && forall k :: 0 <= k < |rest| ==> rest[k] < 36
    ensures (a + [d]) + rest == a + ([d] + rest)
    ensures (forall k :: 0 <= k < |[d] + rest| ==> ([d] + rest)[k] < 36)
            && Chars([d] + rest) == [DigitChar(d)] + Chars(rest)
  {
  }

  lemma DigitsLast(n: nat, radix: nat, i: nat)
    requires radix >= 2
    ensures n / radix >= 0 && DigitsOf(n, radix, i + 1) == DigitsOf(n / radix, radix, i) + [n % radix]
  {
    QuotientSmall(n, radix);
  }

  predicate IsPowerOfTwo(radix: nat) {
    radix == 2 || radix == 4 || radix == 8 || radix == 16 || radix == 32
  }

  function RadixBits(radix: nat): nat {
    if radix == 2 then 1 else if radix == 4 then 2 else if radix == 8 then 3 else if radix == 16 then 4 else 5
  }

  /** For a power of two the lowest limb holds a limb's worth of digits. */
  lemma LowLimb(s: seq<limb>, radix: nat, n: nat)
    requires s != [] && 2 <= radix <= 36 && IsPowerOfTwo(radix) && n <= DIGITS_PER_LIMB[radix - 2]
    ensures DigitsOf(s[0], radix, n) == DigitsOf(Value(s), radix, n)
    ensures Pow(radix, DIGITS_PER_LIMB[radix - 2]) == Pow(2, DIGITS_PER_LIMB[radix - 2] * RadixBits(radix))
  {
    var b, d := RadixBits(radix), DIGITS_PER_LIMB[radix - 2];
    BitsFit(radix);
    hide DIGITS_PER_LIMB, RadixBits, IsPowerOfTwo, Pow, DigitsOf;
    PowPow(2, b, d);
    PowPow(2, b, n);
    Times(n, d, b, b);
    Commute(b, d);
    Commute(b, n);
    PowAdd(2, b * n, 32 - b * n);
    PowTwo32();
    ValueFirst(s);
    Congruent(s[0], Value(s[1..]), Pow(2, b * n), Pow(2, 32 - b * n), Value(s));
    SameDigits(s[0], Value(s), radix, n);
  }

  lemma ValueFirst(s: seq<limb>)
    requires s != []
    ensures Value(s) == s[0] + BASE * Value(s[1..])
  {
  }

  lemma BitsFit(radix: nat)
    requires 2 <= radix <= 36 && IsPowerOfTwo(radix)
    ensures Pow(2, RadixBits(radix)) == radix && DIGITS_PER_LIMB[radix - 2] * RadixBits(radix) <= 32
  {
    SmallPow2();
    hide Pow;
  }

  lemma Congruent(first: nat, rest: nat, p: nat, c: nat, whole: nat)
    requires p > 0 && p * c == BASE && whole == first + BASE * rest
    ensures whole % p == first % p
  {
    var a, m := first / p, first % p;
    assert first == a * p + m;
    QuotientSmall(first, p);
    Positive(c, rest);
    assert BASE * rest == (c * rest) * p;
    assert (a + c * rest) * p == a * p + (c * rest) * p;
    DivideBack(a + c * rest, p, m, whole);
  }

  /** One round: the last n digits, and what is left of the number. */
  method OutputLimb(buf: array<char>, at: nat, a: Mpb, radix: nat, n: nat, last: bool)
    requires 2 <= radix <= 36 && a.Valid() && at + n <= buf.Length && n <= DIGITS_PER_LIMB[radix - 2]
    requires last || n == DIGITS_PER_LIMB[radix - 2]
    requires buf != (a.tab as object)
    modifies buf, a, a.tab
    ensures buf[at..at + n] == Chars(DigitsOf(old(a.Val()), radix, n))
    ensures buf[..at] == old(buf[..at]) && buf[at + n..] == old(buf[at + n..])
    ensures a.Valid() && (!last ==> a.Val() == old(a.Val()) / Pow(radix, n))
  {
    hide Value, Pow, DigitsOf, Chars, Round;
    ghost var v := a.Val();
    LimbBases(radix);
    if IsPowerOfTwo(radix) {
      LowLimb(a.tab[..a.len], radix, n);
      LimbToA(buf, at, a.tab[0], radix, n);
      if !last {
        assert a.Val() == v;
        a.ShrRound(n * RadixBits(radix), RNDZ);
        Truncated(v, Pow(2, n * RadixBits(radix)));
      }
    } else {
      assert RADIX_BASE[radix - 2] != 0 by { NoZeroBase(radix); }
      var r := MpDiv1(a.tab, a.tab, a.len, RADIX_BASE[radix - 2], 0);
      DivideBack(Value(a.tab[..a.len]), RADIX_BASE[radix - 2], r, v);
      a.Renorm();
      RemainderDigits(v, radix, n);
      LimbToA(buf, at, r, radix, n);
    }
  }

  lemma NoZeroBase(radix: nat)
    requires 2 <= radix <= 36 && !IsPowerOfTwo(radix)
    ensures RADIX_BASE[radix - 2] != 0
  {
  }

  lemma Truncated(v: nat, p: nat)
    requires p > 0
    ensures Round(v, p, RNDZ) == v / p
  {
  }

  lemma RemainderDigits(v: nat, radix: nat, n: nat)
    requires 2 <= radix <= 36 && n <= DIGITS_PER_LIMB[radix - 2]
    ensures v % Pow(radix, DIGITS_PER_LIMB[radix - 2]) >= 0
    ensures DigitsOf(v % Pow(radix, DIGITS_PER_LIMB[radix - 2]), radix, n) == DigitsOf(v, radix, n)
  {
    hide Pow, DigitsOf;
    var d := DIGITS_PER_LIMB[radix - 2];
    PowAdd(radix, n, d - n);
    hide DIGITS_PER_LIMB;
    var p, q := Pow(radix, n), Pow(radix, d - n);
    ModuloTwice(v, p, q);
    SameDigits(v % (p * q), v, radix, n);
  }

  lemma ModuloTwice(v: nat, p: nat, q: nat)
    requires p > 0 && q > 0
    ensures p * q > 0 && 0 <= v % (p * q) && v % (p * q) % p == v % p
  {
    Nested(v, p, q);
    QuotientSmall(v, p);
    var x, w := v / p % q, v % (p * q);
    Commute(x, p);
    DivideBack(x, p, v % p, w);
  }

  function WithDot(s: seq<char>, dotPos: nat): seq<char>
    requires dotPos <= |s|
  {
    if dotPos == |s| then s else s[..dotPos] + ['.'] + s[dotPos..]
  }

  lemma TwoRounds(v: nat, radix: nat, k: nat, n: nat)
    requires 2 <= radix <= 36
    ensures v / Pow(radix, k) >= 0
    ensures DigitsOf(v, radix, n + k) == DigitsOf(v / Pow(radix, k), radix, n) + DigitsOf(v, radix, k)
    ensures v / Pow(radix, k) / Pow(radix, n) == v / Pow(radix, k + n)
  {
    DigitsSplit(v, radix, n, k);
    PowAdd(radix, k, n);
    hide Pow, DigitsOf;
    var p := Pow(radix, k);
    QuotientSmall(v, p);
    DivideBack(0, p, v % p, v % p);
    SameDigits(v % p, v, radix, k);
    Nested(v, p, Pow(radix, n));
  }

  lemma CharsAppend(a: seq<nat>, b: seq<nat>)
    requires forall i :: 0 <= i < |a| ==> a[i] < 36
    requires forall i :: 0 <= i < |b| ==> b[i] < 36
    ensures (forall i :: 0 <= i < |a + b| ==> (a + b)[i] < 36) && Chars(a + b) == Chars(a) + Chars(b)
  {
  }

  function Smaller(a: nat, b: nat): nat {
    if a < b then a else b
  }

  /** What is left of `v` when its last k digits are gone. */
  function Leftover(v: nat, radix: nat, k: nat): nat
    requires radix > 0
  {
    v / Pow(radix, k)
  }

  /** From `at` on, `s` shows the k last digits, and then what `s0` has there. */
  ghost predicate Printed(s: seq<char>, s0: seq<char>, v: nat, radix: nat, at: nat, k: nat)
    requires 2 <= radix <= 36
  {
    && at + k <= |s| == |s0|
    && s[at..at + k] == Chars(DigitsOf(v, radix, k)) && s[at + k..] == s0[at + k..]
  }

  lemma MorePrinted(s: seq<char>, t: seq<char>, s0: seq<char>, v: nat, radix: nat, at: nat, n: nat, k: nat)
    requires 2 <= radix <= 36 && Printed(s, s0, v, radix, at + n, k) && |t| == |s|
    requires t[at..at + n] == Chars(DigitsOf(Leftover(v, radix, k), radix, n)) && t[at + n..] == s[at + n..]
    ensures Printed(t, s0, v, radix, at, n + k)
  {
    TwoRounds(v, radix, k, n);
    CharsAppend(DigitsOf(Leftover(v, radix, k), radix, n), DigitsOf(v, radix, k));
    hide Chars, DigitsOf, Leftover, Pow;
    assert t[at + n..][..k] == s[at + n..][..k] && t[at + n..][k..] == s[at + n..][k..];
    assert t[at + n..][..k] == t[at + n..at + n + k] && t[at + n..][k..] == t[at + n + k..];
    assert s[at + n..][..k] == s[at + n..at + n + k] && s[at + n..][k..] == s[at + n + k..];
    assert t[at..at + n + k] == t[at..at + n] + t[at + n..at + n + k];
    assert k + n == n + k && at + (n + k) == at + n + k;
  }

  /** One round, together with what has been printed before. */
  method PrintRound(buf: array<char>, at: nat, a: Mpb, radix: nat, n: nat, last: bool, ghost v: nat, ghost k: nat,
                    ghost s0: seq<char>)
    requires 2 <= radix <= 36 && a.Valid() && at + n + k <= buf.Length && n <= DIGITS_PER_LIMB[radix - 2]
    requires last || n == DIGITS_PER_LIMB[radix - 2]
    requires buf != (a.tab as object)
    requires a.Val() == Leftover(v, radix, k) && Printed(buf[..], s0, v, radix, at + n, k)
    modifies buf, a, a.tab
    ensures a.Valid() && (!last ==> a.Val() == Leftover(v, radix, n + k))
    ensures Printed(buf[..], s0, v, radix, at, n + k)
  {
    TwoRounds(v, radix, k, n);
    assert k + n == n + k;
    ghost var s := buf[..];
    hide Value, DigitsOf, Chars, DIGITS_PER_LIMB, Printed;
    OutputLimb(buf, at, a, radix, n, last);
    assert buf[..][at..at + n] == buf[at..at + n] && buf[..][at + n..] == buf[at + n..]
           && s[at + n..] == old(buf[at + n..]);
    MorePrinted(s, buf[..], s0, v, radix, at, n, k);
  }

  lemma PrintStart(v: nat, radix: nat)
    requires 2 <= radix <= 36
    ensures |DIGITS_PER_LIMB| == 35 && DIGITS_PER_LIMB[radix - 2] >= 1
    ensures Leftover(v, radix, 0) == v
    ensures forall s: seq<char>, at: nat :: at <= |s| ==> Printed(s, s, v, radix, at, 0)
  {
    LimbBases(radix);
    PowOne(radix);
    DivideBack(v, 1, 0, v);
    NoDigits(v, radix);
  }

  /** The loop of output_digits. */
  method PrintLoop(buf: array<char>, a: Mpb, radix: nat, nDigits1: nat)
    requires 2 <= radix <= 36 && a.Valid() && nDigits1 <= buf.Length && buf != (a.tab as object)
    modifies buf, a, a.tab
    ensures Printed(buf[..], old(buf[..]), old(a.Val()), radix, 0, nDigits1)
  {
    PrintStart(a.Val(), radix);
    hide Value, Pow, DIGITS_PER_LIMB, Leftover, Printed;
    ghost var v, s0 := a.Val(), buf[..];
    var d := DIGITS_PER_LIMB[radix - 2];
    var nDigits: nat := nDigits1;
    while nDigits != 0
      invariant nDigits <= nDigits1 && a.Valid() && Printed(buf[..], s0, v, radix, nDigits, nDigits1 - nDigits)
      invariant nDigits > 0 ==> a.Val() == Leftover(v, radix, nDigits1 - nDigits)
    {
      ghost var k := nDigits1 - nDigits;
      var n := Smaller(nDigits, d);
      nDigits := nDigits - n;
      PrintRound(buf, nDigits, a, radix, n, nDigits == 0, v, k, s0);
    }
  }

  method PrintDigits(buf: array<char>, a: Mpb, radix: nat, nDigits1: nat)
    requires 2 <= radix <= 36 && a.Valid() && nDigits1 <= buf.Length && buf != (a.tab as object)
    modifies buf, a, a.tab
    ensures buf[..nDigits1] == Chars(DigitsOf(old(a.Val()), radix, nDigits1))
    ensures buf[nDigits1..] == old(buf[nDigits1..])
  {
    hide Value, DigitsOf, Chars, Printed;
    ghost var v, s0 := a.Val(), buf[..];
    PrintLoop(buf, a, radix, nDigits1);
    AllPrinted(buf[..], s0, v, radix, nDigits1);
    assert buf[..][..nDigits1] == buf[..nDigits1] && buf[..][nDigits1..] == buf[nDigits1..];
    assert s0[nDigits1..] == old(buf[nDigits1..]);
  }

  lemma AllPrinted(s: seq<char>, s0: seq<char>, v: nat, radix: nat, n: nat)
    requires 2 <= radix <= 36 && Printed(s, s0, v, radix, 0, n)
    ensures n <= |s| == |s0| && s[..n] == Chars(DigitsOf(v, radix, n)) && s[n..] == s0[n..]
  {
    assert s[0..n] == s[..n];
  }

  lemma NoDigits(v: nat, radix: nat)
    requires radix >= 2
    ensures DigitsOf(v, radix, 0) == [] && Chars([]) == []
  {
  }

  /** output_digits: the n last digits of the number, and the dot. */
  method OutputDigits(buf: array<char>, a: Mpb, radix: nat, nDigits1: nat, dotPos: nat) returns (len: nat)
    requires 2 <= radix <= 36 && a.Valid() && dotPos <= nDigits1 < buf.Length && buf != (a.tab as object)
    modifies buf, a, a.tab
    ensures len <= buf.Length && buf[..len] == WithDot(Chars(DigitsOf(old(a.Val()), radix, nDigits1)), dotPos)
  {
    hide Value, DigitsOf, Chars, WithDot;
    WithoutDot(Chars(DigitsOf(a.Val(), radix, nDigits1)));
    PrintDigits(buf, a, radix, nDigits1);
    len := nDigits1;
    if dotPos != nDigits1 {
      InsertDot(buf, nDigits1, dotPos);
      len := len + 1;
    }
  }

  lemma WithoutDot(s: seq<char>)
    ensures WithDot(s, |s|) == s
  {
  }

  /** The memmove that makes room for the dot. */
  method InsertDot(buf: array<char>, n: nat, dotPos: nat)
    requires dotPos <= n < buf.Length
    modifies buf
    ensures dotPos != n ==> buf[..n + 1] == WithDot(old(buf[..n]), dotPos)
  {
    ghost var s := buf[..n];
    var i := n;
    while i > dotPos
      invariant dotPos <= i <= n
      invariant forall k :: 0 <= k < i && k < n ==> buf[k] == s[k]
      invariant forall k :: i < k <= n ==> buf[k] == s[k - 1]
    {
      buf[i] := buf[i - 1];
      i := i - 1;
    }
    buf[dotPos] := '.';
    if dotPos != n {
      DotInserted(s, buf[..n + 1], dotPos);
    }
  }

  lemma DotInserted(s: seq<char>, t: seq<char>, dotPos: nat)
    requires dotPos < |s| && |t| == |s| + 1 && t[dotPos] == '.'
    requires forall k :: 0 <= k < dotPos ==> t[k] == s[k]
    requires forall k :: dotPos < k < |t| ==> t[k] == s[k - 1]
    ensures t == WithDot(s, dotPos)
  {
    assert t[..dotPos] == s[..dotPos] && t[dotPos + 1..] == s[dotPos..];
    assert t == t[..dotPos] + [t[dotPos]] + t[dotPos + 1..];
  }

  // ----- reading ---------------------------------------------------------------------------

  function Values(s: seq<char>): (r: seq<nat>)
    ensures |r| == |s| && forall i :: 0 <= i < |s| ==> r[i] == ToDigit(s[i])
  {
    seq(|s|, i requires 0 <= i < |s| => ToDigit(s[i]))
  }

  /** Some digit from `lo` to `hi` is not zero. */
  ghost predicate AnyDigit(ds: seq<nat>, lo: nat, hi: nat)
    requires hi <= |ds|
  {
    exists j :: lo <= j < hi && ds[j] != 0
  }

  /** Between two digits: a number, and the digits of the next limb. */
  ghost predicate Reading(v: nat, len: nat, cur: nat, count: nat, ds: seq<nat>, radix: nat, perLimb: nat, groups: nat)
    requires radix >= 2
  {
    && count < perLimb && cur < Pow(radix, count) && v * Pow(radix, count) + cur == Horner(ds, radix)
    && len <= 1 + groups && groups * perLimb + count == |ds|
  }

  method StartReading(tmp0: Mpb, radix: nat)
    requires tmp0.tab.Length >= 1 && 2 <= radix <= 36
    modifies tmp0, tmp0.tab
    ensures tmp0.Valid()
    ensures Reading(tmp0.Val(), tmp0.len, 0, 0, [], radix, DIGITS_PER_LIMB[radix - 2], 0)
  {
    LimbBases(radix);
    hide DIGITS_PER_LIMB, LimbBase;
    tmp0.len := 1;
    tmp0.tab[0] := 0;
    assert tmp0.tab[..1] == [0];
    ValueOne(0);
  }

  lemma RoomLeft(v: nat, len: nat, cur: nat, count: nat, ds: seq<nat>, radix: nat, perLimb: nat, groups: nat,
                 maxDigits: nat)
    requires radix >= 2 && Reading(v, len, cur, count, ds, radix, perLimb, groups) && |ds| <= maxDigits
    ensures perLimb > 0 && len <= 1 + maxDigits / perLimb
  {
    hide Pow, Horner;
    Positive(groups, perLimb);
    Above(maxDigits, perLimb, groups);
  }

  /** One digit; a full limb is moved into the number. */
  method AddDigit(tmp0: Mpb, cur0: nat, count0: nat, c: nat, radix: nat, ghost ds: seq<nat>, ghost groups0: nat)
    returns (cur: nat, count: nat, ghost groups: nat)
    requires 2 <= radix <= 36 && c < radix && tmp0.Valid() && tmp0.len + 1 < tmp0.tab.Length
    requires Reading(tmp0.Val(), tmp0.len, cur0, count0, ds, radix, DIGITS_PER_LIMB[radix - 2], groups0)
    modifies tmp0, tmp0.tab
    ensures tmp0.Valid() && Reading(tmp0.Val(), tmp0.len, cur, count, ds + [c], radix, DIGITS_PER_LIMB[radix - 2],
                                    groups)
  {
    LimbBases(radix);
    PowOne(radix);
    var perLimb := DIGITS_PER_LIMB[radix - 2];
    hide Value, Pow, Horner, LimbBase;
    OneMore(ds, c, radix, tmp0.Val(), cur0, count0, perLimb);
    cur := cur0 * radix + c;
    count := count0 + 1;
    groups := groups0;
    if count == perLimb {
      Flush(tmp0, radix, cur);
      assert (groups + 1) * perLimb == groups * perLimb + perLimb;
      assert tmp0.Val() * Pow(radix, 0) == tmp0.Val();
      groups := groups + 1;
      cur, count := 0, 0;
    }
  }

  /** The digits that do not fill a limb. */
  method LastLimb(tmp0: Mpb, cur: nat, count: nat, radix: nat, ghost ds: seq<nat>, ghost groups: nat)
    requires 2 <= radix <= 36 && tmp0.Valid() && tmp0.len + 1 < tmp0.tab.Length
    requires Reading(tmp0.Val(), tmp0.len, cur, count, ds, radix, DIGITS_PER_LIMB[radix - 2], groups)
    modifies tmp0, tmp0.tab
    ensures tmp0.Valid() && tmp0.Val() == Horner(ds, radix)
  {
    LimbBases(radix);
    PowOne(radix);
    var perLimb := DIGITS_PER_LIMB[radix - 2];
    hide Value, Pow, Horner, LimbBase, DIGITS_PER_LIMB;
    if count != 0 {
      PowMonotone(radix, count, perLimb - 1);
      PowerFits(radix, perLimb);
      var base := PowUi(radix, count);
      tmp0.Mul1Base(base, cur);
    } else {
      assert tmp0.Val() * Pow(radix, 0) == tmp0.Val();
    }
  }

  lemma PowerFits(radix: nat, d: nat)
    requires 2 <= radix && d >= 1 && Pow(radix, d) <= BASE
    ensures Pow(radix, d - 1) < BASE
  {
    assert Pow(radix, d) == radix * Pow(radix, d - 1);
    hide Pow;
    Times(2, radix, Pow(radix, d - 1), Pow(radix, d - 1));
  }

  /** One more digit in the current limb. */
  lemma OneMore(ds: seq<nat>, c: nat, radix: nat, v: nat, cur: nat, count: nat, perLimb: nat)
    requires radix >= 2 && c < radix && cur < Pow(radix, count) && count < perLimb
    requires v * Pow(radix, count) + cur == Horner(ds, radix) && Pow(radix, perLimb) <= BASE
    ensures 0 <= cur * radix + c < Pow(radix, count + 1) <= BASE
    ensures v * Pow(radix, count + 1) + (cur * radix + c) == Horner(ds + [c], radix)
  {
    HornerSnoc(ds, c, radix);
    PowMonotone(radix, count + 1, perLimb);
    assert Pow(radix, count + 1) == radix * Pow(radix, count);
    hide Pow, Horner;
    Distributes2(v, Pow(radix, count), cur, radix);
    AddedDigit(cur, Pow(radix, count), radix, c);
  }

  lemma AddedDigit(cur: nat, p: nat, radix: nat, c: nat)
    requires cur < p && c < radix
    ensures 0 <= cur * radix + c < radix * p
  {
    Times(cur + 1, p, radix, radix);
    assert (cur + 1) * radix == cur * radix + radix;
  }

  /** mpb_mul1_base with the base of a whole limb. */
  method Flush(tmp0: Mpb, radix: nat, cur: nat)
    requires 2 <= radix <= 36 && tmp0.Valid() && tmp0.len + 1 < tmp0.tab.Length && cur < BASE
    modifies tmp0, tmp0.tab
    ensures tmp0.Valid() && tmp0.Val() == old(tmp0.Val()) * Pow(radix, DIGITS_PER_LIMB[radix - 2]) + cur
    ensures tmp0.len <= old(tmp0.len) + 1
  {
    LimbBases(radix);
    hide Value, Pow;
    tmp0.Mul1Base(RADIX_BASE[radix - 2], cur);
  }

  /** What is printed reads as the number, if it has no more digits. */
  lemma PrintAndRead(v: nat, radix: nat, n: nat)
    requires 2 <= radix <= 36
    ensures AreDigits(Values(Chars(DigitsOf(v, radix, n))), radix)
    ensures Horner(Values(Chars(DigitsOf(v, radix, n))), radix) == v % Pow(radix, n)
    ensures v < Pow(radix, n) ==> Horner(Values(Chars(DigitsOf(v, radix, n))), radix) == v
  {
    var ds := DigitsOf(v, radix, n);
    assert Values(Chars(ds)) == ds;
    HornerOfDigits(v, radix, n);
    if v < Pow(radix, n) { DivideBack(0, Pow(radix, n), v, v); }
  }

  /** What is read prints as the digits that were read, in lower case. */
  lemma ReadAndPrint(s: seq<char>, radix: nat)
    requires 2 <= radix <= 36 && AreDigits(Values(s), radix)
    ensures Values(Chars(DigitsOf(Horner(Values(s), radix), radix, |s|))) == Values(s)
  {
    DigitsOfHorner(Values(s), radix);
  }
}
