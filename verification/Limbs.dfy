/** Numbers as arrays of 32-bit limbs, least significant first, and the loops of
    dtoa.c over them. */
module Limbs {
  import opened Arithmetic
  import opened Power

  const BASE: nat := 0x1_0000_0000
  const LIMB_BITS: nat := 32

  type limb = x: int | 0 <= x < 0x1_0000_0000

  function Value(s: seq<limb>): nat {
    if s == [] then 0 else s[0] + BASE * Value(s[1..])
  }

  lemma {:induction false} ValueAppend(s: seq<limb>, t: seq<limb>)
    ensures Value(s + t) == Value(s) + Pow(BASE, |s|) * Value(t)
  {
    if s == [] {
      assert s + t == t;
    } else {
      assert (s + t)[1..] == s[1..] + t;
      ValueAppend(s[1..], t);
      assert Pow(BASE, |s|) == BASE * Pow(BASE, |s| - 1);
      var p, v := Pow(BASE, |s| - 1), Value(t);
      assert BASE * (p * v) == (BASE * p) * v;
    }
  }

  lemma ValueOne(x: limb)
    ensures Value([x]) == x
  {
    assert [x][1..] == [];
  }

  lemma ValueSnoc(s: seq<limb>, x: limb)
    ensures Value(s + [x]) == Value(s) + Pow(BASE, |s|) * x
  {
    ValueAppend(s, [x]);
    ValueOne(x);
  }

  lemma ValueCons(x: limb, s: seq<limb>)
    ensures Value([x] + s) == x + BASE * Value(s)
  {
    assert ([x] + s)[1..] == s;
  }

  lemma {:induction false} ValueBelow(s: seq<limb>)
    ensures Value(s) < Pow(BASE, |s|)
  {
    if s != [] {
      ValueBelow(s[1..]);
      var p, v := Pow(BASE, |s| - 1), Value(s[1..]);
      assert BASE * v <= BASE * (p - 1);
    }
  }

  lemma {:induction false} ValueZero(s: seq<limb>)
    ensures Value(s) == 0 <==> forall i :: 0 <= i < |s| ==> s[i] == 0
  {
    if s != [] {
      ValueZero(s[1..]);
    }
  }

  lemma LowHigh(t: nat)
    ensures t == t % BASE + BASE * (t / BASE)
    ensures t < BASE * BASE ==> t / BASE < BASE
  {
    QuotientCheck(t, BASE, BASE);
  }

  lemma LimbProduct(a: limb, b: limb, l: limb)
    ensures 0 <= a * b + l < BASE * BASE
  {
    Times(a, BASE - 1, b, BASE - 1);
    assert a * b >= 0;
  }

  // ----- multiplication -----------------------------------------------------------------

  lemma Mul1Step(vr: nat, va: nat, p: nat, a: limb, b: limb, l: nat, l0: nat, lo: nat, hi: nat)
    requires vr + p * l == va * b + l0 && lo + BASE * hi == a * b + l
    ensures (vr + p * lo) + (BASE * p) * hi == (va + p * a) * b + l0
  {
    assert p * lo + (BASE * p) * hi == p * (lo + BASE * hi);
    assert p * (a * b + l) == (p * a) * b + p * l;
  }

  /** tabr[] = taba[] * b + l; the result is the carry. */
  method MpMul1(tabr: array<limb>, taba: array<limb>, n: nat, b: limb, l0: limb) returns (l: limb)
    requires n <= tabr.Length && n <= taba.Length
    modifies tabr
    ensures Value(tabr[..n]) + Pow(BASE, n) * l == old(Value(taba[..n])) * b + l0
    ensures tabr[n..] == old(tabr[n..])
  {
    hide Value, Pow;
    ghost var s := taba[..];
    l := l0;
    assert taba[..0] == [] && tabr[..0] == [];
    EmptyValue();
    var i := 0;
    while i < n
      invariant i <= n && forall k :: i <= k < n ==> taba[k] == s[k]
      invariant forall k :: n <= k < tabr.Length ==> tabr[k] == old(tabr[k])
      invariant Value(tabr[..i]) + Pow(BASE, i) * l == Value(s[..i]) * b + l0
    {
      LimbProduct(taba[i], b, l);
      var t := taba[i] * b + l;
      LowHigh(t);
      ghost var r := tabr[..i];
      tabr[i] := t % BASE;
      assert tabr[..i + 1] == r + [tabr[i]] && s[..i + 1] == s[..i] + [s[i]];
      ValueSnoc(r, tabr[i]);
      ValueSnoc(s[..i], s[i]);
      Mul1Step(Value(r), Value(s[..i]), Pow(BASE, i), s[i], b, l, l0, t % BASE, t / BASE);
      assert Pow(BASE, i + 1) == BASE * Pow(BASE, i) by { PowNext(i); }
      l := t / BASE;
      i := i + 1;
    }
    assert s[..n] == old(taba[..n]);
  }

  lemma EmptyValue()
    ensures Value([]) == 0 && Pow(BASE, 0) == 1
  {
  }

  lemma PowNext(i: nat)
    ensures Pow(BASE, i + 1) == BASE * Pow(BASE, i)
  {
  }

  /** tab[] += b; the result is the carry. */
  method MpAddUi(tab: array<limb>, b: limb, n: nat) returns (k: limb)
    requires n <= tab.Length
    modifies tab
    ensures Value(tab[..n]) + Pow(BASE, n) * k == old(Value(tab[..n])) + b
    ensures tab[n..] == old(tab[n..]) && (n > 0 ==> k <= 1)
  {
    hide Value, Pow;
    ghost var s := tab[..n];
    k := b;
    assert tab[..0] == [] && s[..0] == [];
    EmptyValue();
    var i := 0;
    while i < n && k != 0
      invariant i <= n && (i > 0 ==> k <= 1)
      invariant forall j :: i <= j < tab.Length ==> tab[j] == old(tab[j])
      invariant Value(tab[..i]) + Pow(BASE, i) * k == Value(s[..i]) + b
    {
      var a := (tab[i] + k) % BASE;
      var carry := if a < k then 1 else 0;
      ghost var r, x := tab[..i], tab[i];
      tab[i] := a;
      assert tab[..i + 1] == r + [a] && s[..i + 1] == s[..i] + [x];
      ValueSnoc(r, a);
      ValueSnoc(s[..i], x);
      PowNext(i);
      AddStep(Pow(BASE, i), a, x, k, carry);
      k := carry;
      i := i + 1;
    }
    assert tab[..n] == tab[..i] + s[i..] && s == s[..i] + s[i..];
    ValueAppend(tab[..i], s[i..]);
    ValueAppend(s[..i], s[i..]);
    if i < n { assert Pow(BASE, i) * k == 0 && Pow(BASE, n) * k == 0; }
  }

  lemma AddStep(p: nat, a: nat, x: nat, k: nat, carry: nat)
    requires a + BASE * carry == x + k
    ensures p * a + (BASE * p) * carry == p * x + p * k
  {
    assert p * (a + BASE * carry) == p * a + (BASE * p) * carry;
  }

  // ----- division -------------------------------------------------------------------------

  lemma DivStep(vs: nat, vq: nat, p: nat, r0: nat, r: nat, b: nat, a: limb, q: nat, r1: nat)
    requires p * r0 + vs == vq * b + r && r * BASE + a == q * b + r1
    ensures (BASE * p) * r0 + (a + BASE * vs) == (q + BASE * vq) * b + r1
  {
    assert BASE * (p * r0 + vs) == (BASE * p) * r0 + BASE * vs;
    assert BASE * (vq * b + r) == (BASE * vq) * b + BASE * r;
  }

  lemma DivLimb(r: nat, a: limb, b: limb)
    requires r < b
    ensures 0 <= (r * BASE + a) / b < BASE && 0 <= (r * BASE + a) % b < b
    ensures r * BASE + a == ((r * BASE + a) / b) * b + (r * BASE + a) % b
  {
    var x := r * BASE + a;
    QuotientCheck(x, b, BASE);
    assert (r + 1) * BASE <= b * BASE;
  }

  /** tabr[] = (taba[] + r * 2^(32 n)) / b; the result is the remainder. */
  method MpDiv1(tabr: array<limb>, taba: array<limb>, n: nat, b: limb, r0: limb) returns (r: limb)
    requires n <= tabr.Length && n <= taba.Length && r0 < b
    modifies tabr
    ensures old(Value(taba[..n])) + Pow(BASE, n) * r0 == Value(tabr[..n]) * b + r && r < b
    ensures tabr[n..] == old(tabr[n..])
  {
    hide Value, Pow;
    ghost var s := taba[..n];
    r := r0;
    assert tabr[n..n] == [] && s[n..] == [];
    EmptyValue();
    var i := n;
    while i > 0
      invariant 0 <= i <= n && r < b && forall k :: 0 <= k < i ==> taba[k] == s[k]
      invariant forall k :: n <= k < tabr.Length ==> tabr[k] == old(tabr[k])
      invariant Pow(BASE, n - i) * r0 + Value(s[i..]) == Value(tabr[i..n]) * b + r
    {
      i := i - 1;
      DivLimb(r, taba[i], b);
      var a1 := r * BASE + taba[i];
      ghost var q := tabr[i + 1..n];
      tabr[i] := a1 / b;
      assert tabr[i..n] == [tabr[i]] + q && s[i..] == [s[i]] + s[i + 1..];
      ValueCons(tabr[i], q);
      ValueCons(s[i], s[i + 1..]);
      PowNext(n - i - 1);
      DivStep(Value(s[i + 1..]), Value(q), Pow(BASE, n - i - 1), r0, r, b, s[i], a1 / b, a1 % b);
      r := a1 % b;
    }
    assert s[0..] == s && tabr[0..n] == tabr[..n];
  }

  // ----- shifts ---------------------------------------------------------------------------

  lemma SplitBase(shift: nat)
    requires 1 <= shift < LIMB_BITS
    ensures Pow(2, shift) * Pow(2, LIMB_BITS - shift) == BASE
    ensures 2 <= Pow(2, shift) < BASE && 2 <= Pow(2, LIMB_BITS - shift) < BASE
    ensures BASE / Pow(2, shift) == Pow(2, LIMB_BITS - shift)
  {
    PowAdd(2, shift, LIMB_BITS - shift);
    PowTwo32();
    PowMonotone(2, 1, shift);
    PowMonotone(2, 1, LIMB_BITS - shift);
    PowOne(2);
    Factors(Pow(2, shift), Pow(2, LIMB_BITS - shift));
  }

  lemma Factors(p: nat, q: nat)
    requires p * q == BASE && 2 <= p && 2 <= q
    ensures p < BASE && q < BASE && BASE / p == q
  {
    Times(2, p, q, q);
    Times(2, q, p, p);
    DivideBack(q, p, 0, BASE);
  }

  lemma ShlLimb(a: limb, p: nat, q: nat, l: nat)
    requires p * q == BASE && 0 < p && 0 < q && l < p
    ensures (a * p) % BASE + l < BASE && a / q < p
    ensures a * p + l == ((a * p) % BASE + l) + BASE * (a / q)
  {
    var hi, lo := a / q, a % q;
    assert a == hi * q + lo;
    QuotientCheck(a, q, p);
    assert a * p == hi * BASE + lo * p by {
      assert (hi * q + lo) * p == hi * (p * q) + lo * p;
    }
    assert lo * p <= (q - 1) * p;
    DivideBack(hi, BASE, lo * p, a * p);
  }

  /** r = (a << shift) + low; the result is what is shifted out. The two parts
      joined by `|` have no bit in common, so that their sum is the same. */
  method MpShl(tabr: array<limb>, tab: array<limb>, n: nat, shift: nat, low: limb) returns (l: limb)
    requires n <= tabr.Length && n <= tab.Length && 1 <= shift < LIMB_BITS && low < Pow(2, shift)
    modifies tabr
    ensures Value(tabr[..n]) + Pow(BASE, n) * l == old(Value(tab[..n])) * Pow(2, shift) + low && l < Pow(2, shift)
    ensures tabr[n..] == old(tabr[n..])
  {
    hide Value, Pow;
    SplitBase(shift);
    ghost var s := tab[..];
    var p: limb, q: limb := Pow(2, shift), Pow(2, LIMB_BITS - shift);
    l := low;
    assert tab[..0] == [] && tabr[..0] == [];
    EmptyValue();
    var i := 0;
    while i < n
      invariant i <= n && l < p && forall k :: i <= k < n ==> tab[k] == s[k]
      invariant forall k :: n <= k < tabr.Length ==> tabr[k] == old(tabr[k])
      invariant Value(tabr[..i]) + Pow(BASE, i) * l == Value(s[..i]) * p + low
    {
      var a := tab[i];
      var hi := ShlStep(tabr[..i], s[..i], a, l, p, q, low);
      ghost var r := tabr[..i];
      tabr[i] := (a * p) % BASE + l;
      assert tabr[..i + 1] == r + [tabr[i]] && s[..i + 1] == s[..i] + [s[i]];
      l := hi;
      i := i + 1;
    }
    assert s[..n] == old(tab[..n]);
  }

  method ShlStep(ghost r: seq<limb>, ghost s: seq<limb>, a: limb, l: limb, ghost p: limb, q: limb, ghost low: limb)
    returns (hi: limb)
    requires |r| == |s| && p * q == BASE && 0 < p && 0 < q && l < p
    requires Value(r) + Pow(BASE, |r|) * l == Value(s) * p + low
    ensures hi == a / q < p && (a * p) % BASE + l < BASE
    ensures Value(r + [(a * p) % BASE + l]) + Pow(BASE, |r| + 1) * hi == Value(s + [a]) * p + low
  {
    ShlLimb(a, p, q, l);
    hi := a / q;
    hide Value, Pow;
    ghost var lo: limb := (a * p) % BASE + l;
    ValueSnoc(r, lo);
    ValueSnoc(s, a);
    PowNext(|r|);
    Mul1Step(Value(r), Value(s), Pow(BASE, |r|), a, p, l, low, lo, hi);
  }

  lemma ShrLimb(l: nat, a: limb, p: nat, q: nat)
    requires p * q == BASE && 0 < p && 0 < q
    ensures 0 <= a / p + (l % p) * q < BASE
    ensures (l % p) * BASE + a == (a / p + (l % p) * q) * p + a % p
  {
    QuotientCheck(a, p, q);
    assert a == (a / p) * p + a % p && 0 <= l % p < p && 0 <= a / p;
    ShrSum(l % p, a / p, a % p, a, p, q);
  }

  lemma ShrSum(h: nat, d: nat, m: nat, a: nat, p: nat, q: nat)
    requires p * q == BASE && h < p && d < q && a == d * p + m
    ensures d + h * q < BASE && h * BASE + a == (d + h * q) * p + m
  {
    Times(h + 1, p, q, q);
    assert (h + 1) * q == h * q + q;
    assert (d + h * q) * p == d * p + h * (q * p);
  }

  /** r = (a + high * 2^(32 n)) >> shift, as far as it fits into n limbs; the
      result is the bits shifted out. */
  method MpShr(tabr: array<limb>, tab: array<limb>, n: nat, shift: nat, high: limb) returns (low: limb)
    requires n <= tabr.Length && n <= tab.Length && 1 <= shift < LIMB_BITS
    modifies tabr
    ensures 0 <= high % Pow(2, shift) && low < Pow(2, shift)
    ensures old(Value(tab[..n])) + Pow(BASE, n) * (high % Pow(2, shift)) == Value(tabr[..n]) * Pow(2, shift) + low
    ensures tabr[n..] == old(tabr[n..])
  {
    hide Value, Pow;
    SplitBase(shift);
    ghost var s := tab[..n];
    var p: limb, q: limb := Pow(2, shift), Pow(2, LIMB_BITS - shift);
    var l: limb := high;
    ghost var h: nat := high % p;
    assert tabr[n..n] == [] && s[n..] == [];
    EmptyValue();
    var i := n;
    while i > 0
      invariant 0 <= i <= n && forall k :: 0 <= k < i ==> tab[k] == s[k]
      invariant forall k :: n <= k < tabr.Length ==> tabr[k] == old(tabr[k])
      invariant Pow(BASE, n - i) * h + Value(s[i..]) == Value(tabr[i..n]) * p + l % p
    {
      i := i - 1;
      var a := tab[i];
      ShrLimb(l, a, p, q);
      ghost var r := tabr[i + 1..n];
      tabr[i] := a / p + (l % p) * q;
      assert tabr[i..n] == [tabr[i]] + r && s[i..] == [s[i]] + s[i + 1..];
      ValueCons(tabr[i], r);
      ValueCons(s[i], s[i + 1..]);
      PowNext(n - i - 1);
      DivStep(Value(s[i + 1..]), Value(r), Pow(BASE, n - i - 1), h, l % p, p, s[i], tabr[i], a % p);
      l := a;
    }
    assert s[0..] == s && tabr[0..n] == tabr[..n];
    low := l % p;
  }
}
