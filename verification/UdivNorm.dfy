/** Division of two limbs by a normalized limb through its precomputed inverse,
    and the division of limb arrays built on it. */
module UdivNorm {
  import opened Arithmetic
  import opened Power
  import opened Limbs

  const HALF: nat := 0x8000_0000

  /** The inverse: floor((2^64 - 1) / d) - 2^32. */
  method Udiv1normInit(d: limb) returns (dInv: limb)
    requires d >= HALF
    ensures IsInverse(d, dInv)
  {
    var a1, a0 := (-(d as int) - 1) % BASE, BASE - 1;
    InverseExists(d);
    dInv := (a1 * BASE + a0) / d;
  }

  /** (2^32 + dInv) * d is 2^64 less at most d, and not 2^64 itself. */
  predicate IsInverse(d: limb, dInv: limb) {
    1 <= BASE * BASE - (BASE + dInv) * d <= d
  }

  lemma InverseExists(d: limb)
    requires d >= HALF
    ensures (-(d as int) - 1) % BASE == BASE - 1 - d
    ensures var x := (BASE - 1 - d) * BASE + (BASE - 1); 0 <= x / d < BASE && IsInverse(d, x / d)
  {
    var x := (BASE - 1 - d) * BASE + (BASE - 1);
    var q := x / d;
    assert x == q * d + x % d && q >= 0;
    assert x == BASE * BASE - BASE * d - 1;
    QuotientCheck(x, d, BASE);
    assert (BASE + q) * d == BASE * d + q * d;
  }

  // ----- the estimate ---------------------------------------------------------------------

  /** How far the estimate is from the exact quotient. */
  lemma ErrorLow(a1: nat, a0: nat, d: nat, dInv: nat, s: nat, k: nat, f: nat)
    requires (BASE + dInv) * d == BASE * BASE - s && dInv * a1 + a0 == BASE * (k - a1) + f
    ensures BASE * (a1 * BASE + a0 - k * d) == (BASE - d) * a0 + s * a1 + d * f
  {
    assert d * dInv == BASE * BASE - s - BASE * d;
    assert d * (dInv * a1 + a0) == (d * dInv) * a1 + d * a0;
    assert d * (BASE * (k - a1) + f) == BASE * (k * d) - BASE * (a1 * d) + d * f;
    assert (BASE * BASE - s - BASE * d) * a1 == BASE * BASE * a1 - s * a1 - BASE * (a1 * d);
  }

  /** a0 below 2^31: the estimate k is the quotient or one less. */
  lemma EstimateLow(a1: nat, a0: nat, d: nat, dInv: nat, s: nat, k: nat, f: nat)
    requires HALF <= d < BASE && a1 < d && a0 < HALF && 1 <= s <= d && f < BASE
    requires (BASE + dInv) * d == BASE * BASE - s && dInv * a1 + a0 == BASE * (k - a1) + f
    ensures 0 <= a1 * BASE + a0 - k * d < 2 * d
  {
    ErrorLow(a1, a0, d, dInv, s, k, f);
    BoundLow(a1, a0, d, s, f);
    Between(a1 * BASE + a0 - k * d, (BASE - d) * a0 + s * a1 + d * f, d);
  }

  lemma BoundLow(a1: nat, a0: nat, d: nat, s: nat, f: nat)
    requires HALF <= d < BASE && a1 < d && a0 < HALF && 1 <= s <= d && f < BASE
    ensures 0 <= (BASE - d) * a0 + s * a1 + d * f < 2 * d * BASE
  {
    Positive(BASE - d, a0);
    Positive(s, a1);
    Positive(d, f);
    Times(a0, HALF - 1, BASE - d, BASE - d);
    Times(s, d, a1, d - 1);
    Times(f, BASE - 1, d, d);
    Positive(d - HALF, BASE - d);
    Quadratic(d);
    SumLow((BASE - d) * a0, s * a1, d * f, d, d * d);
  }

  lemma Quadratic(d: nat)
    ensures (d - HALF) * (BASE - d) == d * BASE - d * d - HALF * BASE + HALF * d
    ensures d * (d - 1) == d * d - d
  {
  }

  lemma SumLow(x: int, y: int, z: int, d: nat, square: int)
    requires x <= (HALF - 1) * (BASE - d) && y <= square - d && z <= (BASE - 1) * d
    requires 0 <= d * BASE - square - HALF * BASE + HALF * d
    requires HALF <= d < BASE
    ensures x + y + z < 2 * d * BASE
  {
  }

  lemma ErrorHigh(a1: nat, a0: nat, d: nat, dInv: nat, s: nat, k: nat, f: nat)
    requires (BASE + dInv) * d == BASE * BASE - s && dInv * (a1 + 1) + a0 + d - BASE == BASE * (k - a1) + f
    ensures BASE * (a1 * BASE + a0 - k * d) == (BASE - d) * (a0 - (BASE - d)) + s * (a1 + 1) + d * f
  {
    assert d * dInv == BASE * BASE - s - BASE * d;
    assert d * (dInv * (a1 + 1) + a0 + d - BASE) == (d * dInv) * (a1 + 1) + d * a0 + d * d - BASE * d;
    assert d * (BASE * (k - a1) + f) == BASE * (k * d) - BASE * (a1 * d) + d * f;
    assert (BASE * BASE - s - BASE * d) * (a1 + 1)
        == BASE * BASE * a1 - s * a1 - BASE * (a1 * d) + BASE * BASE - s - BASE * d;
    assert (BASE - d) * (a0 - (BASE - d)) == BASE * a0 - d * a0 - BASE * BASE + 2 * (BASE * d) - d * d;
    assert s * (a1 + 1) == s * a1 + s;
  }

  /** a0 from 2^31 up. */
  lemma EstimateHigh(a1: nat, a0: nat, d: nat, dInv: nat, s: nat, k: nat, f: nat)
    requires HALF <= d < BASE && a1 < d && HALF <= a0 < BASE && 1 <= s <= d && f < BASE
    requires (BASE + dInv) * d == BASE * BASE - s && dInv * (a1 + 1) + a0 + d - BASE == BASE * (k - a1) + f
    ensures 0 <= a1 * BASE + a0 - k * d < 2 * d
  {
    ErrorHigh(a1, a0, d, dInv, s, k, f);
    BoundHigh(a1, a0, d, s, f);
    Between(a1 * BASE + a0 - k * d, (BASE - d) * (a0 - (BASE - d)) + s * (a1 + 1) + d * f, d);
  }

  lemma BoundHigh(a1: nat, a0: nat, d: nat, s: nat, f: nat)
    requires HALF <= d < BASE && a1 < d && HALF <= a0 < BASE && 1 <= s <= d && f < BASE
    ensures 0 <= (BASE - d) * (a0 - (BASE - d)) + s * (a1 + 1) + d * f < 2 * d * BASE
  {
    Positive(BASE - d, a0 - (BASE - d));
    Positive(s, a1 + 1);
    Positive(d, f);
    Times(a0 - (BASE - d), d - 1, BASE - d, BASE - d);
    Times(s, d, a1 + 1, d);
    Times(f, BASE - 1, d, d);
    SumHigh((BASE - d) * (a0 - (BASE - d)), s * (a1 + 1), d * f, d, d * d);
  }

  lemma SumHigh(x: int, y: int, z: int, d: nat, square: int)
    requires x <= (d - 1) * (BASE - d) && y <= square && z <= (BASE - 1) * d && square == d * d
    requires HALF <= d < BASE
    ensures x + y + z < 2 * d * BASE
  {
    assert (d - 1) * (BASE - d) == d * BASE - square - BASE + d;
  }

  lemma Between(x: int, y: int, d: nat)
    requires BASE * x == y && 0 <= y < 2 * d * BASE
    ensures 0 <= x < 2 * d
  {
  }

  /** udiv1norm: quotient and remainder of a1 * 2^32 + a0 by d. Every operation
      wraps as it does in 32 or 64 bits. An `&` with a word that is all ones or
      all zeros is a choice. */
  method Udiv1norm(a1: limb, a0: limb, d: limb, dInv: limb) returns (q: limb, r: limb)
    requires d >= HALF && a1 < d && IsInverse(d, dInv)
    ensures q * d + r == a1 * BASE + a0 && r < d
  {
    hide IsInverse;
    q := Estimate(a1, a0, d, dInv);
    q, r := Correct(a1, a0, d, q);
  }

  /** The first half: the estimate of the quotient. */
  method Estimate(a1: limb, a0: limb, d: limb, dInv: limb) returns (q: limb)
    requires d >= HALF && a1 < d && IsInverse(d, dInv)
    ensures 0 <= a1 * BASE + a0 - q * d < 2 * d
  {
    var ones := a0 >= HALF;
    var n1m: limb := if ones then BASE - 1 else 0;
    var n1: limb := (a1 - n1m) % BASE;
    var nAdj: limb := (a0 + if ones then d else 0) % BASE;
    LimbProduct(dInv, n1, nAdj);
    var x := (dInv * n1 + nAdj) % (BASE * BASE);
    q := (x / BASE + a1) % BASE;
    Wrap(a1 - n1m, if ones then a1 + 1 else a1);
    Wrap(a0 + if ones then d else 0, if ones then a0 + d - BASE else a0);
    DivideBack(0, BASE * BASE, dInv * n1 + nAdj, dInv * n1 + nAdj);
    EstimateBounds(a1, a0, d, dInv, n1, nAdj);
    NoWrap(x / BASE + a1);
  }

  lemma NoWrap(x: nat)
    ensures x < BASE ==> x % BASE == x
  {
  }

  lemma EstimateBounds(a1: limb, a0: limb, d: limb, dInv: limb, n1: limb, nAdj: limb)
    requires d >= HALF && a1 < d && IsInverse(d, dInv)
    requires n1 == (if a0 >= HALF then a1 + 1 else a1) && nAdj == if a0 >= HALF then a0 + d - BASE else a0
    ensures var k := (dInv * n1 + nAdj) / BASE + a1; 0 <= k < BASE && 0 <= a1 * BASE + a0 - k * d < 2 * d
  {
    LimbProduct(dInv, n1, nAdj);
    var x := dInv * n1 + nAdj;
    var k := x / BASE + a1;
    LowHigh(x);
    var s := BASE * BASE - (BASE + dInv) * d;
    if a0 >= HALF {
      EstimateHigh(a1, a0, d, dInv, s, k, x % BASE);
    } else {
      EstimateLow(a1, a0, d, dInv, s, k, x % BASE);
    }
    EstimateFits(a1, a0, d, k);
  }

  /** The second half: one correction of the estimate. */
  method Correct(a1: limb, a0: limb, d: limb, k: limb) returns (q: limb, r: limb)
    requires a1 < d && 0 <= a1 * BASE + a0 - k * d < 2 * d
    ensures q * d + r == a1 * BASE + a0 && r < d
  {
    ghost var m := a1 * BASE + a0 - k * d - d;
    var a := (a1 * BASE + a0 - k * d - d) % (BASE * BASE);
    var ah := a / BASE;
    WrapSmall(m, d);
    assert (k + 1) * d == k * d + d;
    EstimateFits(a1, a0, d, k);
    q := (k + 1 + ah) % BASE;
    r := (a % BASE + if ah != 0 then d else 0) % BASE;
  }

  lemma Wrap(x: int, y: int)
    requires 0 <= y < BASE && (x == y || x == y + BASE || x == y - BASE)
    ensures x % BASE == y
  {
  }

  /** A small negative number wraps to one whose high word is all ones. */
  lemma WrapSmall(m: int, d: limb)
    requires 0 <= m + d && m < d
    ensures var a := m % (BASE * BASE);
            if m < 0 then a / BASE == BASE - 1 && (a % BASE + d) % BASE == m + d else a / BASE == 0 && a % BASE == m
  {
    if m < 0 {
      var a := m + BASE * BASE;
      DivideBack(0, BASE * BASE, a, a);
      assert m % (BASE * BASE) == a by { ShiftedModulo(m, BASE * BASE); }
      DivideBack(BASE - 1, BASE, m + BASE, a);
    } else {
      DivideBack(0, BASE * BASE, m, m);
      DivideBack(0, BASE, m, m);
    }
  }

  lemma ShiftedModulo(m: int, b: nat)
    requires b > 0 && 0 <= m + b && m < 0
    ensures m % b == m + b
  {
  }

  lemma EstimateFits(a1: limb, a0: limb, d: limb, k: nat)
    requires a1 < d && 0 <= a1 * BASE + a0 - k * d
    ensures k < BASE
    ensures a1 * BASE + a0 - k * d >= d ==> k + 1 < BASE
  {
    assert (a1 + 1) * BASE <= d * BASE;
    assert (k + 1) * d == k * d + d;
    Cancel(k, BASE, d);
    Cancel(k + 1, BASE, d);
  }

  lemma Cancel(a: nat, b: nat, c: nat)
    requires c > 0
    ensures a * c < b * c ==> a < b
  {
    DivideBack(a, c, 0, a * c);
    QuotientCheck(a * c, c, b);
  }

  // ----- whole numbers --------------------------------------------------------------------

  /** The loop of mp_div1norm. */
  method DivideDown(tabr: array<limb>, taba: array<limb>, n: nat, b: limb, r0: limb, bInv: limb) returns (r: limb)
    requires n <= tabr.Length && n <= taba.Length && b >= HALF && IsInverse(b, bInv) && r0 < b
    modifies tabr
    ensures old(Value(taba[..n])) + Pow(BASE, n) * r0 == Value(tabr[..n]) * b + r && r < b
    ensures tabr[n..] == old(tabr[n..])
  {
    hide Value, Pow, IsInverse;
    ghost var s := taba[..n];
    r := r0;
    assert tabr[n..n] == [] && s[n..] == [];
    EmptyValue();
    var i := n;
    while i > 0
      invariant 0 <= i <= n && r < b && forall k :: 0 <= k < i ==> taba[k] == s[k]
      invariant forall k :: n <= k < tabr.Length ==> tabr[k] == old(tabr[k])
      invariant Pow(BASE, n - i) * r0 + Value(s[i..]) == Value(tabr[i..n]) * b + r
    {
      i := i - 1;
      ghost var q0, before := tabr[i + 1..n], r;
      var q;
      q, r := Udiv1norm(r, taba[i], b, bInv);
      tabr[i] := q;
      assert tabr[i..n] == [q] + q0 && s[i..] == [s[i]] + s[i + 1..];
      ValueCons(q, q0);
      ValueCons(s[i], s[i + 1..]);
      PowNext(n - i - 1);
      DivStep(Value(s[i + 1..]), Value(q0), Pow(BASE, n - i - 1), r0, before, b, s[i], q, r);
    }
    assert s[0..] == s && tabr[0..n] == tabr[..n];
  }

  /** mp_div1norm. The source reads taba after shifting it into tabr, which is
      right only when they are the same array. Then it divides by the divisor
      before normalization: the result is that of mp_div1. */
  method MpDiv1norm(tabr: array<limb>, taba: array<limb>, n: nat, b: limb, r0: limb, bInv: limb, shift: nat,
                    ghost d: limb)
    returns (r: limb)
    requires n <= tabr.Length && n <= taba.Length && shift < LIMB_BITS && (shift != 0 ==> tabr == taba)
    requires b >= HALF && IsInverse(b, bInv) && b == d * Pow(2, shift) && r0 < d
    modifies tabr
    ensures old(Value(taba[..n])) + Pow(BASE, n) * r0 == Value(tabr[..n]) * d + r && r < d
    ensures tabr[n..] == old(tabr[n..])
  {
    PowOne(2);
    hide Value, IsInverse, Pow;
    if shift == 0 {
      assert b == d;
      r := DivideDown(tabr, taba, n, b, r0, bInv);
    } else {
      r := DivideShifted(tabr, n, b, r0, bInv, shift, d);
    }
  }

  /** mp_div1norm in place with a shift. */
  method DivideShifted(tab: array<limb>, n: nat, b: limb, r0: limb, bInv: limb, shift: nat, ghost d: limb)
    returns (r: limb)
    requires n <= tab.Length && 1 <= shift < LIMB_BITS
    requires b >= HALF && IsInverse(b, bInv) && b == d * Pow(2, shift) && r0 < d
    modifies tab
    ensures old(Value(tab[..n])) + Pow(BASE, n) * r0 == Value(tab[..n]) * d + r && r < d
    ensures tab[n..] == old(tab[n..])
  {
    SplitBase(shift);
    hide Value, IsInverse, Pow;
    var p: limb := Pow(2, shift);
    ghost var v, top := Value(tab[..n]), Pow(BASE, n);
    var carry := MpShl(tab, tab, n, shift, 0);
    ghost var shifted := Value(tab[..n]);
    ShiftedRemainder(r0, carry, d, p, b);
    r := r0 * p + carry;
    r := DivideDown(tab, tab, n, b, r, bInv);
    Unshift(v, top, r0, carry, shifted, Value(tab[..n]), d, p, b, r);
    r := r / p;
  }

  lemma ShiftedRemainder(r: nat, carry: nat, d: nat, p: nat, b: limb)
    requires r < d && carry < p && b == d * p
    ensures 0 <= r * p + carry < b
  {
    Times(r + 1, d, p, p);
    assert (r + 1) * p == r * p + p;
  }

  /** Dividing p * x by p * d gives the quotient of x by d and p times the
      remainder. */
  lemma Unshift(v: nat, top: nat, r0: nat, carry: nat, shifted: nat, q: nat, d: nat, p: nat, b: nat, r: nat)
    requires p > 0 && b == d * p && r < b
    requires shifted + top * carry == v * p && shifted + top * (r0 * p + carry) == q * b + r
    ensures v + top * r0 == q * d + r / p && 0 <= r / p < d
  {
    assert top * (r0 * p + carry) == (top * r0) * p + top * carry;
    assert q * (d * p) == (q * d) * p;
    var m := v + top * r0 - q * d;
    assert m * p == r;
    Factor(m, p, r);
    DivideBack(m, p, 0, r);
    Cancel(m, d, p);
  }

  lemma Factor(m: int, p: nat, r: nat)
    requires p > 0 && m * p == r
    ensures m >= 0
  {
  }

  lemma {:induction false} LimbsUnique(s: seq<limb>, t: seq<limb>)
    requires |s| == |t| && Value(s) == Value(t)
    ensures s == t
  {
    if s != [] {
      DivideBack(Value(s[1..]), BASE, s[0], Value(s));
      DivideBack(Value(t[1..]), BASE, t[0], Value(t));
      LimbsUnique(s[1..], t[1..]);
      assert s == [s[0]] + s[1..] && t == [t[0]] + t[1..];
    }
  }

  /** What MpDiv1norm and MpDiv1 promise leaves no choice: on the same limbs and
      the same incoming remainder, dividing through the normalized divisor and
      dividing by the original one give the same limbs and the same remainder. */
  lemma SameDivision(a: seq<limb>, d: limb, r0: limb, s: seq<limb>, r: limb, t: seq<limb>, r1: limb)
    requires |s| == |t| == |a|
    requires Value(a) + Pow(BASE, |a|) * r0 == Value(s) * d + r && r < d
    requires Value(a) + Pow(BASE, |a|) * r0 == Value(t) * d + r1 && r1 < d
    ensures s == t && r == r1
  {
    hide Value, Pow;
    var v := Value(a) + Pow(BASE, |a|) * r0;
    DivideBack(Value(s), d, r, v);
    DivideBack(Value(t), d, r1, v);
    LimbsUnique(s, t);
  }
}
