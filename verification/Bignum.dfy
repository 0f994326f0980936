/** mpb_t: a number in a fixed buffer of limbs, changed in place. */
module Bignum {
  import opened Arithmetic
  import opened Power
  import opened Limbs
  import opened Rounding

  /** The position of the highest bit; 31 minus it is clz32. */
  function Log2(v: nat): (r: nat)
    requires v > 0
  {
    if v == 1 then 0 else 1 + Log2(v / 2)
  }

  lemma {:induction false} Log2Is(v: nat)
    requires v > 0
    ensures Pow(2, Log2(v)) <= v < Pow(2, Log2(v) + 1)
  {
    if v > 1 {
      Log2Is(v / 2);
    }
  }

  lemma Log2Unique(v: nat, e: nat)
    requires v > 0 && Pow(2, e) <= v < Pow(2, e + 1)
    ensures Log2(v) == e
  {
    Log2Is(v);
    hide Pow;
    if Log2(v) < e { PowMonotone(2, Log2(v) + 1, e); }
    if e < Log2(v) { PowMonotone(2, e + 1, Log2(v)); }
  }

  lemma PowBase32(n: nat)
    ensures Pow(BASE, n) == Pow(2, 32 * n)
  {
    PowTwo32();
    PowPow(2, 32, n);
  }

  /** What the round bit and the bits below it say about rounding. */
  lemma RoundBits(v: nat, shift: nat, mode: Mode)
    requires shift > 0
    ensures var half := Pow(2, shift - 1);
            Round(v, Pow(2, shift), mode) == v / Pow(2, shift)
              + if mode != RNDZ && v / half % 2 == 1
                && (mode == RNDNA || v % half != 0 || v / Pow(2, shift) % 2 == 1) then 1 else 0
  {
    var half := Pow(2, shift - 1);
    assert Pow(2, shift) == half * 2;
    Nested(v, half, 2);
  }

  class Mpb {
    const tab: array<limb>
    var len: nat

    ghost predicate Valid()
      reads this, tab
    {
      1 <= len <= tab.Length && (len > 1 ==> tab[len - 1] != 0)
    }

    ghost function Val(): nat
      reads this, tab
      requires len <= tab.Length
    {
      Value(tab[..len])
    }

    constructor (capacity: nat)
      requires capacity > 0
      ensures Valid() && Val() == 0 && fresh(tab) && tab.Length == capacity
    {
      tab := new limb[capacity];
      len := 1;
      new;
      tab[0] := 0;
      assert tab[..1] == [0];
      ValueOne(0);
    }

    /** mpb_renorm */
    method Renorm()
      requires 1 <= len <= tab.Length
      modifies this`len
      ensures Valid() && Val() == old(Val()) && len <= old(len)
    {
      hide Value;
      while len > 1 && tab[len - 1] == 0
        invariant 1 <= len <= old(len) && Val() == old(Val())
      {
        assert tab[..len] == tab[..len - 1] + [tab[len - 1]];
        ValueSnoc(tab[..len - 1], tab[len - 1]);
        len := len - 1;
      }
    }

    lemma TopLimb()
      requires Valid()
      ensures Val() == Value(tab[..len - 1]) + Pow(BASE, len - 1) * tab[len - 1] && Val() < Pow(BASE, len)
      ensures Value(tab[..len - 1]) < Pow(BASE, len - 1)
      ensures Val() == 0 <==> len == 1 && tab[0] == 0
      ensures len > 1 ==> Val() >= Pow(BASE, len - 1)
    {
      hide Value, Pow;
      assert tab[..len][..len - 1] == tab[..len - 1];
      TopOf(tab[..len]);
    }

    /** mpb_set_u64 */
    method SetU64(m: nat)
      requires m < BASE * BASE && tab.Length >= 2
      modifies this`len, tab
      ensures Valid() && Val() == m
    {
      LowHigh(m);
      tab[0] := m % BASE;
      tab[1] := m / BASE;
      len := if tab[1] == 0 then 1 else 2;
      assert tab[..2] == [tab[0]] + [tab[1]] && tab[..1] == [tab[0]];
      ValueOne(tab[0]);
      ValueOne(tab[1]);
      ValueCons(tab[0], [tab[1]]);
    }

    /** mpb_get_u64 */
    method GetU64() returns (m: nat)
      requires Valid() && Val() < BASE * BASE
      ensures m == Val()
    {
      assert len <= 2 by {
        TopLimb();
        TwoLimbs(len, Val());
      }
      if len == 1 {
        assert tab[..1] == [tab[0]];
        ValueOne(tab[0]);
        m := tab[0];
      } else {
        assert tab[..2] == [tab[0]] + [tab[1]];
        ValueOne(tab[1]);
        ValueCons(tab[0], [tab[1]]);
        m := tab[0] + BASE * tab[1];
      }
    }

    /** mpb_floor_log2 */
    method FloorLog2() returns (e: int)
      requires Valid()
      ensures Val() == 0 ==> e == -1
      ensures Val() > 0 ==> e == Log2(Val())
    {
      TopLimb();
      var v := tab[len - 1];
      if v == 0 {
        return -1;
      }
      e := len * LIMB_BITS - 1 - (31 - Log2(v));
      TopLog(Value(tab[..len - 1]), len - 1, v, Val());
    }

    /** mpb_get_bit */
    method GetBit(k: nat) returns (b: nat)
      requires Valid()
      ensures b == Val() / Pow(2, k) % 2
    {
      var l := k / LIMB_BITS;
      if l >= len {
        TopLimb();
        BitsAbove(Val(), len, k);
        return 0;
      }
      BitOf(tab[..len], k);
      b := tab[l] / Pow(2, k % LIMB_BITS) % 2;
    }

    /** The `or` of the bits below bit `k`: is one of them set? */
    method AnyBitBelow(k: nat) returns (any: bool)
      requires Valid()
      ensures any <==> Val() % Pow(2, k) != 0
    {
      var l := k / LIMB_BITS;
      any := false;
      var i := 0;
      while i < l && i < len
        invariant i <= len && i <= l && (any <==> exists j :: 0 <= j < i && tab[j] != 0)
      {
        any := any || tab[i] != 0;
        i := i + 1;
      }
      if l < len {
        any := any || tab[l] % Pow(2, k % LIMB_BITS) != 0;
      }
      LowBits(tab[..len], k);
      TopLimb();
    }

    // ----- mpb_shr_round ----------------------------------------------------------------------

    /** Insert `l` zero limbs below. */
    method MoveUp(l: nat)
      requires 1 <= len && len + l <= tab.Length
      modifies this`len, tab
      ensures len == old(len) + l && Val() == old(Val()) * Pow(BASE, l)
      ensures tab[len - 1] == old(tab[len - 1])
    {
      hide Value, Pow;
      ghost var s := tab[..len];
      MoveLimbs(l);
      ZeroLimbs(l);
      len := len + l;
      assert tab[..len] == tab[..l] + s;
      assert tab[len - 1] == tab[l..len][|s| - 1];
      ValueAppend(tab[..l], s);
      ValueZero(tab[..l]);
    }

    method ZeroLimbs(l: nat)
      requires len + l <= tab.Length
      modifies tab
      ensures forall k :: 0 <= k < l ==> tab[k] == 0
      ensures tab[l..len + l] == old(tab[l..len + l])
    {
      var i := 0;
      while i < l
        invariant 0 <= i <= l && forall k :: 0 <= k < i ==> tab[k] == 0
        invariant tab[l..len + l] == old(tab[l..len + l])
      {
        tab[i] := 0;
        i := i + 1;
      }
    }

    method MoveLimbs(l: nat)
      requires 1 <= len && len + l <= tab.Length
      modifies tab
      ensures tab[l..len + l] == old(tab[..len])
    {
      ghost var s := tab[..len];
      var i: int := len - 1;
      while i >= 0
        invariant -1 <= i < len
        invariant forall k :: 0 <= k <= i ==> tab[k] == s[k]
        invariant forall k :: i + l < k < len + l ==> tab[k] == s[k - l]
      {
        tab[i + l] := tab[i];
        i := i - 1;
      }
    }

    /** The branch for a negative shift. Zero gets limbs that are zero too. */
    method ShiftLeft(shift: nat)
      requires Valid() && len + shift / LIMB_BITS + 1 <= tab.Length
      modifies this`len, tab
      ensures 1 <= len <= old(len) + shift / LIMB_BITS + 1 && Val() == old(Val()) * Pow(2, shift)
      ensures Valid() <==> old(Val()) > 0 || shift < LIMB_BITS
    {
      hide Value, Pow;
      var l, j := shift / LIMB_BITS, shift % LIMB_BITS;
      ghost var v := Val();
      ShiftBits(j);
      TwoShifts(v, l, j);
      if l > 0 {
        TopLimb();
        ZeroTimes(Pow(BASE, l));
        Positive(Val(), Pow(2, shift));
        MoveUp(l);
      }
    }

    lemma ZeroTimes(p: nat)
      ensures 0 * p == 0
    {
    }

    method ShiftBits(j: nat)
      requires Valid() && j < LIMB_BITS && len < tab.Length
      modifies this`len, tab
      ensures Valid() && Val() == old(Val()) * Pow(2, j) && len <= old(len) + 1
    {
      hide Value, Pow;
      PowOne(2);
      if j != 0 {
        var top := MpShl(tab, tab, len, j, 0);
        PowTwo32();
        PowMonotone(2, j, 32);
        ghost var r := tab[..len];
        tab[len] := top;
        assert tab[..len + 1] == r + [top];
        ValueSnoc(r, top);
        len := len + 1;
        Renorm();
      }
    }

    /** Drop the `l` lowest limbs. */
    method MoveDown(l: nat)
      requires Valid() && l < len
      modifies this`len, tab
      ensures Valid() && len == old(len) - l && Val() == old(Val()) / Pow(BASE, l)
    {
      hide Value, Pow;
      ghost var s := tab[..len];
      SplitAt(s, l);
      len := len - l;
      var i := 0;
      while i < len
        invariant i <= len == old(len) - l && forall k :: 0 <= k < i ==> tab[k] == s[k + l]
        invariant forall k :: i + l <= k < old(len) ==> tab[k] == s[k]
      {
        tab[i] := tab[i + l];
        i := i + 1;
      }
      assert tab[..len] == s[l..];
    }

    /** What is added to the quotient: 0 or 1. */
    method RoundUp(shift: nat, mode: Mode) returns (addOne: limb)
      requires Valid() && shift > 0
      ensures addOne <= 1 && Val() / Pow(2, shift) + addOne == Round(Val(), Pow(2, shift), mode)
    {
      hide Value, Pow, Round;
      RoundBits(Val(), shift, mode);
      if mode == RNDZ {
        return 0;
      }
      var bit1 := GetBit(shift - 1);
      if bit1 == 0 {
        return 0;
      }
      var bit2 := true;
      if mode == RNDN {
        bit2 := AnyBitBelow(shift - 1);
      }
      if bit2 {
        return 1;
      }
      var odd := GetBit(shift);
      addOne := odd;
    }

    /** The branch for a positive shift. */
    method ShiftRight(shift: nat, mode: Mode)
      requires Valid() && shift > 0
      modifies this`len, tab
      ensures Valid() && Val() == Round(old(Val()), Pow(2, shift), mode) && len <= old(len)
    {
      hide Value, Pow, Round;
      ghost var v := Val();
      TopLimb();
      var addOne := RoundUp(shift, mode);
      var l, j := shift / LIMB_BITS, shift % LIMB_BITS;
      PowBase32(l);
      PowAdd(2, 32 * l, j);
      assert shift == 32 * l + j;
      if l >= len {
        BitsAbove(v, len, shift);
        len := 1;
        tab[0] := addOne;
        assert tab[..1] == [addOne];
        ValueOne(addOne);
      } else {
        if l > 0 {
          MoveDown(l);
        } else {
          PowOne(BASE);
          DivideBack(v, 1, 0, v);
        }
        Nested(v, Pow(BASE, l), Pow(2, j));
        PowOne(2);
        DropBits(j);
        if addOne != 0 {
          AddOne(old(len), v, shift);
        }
      }
    }

    /** Shift by less than a limb. */
    method DropBits(j: nat)
      requires Valid() && j < LIMB_BITS
      modifies this`len, tab
      ensures Valid() && Val() == old(Val()) / Pow(2, j) && len <= old(len)
    {
      hide Value, Pow;
      if j != 0 {
        ghost var v := Val();
        PowTwo32();
        var low := MpShr(tab, tab, len, j, 0);
        DivideBack(0, Pow(2, j), 0, 0);
        DivideBack(Val(), Pow(2, j), low, v);
        Renorm();
      } else {
        PowOne(2);
        DivideBack(Val(), 1, 0, Val());
      }
    }

    /** The carry of the addition finds room, because bits have been dropped. */
    method AddOne(ghost len0: nat, ghost v: nat, ghost shift: nat)
      requires Valid() && len <= len0 <= tab.Length && v < Pow(BASE, len0) && shift > 0 && Val() == v / Pow(2, shift)
      modifies this`len, tab
      ensures Valid() && Val() == old(Val()) + 1 && len <= len0
    {
      hide Value, Pow;
      TopLimb();
      ghost var before := tab[..len];
      var a := MpAddUi(tab, 1, len);
      if a != 0 {
        CarryRoom(Value(before), v, shift, len, len0);
        assert tab[..len + 1] == tab[..len][..len] + [tab[len]];
        ghost var r := tab[..len];
        tab[len] := a;
        assert tab[..len + 1] == r + [a];
        ValueSnoc(r, a);
        len := len + 1;
      } else {
        StillTop(before, tab[..len]);
      }
    }

    /** mpb_shr_round: round(r / 2^shift). Only zero shifted up by whole limbs is not
        normalized afterwards. */
    method ShrRound(shift: int, mode: Mode)
      requires Valid()
      requires shift < 0 ==> len + (-shift) / LIMB_BITS + 1 <= tab.Length
      modifies this`len, tab
      ensures 1 <= len <= tab.Length && (Valid() <==> old(Val()) > 0 || shift + LIMB_BITS > 0)
      ensures shift < 0 ==> Val() == old(Val()) * Pow(2, -shift) && len <= old(len) + (-shift) / LIMB_BITS + 1
      ensures shift >= 0 ==> Val() == Round(old(Val()), Pow(2, shift), mode) && len <= old(len)
    {
      hide Value;
      if shift == 0 {
        DivideBack(Val(), 1, 0, Val());
        PowOne(2);
        return;
      }
      hide Pow, Round;
      if shift < 0 {
        ShiftLeft(-shift);
      } else {
        ShiftRight(shift, mode);
      }
    }

    // ----- mpb_mul1_base ------------------------------------------------------------------------

    /** Multiply by one limb and add another. */
    method MulAdd(b: limb, a: limb)
      requires Valid() && len < tab.Length
      modifies this`len, tab
      ensures Valid() && Val() == old(Val()) * b + a && len <= old(len) + 1
    {
      hide Value, Pow;
      var h := MpMul1(tab, tab, len, b, a);
      tab[len] := h;
      assert tab[..len + 1] == tab[..len] + [h];
      ValueSnoc(tab[..len], h);
      len := len + 1;
      Renorm();
    }

    /** mpb_mul1_base: `radixBase` 0 stands for 2^32. The source moves one limb
        more than there are; what it moves lies above the new length. */
    method Mul1Base(radixBase: limb, a: limb)
      requires Valid() && len + 1 < tab.Length
      modifies this`len, tab
      ensures Valid() && Val() == old(Val()) * (if radixBase == 0 then BASE else radixBase) + a && len <= old(len) + 1
    {
      hide Value, Pow;
      TopLimb();
      if tab[0] == 0 && len == 1 {
        tab[0] := a;
        assert tab[..1] == [a];
        ValueOne(a);
      } else if radixBase == 0 {
        ghost var s := tab[..len];
        var i: int := len;
        while i >= 0
          invariant -1 <= i <= len == old(len)
          invariant forall k :: 0 <= k <= i && k < len ==> tab[k] == s[k]
          invariant forall k :: i < k < len ==> tab[k + 1] == s[k]
        {
          tab[i + 1] := tab[i];
          i := i - 1;
        }
        tab[0] := a;
        assert tab[..len + 1] == [a] + s;
        ValueCons(a, s);
        len := len + 1;
        Renorm();
      } else {
        MulAdd(radixBase, a);
      }
    }
  }

  lemma TopOf(s: seq<limb>)
    requires s != []
    ensures var n, x := |s| - 1, s[|s| - 1];
            && Value(s) == Value(s[..n]) + Pow(BASE, n) * x && Value(s) < Pow(BASE, |s|) && Value(s[..n]) < Pow(BASE, n)
            && (x != 0 ==> Value(s) >= Pow(BASE, n) > 0)
            && (n == 0 ==> Value(s) == x)
  {
    hide Value, Pow;
    var n, x := |s| - 1, s[|s| - 1];
    assert s == s[..n] + [x];
    if n == 0 {
      assert s == [x];
      ValueOne(x);
    }
    ValueSnoc(s[..n], x);
    ValueBelow(s);
    ValueBelow(s[..n]);
    if x != 0 { Times(1, x, Pow(BASE, n), Pow(BASE, n)); }
  }

  lemma TwoLimbs(len: nat, v: nat)
    requires v < BASE * BASE && (len > 1 ==> v >= Pow(BASE, len - 1))
    ensures len <= 2
  {
    assert Pow(BASE, 2) == BASE * BASE by { PowOne(BASE); assert Pow(BASE, 2) == BASE * Pow(BASE, 1); }
    hide Pow;
    PowMonotone(BASE, 2, if len > 2 then len - 1 else 2);
  }

  lemma TopLog(low: nat, n: nat, v: limb, whole: nat)
    requires v > 0 && low < Pow(BASE, n) && whole == low + Pow(BASE, n) * v
    ensures whole > 0 && Log2(whole) == n * LIMB_BITS + Log2(v)
  {
    var e := Log2(v);
    Log2Is(v);
    PowBase32(n);
    PowAdd(2, 32 * n, e);
    PowAdd(2, 32 * n, e + 1);
    hide Pow, Log2;
    TopRange(low, Pow(BASE, n), v, Pow(2, e), Pow(2, e + 1));
    Log2Unique(whole, 32 * n + e);
  }

  lemma TopRange(low: nat, p: nat, v: nat, x: nat, y: nat)
    requires low < p && 0 < x <= v < y
    ensures 0 < p * x <= low + p * v < p * y
  {
    Times(x, v, p, p);
    Times(1, x, p, p);
    Times(v + 1, y, p, p);
    assert (v + 1) * p == v * p + p;
  }

  lemma BitsAbove(v: nat, len: nat, k: nat)
    requires v < Pow(BASE, len) && len <= k / 32
    ensures v / Pow(2, k) == 0 && v < Pow(2, k)
  {
    PowBase32(len);
    PowMonotone(2, 32 * len, k);
    NoQuotient(v, Pow(2, k));
  }

  /** A number above limb `l`. */
  lemma SplitAt(s: seq<limb>, l: nat)
    requires l <= |s|
    ensures Value(s) / Pow(BASE, l) == Value(s[l..]) && Value(s) % Pow(BASE, l) == Value(s[..l])
  {
    assert s == s[..l] + s[l..];
    hide Value, Pow;
    ValueAppend(s[..l], s[l..]);
    ValueBelow(s[..l]);
    assert Pow(BASE, l) * Value(s[l..]) == Value(s[l..]) * Pow(BASE, l);
    DivideBack(Value(s[l..]), Pow(BASE, l), Value(s[..l]), Value(s));
  }

  /** Inside limb `l`. */
  lemma SplitIn(s: seq<limb>, l: nat, j: nat)
    requires l < |s| && j < 32
    ensures Value(s) / Pow(2, 32 * l + j) == Value(s[l..]) / Pow(2, j)
    ensures Value(s) % Pow(2, 32 * l + j) == Pow(BASE, l) * (s[l] % Pow(2, j)) + Value(s[..l])
  {
    SplitAt(s, l);
    PowBase32(l);
    PowAdd(2, 32 * l, j);
    Nested(Value(s), Pow(BASE, l), Pow(2, j));
    ModuloOfFirst(s[l..], j);
    assert s[l..][0] == s[l];
  }

  lemma ModuloOfFirst(s: seq<limb>, j: nat)
    requires s != [] && j < 32
    ensures Value(s) % Pow(2, j) == s[0] % Pow(2, j)
    ensures Value(s) / Pow(2, j) % 2 == s[0] / Pow(2, j) % 2
  {
    PowTwo32();
    PowAdd(2, j, 32 - j);
    assert Pow(2, 32 - j) == 2 * Pow(2, 31 - j);
    assert Value(s) == s[0] + BASE * Value(s[1..]);
    hide Pow, Value;
    LowPart(s[0], Value(s[1..]), Pow(2, j), Pow(2, 31 - j), Value(s));
  }

  lemma LowPart(first: nat, rest: nat, p: nat, c: nat, whole: nat)
    requires p > 0 && p * (2 * c) == BASE && whole == first + BASE * rest
    ensures whole % p == first % p && whole / p % 2 == first / p % 2
  {
    Positive(c, rest);
    assert BASE * rest == (2 * (c * rest)) * p;
    AddMultiple(first, c * rest, p, whole);
  }

  lemma AddMultiple(first: nat, k: nat, p: nat, whole: nat)
    requires p > 0 && whole == first + (2 * k) * p
    ensures whole % p == first % p && whole / p % 2 == first / p % 2
  {
    var a, m := first / p, first % p;
    assert first == a * p + m;
    assert (a + 2 * k) * p == a * p + (2 * k) * p;
    DivideBack(a + 2 * k, p, m, whole);
  }

  lemma BitOf(s: seq<limb>, k: nat)
    requires k / 32 < |s|
    ensures Value(s) / Pow(2, k) % 2 == s[k / 32] / Pow(2, k % 32) % 2
  {
    SplitIn(s, k / 32, k % 32);
    ModuloOfFirst(s[k / 32..], k % 32);
    assert k == 32 * (k / 32) + k % 32;
  }

  lemma LowBits(s: seq<limb>, k: nat)
    ensures k / 32 < |s| ==> (Value(s) % Pow(2, k) != 0 <==>
              (exists j :: 0 <= j < k / 32 && s[j] != 0) || s[k / 32] % Pow(2, k % 32) != 0)
    ensures k / 32 >= |s| ==> (Value(s) % Pow(2, k) != 0 <==> exists j :: 0 <= j < |s| && s[j] != 0)
  {
    var l, j := k / 32, k % 32;
    assert k == 32 * l + j;
    if l < |s| {
      SplitIn(s, l, j);
      ValueZero(s[..l]);
      var x, y := s[l] % Pow(2, j), Value(s[..l]);
      Positive(Pow(BASE, l), x);
      if x > 0 { Times(1, x, Pow(BASE, l), Pow(BASE, l)); }
    } else {
      ValueBelow(s);
      BitsAbove(Value(s), |s|, k);
      DivideBack(0, Pow(2, k), Value(s), Value(s));
      ValueZero(s);
    }
  }

  lemma CarryRoom(q: nat, v: nat, shift: nat, n: nat, len0: nat)
    requires v < Pow(BASE, len0) && shift > 0 && q == v / Pow(2, shift) && q + 1 >= Pow(BASE, n) && n >= 1
    ensures n < len0
  {
    PowMonotone(2, 1, shift);
    PowMonotone(BASE, 1, n);
    PowOne(2);
    PowOne(BASE);
    hide Pow;
    PowMonotone(BASE, len0, if len0 <= n then n else len0);
    QuotientCheck(v, Pow(2, shift), q);
    Times(2, Pow(2, shift), q, q);
  }

  /** Adding one without a carry keeps the top limb from being zero. */
  lemma StillTop(s: seq<limb>, t: seq<limb>)
    requires |s| == |t| >= 1 && Value(t) == Value(s) + 1 && (|s| > 1 ==> s[|s| - 1] != 0)
    ensures |t| > 1 ==> t[|t| - 1] != 0
  {
    hide Value, Pow;
    TopOf(s);
    TopOf(t);
  }

  lemma TwoShifts(v: nat, l: nat, j: nat)
    ensures (v > 0 <==> v * Pow(2, j) > 0) && v * Pow(2, j) >= 0
            && (v * Pow(2, j)) * Pow(BASE, l) == v * Pow(2, 32 * l + j)
    ensures l == 0 ==> v * Pow(2, j) == v * Pow(2, 32 * l + j)
  {
    PowBase32(l);
    PowAdd(2, 32 * l, j);
    hide Pow;
    Positive(v, Pow(2, j));
    var x, y := Pow(2, j), Pow(BASE, l);
    assert (v * x) * y == v * (y * x);
  }
}
