/** pow_ui and pow_ui_inv, with the tables of dtoa.c they use. */
module SmallPowers {
  import opened Arithmetic
  import opened Power
  import opened Limbs
  import opened Rounding
  import opened Bignum
  import opened UdivNorm

  const DIGITS_PER_LIMB: seq<nat> := [
    32, 20, 16, 13, 12, 11, 10, 10, 9, 9, 8, 8, 8, 8, 8, 7, 7, 7, 7, 7, 7, 7, 6, 6, 6, 6, 6, 6, 6, 6, 6, 6, 6, 6, 6
  ]

  const POW5: seq<nat> := [
    0x00000005, 0x00000019, 0x0000007d, 0x00000271,
    0x00000c35, 0x00003d09, 0x0001312d, 0x0005f5e1,
    0x001dcd65, 0x009502f9, 0x02e90edd, 0x0e8d4a51,
    0x48c27395, 0x6bcc41e9, 0x1afd498d, 0x86f26fc1,
    0xa2bc2ec5
  ]

  const POW5_HIGH: seq<nat> := [0x00000001, 0x00000007, 0x00000023, 0x000000b1]

  const POW5_INV: seq<limb> := [
    0x99999999, 0x47ae147a, 0x0624dd2f, 0xa36e2eb1,
    0x4f8b588e, 0x0c6f7a0b, 0xad7f29ab, 0x5798ee23,
    0x12e0be82, 0xb7cdfd9d, 0x5fd7fe17, 0x19799812,
    0xc25c2684
  ]

  /** A limb holds as many digits of an odd radix as the table says. */
  lemma LimbDigits(r: nat)
    requires 3 <= r <= 35 && r % 2 == 1
    ensures DIGITS_PER_LIMB[r - 2] >= 1 && Pow(r, DIGITS_PER_LIMB[r - 2]) < BASE
  {
    hide Pow;
    OddPowers3();
    OddPowers11();
    OddPowers19();
    OddPowers27();
  }

  lemma OddPowers3()
    ensures Pow(3, 20) == 3486784401
    ensures Pow(5, 13) == 1220703125
    ensures Pow(7, 11) == 1977326743
    ensures Pow(9, 10) == 3486784401
  {
    assert Pow(3, 10) == 59049;
    PowAdd(3, 10, 10);
  }

  lemma OddPowers11()
    ensures Pow(11, 9) == 2357947691
    ensures Pow(13, 8) == 815730721
    ensures Pow(15, 8) == 2562890625
    ensures Pow(17, 7) == 410338673
  {
  }

  lemma OddPowers19()
    ensures Pow(19, 7) == 893871739
    ensures Pow(21, 7) == 1801088541
    ensures Pow(23, 7) == 3404825447
    ensures Pow(25, 6) == 244140625
  {
  }

  lemma OddPowers27()
    ensures Pow(27, 6) == 387420489
    ensures Pow(29, 6) == 594823321
    ensures Pow(31, 6) == 887503681
    ensures Pow(33, 6) == 1291467969
    ensures Pow(35, 6) == 1838265625
  {
  }

  /** The tables of powers of five are right. */
  lemma Pow5Values(k: nat)
    requires 1 <= k <= 17
    ensures Pow(5, k) == POW5[k - 1] + if k >= 14 then POW5_HIGH[k - 14] * BASE else 0
  {
    assert Pow(5, 1) == 5;
    assert Pow(5, 2) == 25;
    assert Pow(5, 3) == 125;
    assert Pow(5, 4) == 625;
    assert Pow(5, 5) == 3125;
    assert Pow(5, 6) == 15625;
    assert Pow(5, 7) == 78125;
    assert Pow(5, 8) == 390625;
    assert Pow(5, 9) == 1953125;
    assert Pow(5, 10) == 9765625;
    assert Pow(5, 11) == 48828125;
    assert Pow(5, 12) == 244140625;
    assert Pow(5, 13) == 1220703125;
    assert Pow(5, 14) == 6103515625;
    assert Pow(5, 15) == 30517578125;
    assert Pow(5, 16) == 152587890625;
    assert Pow(5, 17) == 762939453125;
  }

  lemma SmallPow2()
    ensures Pow(2, 0) == 1 && Pow(2, 1) == 2 && Pow(2, 2) == 4 && Pow(2, 3) == 8
    ensures Pow(2, 4) == 16 && Pow(2, 5) == 32 && Pow(2, 6) == 64 && Pow(2, 7) == 128
    ensures Pow(2, 8) == 256 && Pow(2, 9) == 512 && Pow(2, 10) == 1024 && Pow(2, 11) == 2048
    ensures Pow(2, 12) == 4096 && Pow(2, 13) == 8192 && Pow(2, 14) == 16384 && Pow(2, 15) == 32768
    ensures Pow(2, 16) == 65536 && Pow(2, 17) == 131072 && Pow(2, 18) == 262144 && Pow(2, 19) == 524288
    ensures Pow(2, 20) == 1048576 && Pow(2, 21) == 2097152 && Pow(2, 22) == 4194304 && Pow(2, 23) == 8388608
    ensures Pow(2, 24) == 16777216 && Pow(2, 25) == 33554432 && Pow(2, 26) == 67108864 && Pow(2, 27) == 134217728
    ensures Pow(2, 28) == 268435456 && Pow(2, 29) == 536870912 && Pow(2, 30) == 1073741824 && Pow(2, 31) == 2147483648
    ensures Pow(2, 32) == 4294967296
  {
    assert Pow(2, 0) == 1;
    assert Pow(2, 5) == 32;
    assert Pow(2, 10) == 1024;
    assert Pow(2, 15) == 32768;
    assert Pow(2, 20) == 1048576;
    assert Pow(2, 25) == 33554432;
    assert Pow(2, 30) == 1073741824;
  }

  /** The inverses of the normalized powers of five are right. */
  lemma Pow5Inverses(k: nat)
    requires 1 <= k <= 13
    ensures 0 < POW5[k - 1] < BASE && Log2(POW5[k - 1]) <= 31
    ensures var r := POW5[k - 1] * Pow(2, 31 - Log2(POW5[k - 1])); HALF <= r < BASE && IsInverse(r, POW5_INV[k - 1])
  {
    SmallPow2();
    hide Pow, Log2;
    if k == 1 {
      Log2Unique(0x5, 2);
    } else if k == 2 {
      Log2Unique(0x19, 4);
    } else if k == 3 {
      Log2Unique(0x7d, 6);
    } else if k == 4 {
      Log2Unique(0x271, 9);
    } else if k == 5 {
      Log2Unique(0xc35, 11);
    } else if k == 6 {
      Log2Unique(0x3d09, 13);
    } else if k == 7 {
      Log2Unique(0x1312d, 16);
    } else if k == 8 {
      Log2Unique(0x5f5e1, 18);
    } else if k == 9 {
      Log2Unique(0x1dcd65, 20);
    } else if k == 10 {
      Log2Unique(0x9502f9, 23);
    } else if k == 11 {
      Log2Unique(0x2e90edd, 25);
    } else if k == 12 {
      Log2Unique(0xe8d4a51, 27);
    } else if k == 13 {
      Log2Unique(0x48c27395, 30);
    }
  }

  /** The bits of `b` above bit `i`. */
  function Upper(b: nat, i: nat): nat {
    b / Pow(2, i)
  }

  lemma UpperStep(b: nat, i: nat)
    ensures Upper(b, i) == 2 * Upper(b, i + 1) + Upper(b, i) % 2
    ensures Upper(b, i) <= b
  {
    assert Pow(2, i + 1) == Pow(2, i) * 2;
    hide Pow;
    Nested(b, Pow(2, i), 2);
    QuotientSmall(b, Pow(2, i));
  }

  lemma UpperTop(b: nat)
    requires b > 0
    ensures Upper(b, Log2(b)) == 1 && Upper(b, 0) == b
  {
    Log2Is(b);
    PowOne(2);
    DivideBack(b, 1, 0, b);
    var p := Pow(2, Log2(b));
    assert Pow(2, Log2(b) + 1) == 2 * p;
    DivideBack(1, p, b - p, b);
  }

  /** One step of square-and-multiply; nothing overflows 64 bits on the way. */
  lemma SquareStep(a: nat, u: nat, bit: nat, b: nat)
    requires a > 0 && 2 * u + bit <= b && bit <= 1 && Pow(a, b) < BASE * BASE
    ensures Pow(a, u) * Pow(a, u) < BASE * BASE
    ensures Pow(a, 2 * u + bit) == Pow(a, u) * Pow(a, u) * (if bit == 1 then a else 1) < BASE * BASE
  {
    PowAdd(a, u, u);
    PowAdd(a, u + u, bit);
    PowOne(a);
    PowMonotone(a, 2 * u + bit, b);
    PowMonotone(a, 2 * u, b);
  }

  /** pow_ui: a^b, for a result below 2^64. */
  method PowUi(a: nat, b: nat) returns (r: nat)
    requires a > 0 && Pow(a, b) < BASE * BASE
    ensures r == Pow(a, b)
  {
    PowOne(a);
    if b == 0 {
      return 1;
    }
    if b == 1 {
      return a;
    }
    if (a == 5 || a == 10) && b <= 17 {
      Pow5Values(b);
      r := POW5[b - 1];
      if b >= 14 {
        r := r + POW5_HIGH[b - 14] * BASE;
      }
      if a == 10 {
        PowTimes(5, 2, b);
        r := r * Pow(2, b);
      }
      return;
    }
    r := PowLoop(a, b);
  }

  method PowLoop(a: nat, b: nat) returns (r: nat)
    requires a > 0 && b > 0 && Pow(a, b) < BASE * BASE
    ensures r == Pow(a, b)
  {
    PowOne(a);
    UpperTop(b);
    hide Pow, Upper, Log2;
    r := a;
    var i := Log2(b);
    while i > 0
      invariant 0 <= i && r == Pow(a, Upper(b, i))
    {
      i := i - 1;
      UpperStep(b, i);
      SquareStep(a, Upper(b, i + 1), Upper(b, i) % 2, b);
      r := r * r;
      if Upper(b, i) % 2 == 1 {
        r := r * a;
      }
    }
  }

  /** pow_ui_inv: a^b normalized to 32 bits, how far it was shifted, and its
      inverse. */
  method PowUiInv(a: nat, b: nat) returns (r: limb, rInv: limb, shift: nat)
    requires a > 0 && Pow(a, b) < BASE
    ensures shift < LIMB_BITS && r == Pow(a, b) * Pow(2, shift) && r >= HALF && IsInverse(r, rInv)
  {
    hide Pow, Log2, IsInverse;
    if a == 5 && 1 <= b <= 13 {
      Pow5Values(b);
      Pow5Inverses(b);
      shift := 31 - Log2(POW5[b - 1]);
      r := POW5[b - 1] * Pow(2, shift);
      rInv := POW5_INV[b - 1];
    } else {
      var v := PowUi(a, b);
      Log2Below(v);
      shift := 31 - Log2(v);
      Normalized(v);
      r := v * Pow(2, shift);
      rInv := Udiv1normInit(r);
    }
  }

  lemma Log2Below(v: nat)
    requires 0 < v < BASE
    ensures Log2(v) <= 31
  {
    Log2Is(v);
    PowTwo32();
    hide Pow, Log2;
    PowMonotone(2, 32, if Log2(v) > 31 then Log2(v) else 32);
  }

  lemma Normalized(v: nat)
    requires 0 < v < BASE
    ensures Log2(v) <= 31 && HALF <= v * Pow(2, 31 - Log2(v)) < BASE
  {
    Log2Below(v);
    Log2Is(v);
    PowTwo32();
    var e, s := Log2(v), 31 - Log2(v);
    PowAdd(2, e, s);
    PowAdd(2, e + 1, s);
    hide Pow, Log2;
    Times(Pow(2, e), v, Pow(2, s), Pow(2, s));
    Times(v + 1, Pow(2, e + 1), Pow(2, s), Pow(2, s));
    assert (v + 1) * Pow(2, s) == v * Pow(2, s) + Pow(2, s);
  }
}
