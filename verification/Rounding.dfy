/** Rounding of fractions to whole numbers. */
module Rounding {
  import opened Arithmetic

  /** To nearest with ties to even, to nearest with ties away from zero, down. */
  datatype Mode = RNDN | RNDNA | RNDZ

  function Round(num: nat, den: nat, mode: Mode): nat
    requires den > 0
  {
    var q, r := num / den, num % den;
    match mode
    case RNDZ => q
    case RNDNA => if 2 * r >= den then q + 1 else q
    case RNDN => if 2 * r > den || (2 * r == den && q % 2 == 1) then q + 1 else q
  }

  /** What rounding means, without a division: the nearest whole number, and the
      rule for two that are equally near. */
  predicate IsRounding(num: nat, den: nat, mode: Mode, r: nat) {
    match mode
    case RNDZ => r * den <= num < (r + 1) * den
    case RNDNA => (2 * r - 1) * den <= 2 * num < (2 * r + 1) * den
    case RNDN =>
      && (2 * r - 1) * den <= 2 * num <= (2 * r + 1) * den
      && (2 * num == (2 * r + 1) * den || 2 * num == (2 * r - 1) * den ==> r % 2 == 0)
  }

  lemma Multiples(q: nat, den: nat, x: nat)
    requires x == q * den
    ensures (q + 1) * den == x + den && (q + 2) * den == x + 2 * den
    ensures (2 * q - 1) * den == 2 * x - den && (2 * q + 1) * den == 2 * x + den && (2 * q + 3) * den == 2 * x + 3 * den
  {
  }

  lemma RoundIs(num: nat, den: nat, mode: Mode)
    requires den > 0
    ensures IsRounding(num, den, mode, Round(num, den, mode))
  {
    var q, r := num / den, num % den;
    var x := q * den;
    assert num == x + r;
    Multiples(q, den, x);
    assert 2 * (q + 1) - 1 == 2 * q + 1 && 2 * (q + 1) + 1 == 2 * q + 3;
    var t := Round(num, den, mode);
    assert t == q || t == q + 1;
  }

  lemma Ascending(a: int, b: int, den: nat)
    requires den > 0
    ensures a < b <==> a * den < b * den
    ensures a == b <==> a * den == b * den
  {
    assert (b - a) * den == b * den - a * den;
    SignOfProduct(b - a, den);
  }

  lemma SignOfProduct(a: int, den: nat)
    requires den > 0
    ensures (a > 0 <==> a * den > 0) && (a == 0 <==> a * den == 0)
  {
  }

  lemma RoundUnique(num: nat, den: nat, mode: Mode, r: nat, t: nat)
    requires den > 0 && IsRounding(num, den, mode, r) && IsRounding(num, den, mode, t)
    ensures r == t
  {
    match mode
    case RNDZ =>
      Ascending(r, t + 1, den);
      Ascending(t, r + 1, den);
    case RNDNA =>
      Ascending(2 * r - 1, 2 * t + 1, den);
      Ascending(2 * t - 1, 2 * r + 1, den);
    case RNDN =>
      Ascending(2 * t + 1, 2 * r - 1, den);
      Ascending(2 * r + 1, 2 * t - 1, den);
  }

  /** Rounding depends on the fraction only. */
  lemma RoundScaled(num: nat, den: nat, k: nat, mode: Mode)
    requires den > 0 && k > 0
    ensures k * num >= 0 && k * den > 0 && Round(k * num, k * den, mode) == Round(num, den, mode)
  {
    var q, r := num / den, num % den;
    assert num == q * den + r;
    Times(r + 1, den, k, k);
    assert k * num == q * (k * den) + k * r && 0 <= k * r < k * den by {
      assert k * (q * den + r) == q * (k * den) + k * r;
      assert (r + 1) * k == k * r + k;
    }
    DivideBack(q, k * den, k * r, k * num);
    Ascending(2 * r, den, k);
  }

  // ----- the sticky bit -------------------------------------------------------------------

  /** The quotient with its lowest bit set when the division is not exact. */
  function Sticky(num: nat, den: nat): nat
    requires den > 0
  {
    var q := num / den;
    if num % den != 0 && q % 2 == 0 then q + 1 else q
  }

  /** Parts of a quotient that is itself divided. */
  lemma Nested(num: nat, den: nat, p: nat)
    requires den > 0 && p > 0
    ensures den * p > 0
    ensures num / (den * p) == num / den / p
    ensures num % (den * p) == den * (num / den % p) + num % den
  {
    QuotientParts(num, den);
    QuotientParts(num / den, p);
    Positive(den, p);
    NestedQuotient(num, den, p, num / den, num % den, num / den / p, num / den % p);
  }

  lemma NestedQuotient(num: nat, den: nat, p: nat, q: nat, rem: nat, h: nat, r: nat)
    requires num == rem + q * den && q == r + h * p && rem < den && r < p && den * p > 0
    ensures num / (den * p) == h && num % (den * p) == den * r + rem
  {
    NestedParts(num, den, p, h, r, rem);
    DivideBack(h, den * p, den * r + rem, num);
  }

  lemma NestedParts(num: nat, den: nat, p: nat, h: nat, r: nat, rem: nat)
    requires num == (h * p + r) * den + rem && r < p && rem < den
    ensures num == h * (den * p) + (den * r + rem) && 0 <= den * r + rem < den * p
  {
    Times(r + 1, p, den, den);
    Distributes(h, p, r, den);
    assert (r + 1) * den == den * r + den;
  }

  lemma Distributes(h: nat, p: nat, r: nat, den: nat)
    ensures (h * p + r) * den == h * (den * p) + den * r
  {
    var hp := h * p;
    assert (hp + r) * den == hp * den + r * den;
    assert hp * den == h * (p * den);
  }

  /** With at least two bits to drop, the sticky bit stands for everything that
      was lost: rounding the quotient is rounding the exact value. */
  lemma StickyRound(num: nat, den: nat, quarter: nat, mode: Mode)
    requires den > 0 && quarter > 0
    ensures den * (4 * quarter) > 0
    ensures Round(Sticky(num, den), 4 * quarter, mode) == Round(num, den * (4 * quarter), mode)
  {
    hide Round;
    var p := 4 * quarter;
    var q, rem := num / den, num % den;
    QuotientSmall(q, p);
    var h, r := q / p, q % p;
    assert q == h * p + r;
    Nested(num, den, p);
    var r1 := if rem != 0 && q % 2 == 0 then r + 1 else r;
    Parity(q, h, quarter, r);
    DivideBack(h, p, r1, h * p + r1);
    Compare(r, r1, rem, den, quarter, q);
    var big, part := den * p, den * r + rem;
    StickyCases(num, den, Sticky(num, den), p, big, h, r1, part, mode);
  }

  lemma StickyCases(num: nat, den: nat, a: nat, p: nat, big: nat, h: nat, r1: nat, part: nat, mode: Mode)
    requires p > 0 && big > 0 && a / p == h && a % p == r1 && num / big == h && num % big == part
    requires (2 * r1 > p <==> 2 * part > big) && (2 * r1 == p <==> 2 * part == big)
    ensures Round(a, p, mode) == Round(num, big, mode)
  {
  }

  lemma Parity(q: nat, h: nat, quarter: nat, r: nat)
    requires q == h * (4 * quarter) + r
    ensures q % 2 == r % 2
  {
    assert h * (4 * quarter) == 2 * (2 * (h * quarter));
  }

  lemma Compare(r: nat, r1: nat, rem: nat, den: nat, quarter: nat, q: nat)
    requires rem < den && q % 2 == r % 2 && r1 == if rem != 0 && q % 2 == 0 then r + 1 else r
    ensures 2 * r1 > 4 * quarter <==> 2 * (den * r + rem) > den * (4 * quarter)
    ensures 2 * r1 == 4 * quarter <==> 2 * (den * r + rem) == den * (4 * quarter)
  {
    assert den * (4 * quarter) == 2 * ((2 * quarter) * den);
    if r >= 2 * quarter {
      assert (r - 2 * quarter) * den == den * r - (2 * quarter) * den;
      if r > 2 * quarter { Times(1, r - 2 * quarter, den, den); }
    } else {
      Times(1, 2 * quarter - r, den, den);
      assert (2 * quarter - r) * den == (2 * quarter) * den - den * r;
    }
  }

  lemma Above(n: nat, d: nat, z: nat)
    requires d > 0 && z * d <= n
    ensures z <= n / d
  {
    QuotientCheck(n, d, n / d + 1);
    QuotientCheck(n, d, z);
    DivideBack(n / d, d, n % d, n);
    SignOfProduct(n / d + 1 - z, d);
    assert (n / d + 1 - z) * d == (n / d + 1) * d - z * d;
  }
}
