/** Division and products, one small fact at a time. */
module Arithmetic {
  lemma QuotientCheck(a: int, w: nat, d: int)
    requires w > 0
    ensures d > a / w <==> d * w > a
  {
    assert a == w * (a / w) + a % w;
    if d > a / w {
      assert d * w >= (a / w + 1) * w;
    } else {
      assert d * w <= (a / w) * w;
    }
  }

  lemma Times(a: nat, b: nat, c: int, d: int)
    requires a <= b && 0 <= c <= d
    ensures a * c <= b * d
  {
    assert a * c <= b * c;
    assert b * c <= b * d;
  }

  lemma NoQuotient(a: nat, b: nat)
    requires a < b
    ensures a / b == 0
  {
  }

  lemma QuotientSmall(d: nat, points: nat)
    requires points > 0
    ensures 0 <= d / points <= d
  {
    QuotientCheck(d, points, d + 1);
    Times(d + 1, d + 1, 1, points);
  }

  lemma DivideBack(a: nat, len: nat, r: nat, i: int)
    requires r < len && i == a * len + r
    ensures i / len == a && i % len == r
  {
    QuotientCheck(i, len, a);
    QuotientCheck(i, len, a + 1);
    assert i == len * (i / len) + i % len;
  }

  lemma Positive(a: nat, b: nat)
    ensures a * b >= 0
    ensures a > 0 && b > 0 ==> a * b > 0
  {
    if a > 0 && b > 0 { Times(1, a, b, b); }
  }

  /** A product as a function, to reason about with the laws below. */
  function Mul(a: nat, b: nat): (r: nat)
    ensures a > 0 && b > 0 ==> r > 0
  {
    Positive(a, b);
    a * b
  }

  lemma MulLaws(a: nat, b: nat, c: nat)
    ensures Mul(Mul(a, b), c) == Mul(a, Mul(b, c)) && Mul(a, b) == Mul(b, a) && Mul(a, 1) == a
  {
  }

  /** (a * b) * (c * d) == (a * c) * (b * d) */
  lemma MulSwap(a: nat, b: nat, c: nat, d: nat)
    ensures Mul(Mul(a, b), Mul(c, d)) == Mul(Mul(a, c), Mul(b, d))
  {
    assert (a * b) * (c * d) == (a * c) * (b * d);
  }

  /** A quotient and its remainder. */
  lemma QuotientParts(x: nat, b: nat)
    requires b > 0
    ensures 0 <= x / b <= x && 0 <= x % b < b && x == x % b + x / b * b
  {
    QuotientSmall(x, b);
  }

  lemma MulLess(a: nat, b: nat, c: nat)
    requires a < b && c > 0
    ensures Mul(a, c) < Mul(b, c)
  {
    Times(a + 1, b, c, c);
  }
}
