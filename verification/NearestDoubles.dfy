/** A number has one nearest float64. */
module NearestDoubles {
  import opened Arithmetic
  import opened Power
  import opened PowerScaling
  import opened ScaleAndRound
  import opened RoundToDouble

  lemma PowersOrdered(a: int, b: int)
    requires a <= b
    ensures Up(2, a) <= Up(2, b) && Down(2, b) <= Down(2, a)
  {
    PowMonotone(2, Max(a, 0), Max(b, 0));
    PowMonotone(2, Max(-b, 0), Max(-a, 0));
  }

  lemma StaysBelow(n: nat, d: nat, a: int, b: int)
    requires a <= b && Mul(n, Down(2, a)) < Mul(d, Up(2, a))
    ensures Mul(n, Down(2, b)) < Mul(d, Up(2, b))
  {
    PowersOrdered(a, b);
    hide Up, Down;
    Times(n, n, Down(2, b), Down(2, a));
    Times(d, d, Up(2, a), Up(2, b));
  }

  lemma TopAtMost(n: nat, d: nat, x: int, top: int, top1: int)
    requires Within(n, d, x, top) && Within(n, d, x, top1)
    ensures top1 <= top
  {
    hide Up, Down, Mul;
    if top1 > top {
      StaysBelow(n, d, top - x, top1 - 1 - x);
    }
  }

  /** The same value with mantissas of 53 bits: the mantissas are the same. */
  lemma SameMantissa(m: nat, y: int, m1: nat, y1: int, r: nat, g: int)
    requires SameValue(m, y, r, g) && SameValue(m1, y1, r, g) && y <= y1
    requires Pow(2, 52) <= m < Pow(2, 53) && Pow(2, 52) <= m1
    ensures m == m1 && y == y1
  {
    var j := y1 - y;
    PowerValue(0, y1, j, y);
    PowOne(2);
    TwicePow52();
    hide Pow, Up, Down;
    var b := Mul(Up(2, y), Down(2, y1));
    MulLaws(Mul(Up(2, y1), Down(2, y)), 1, 1);
    MulLaws(1, Mul(Up(2, y1), Down(2, y)), 1);
    CrossValues(m, Up(2, y), Down(2, y), m1, Up(2, y1), Down(2, y1), r, Up(2, g), Down(2, g));
    ShiftedMantissa(m, m1, Pow(2, j), b, Mul(Up(2, y1), Down(2, y)), Down(2, g));
    if j > 0 {
      PowMonotone(2, 1, j);
      Times(m1, m1, 2, Pow(2, j));
    }
  }

  /** m * u * dg == r * ug * v and m1 * u1 * dg == r * ug * v1, crosswise. */
  lemma CrossValues(m: nat, u: nat, v: nat, m1: nat, u1: nat, v1: nat, r: nat, ug: nat, dg: nat)
    requires Mul(m, Mul(u, dg)) == Mul(r, Mul(ug, v)) && Mul(m1, Mul(u1, dg)) == Mul(r, Mul(ug, v1))
    ensures Mul(Mul(m, Mul(u, v1)), dg) == Mul(Mul(m1, Mul(u1, v)), dg)
  {
    assert Mul(Mul(m, Mul(u, v1)), dg) == Mul(Mul(m, Mul(u, dg)), v1) by { Reorder(m, u, v1, dg); }
    assert Mul(Mul(m1, Mul(u1, v)), dg) == Mul(Mul(m1, Mul(u1, dg)), v) by { Reorder(m1, u1, v, dg); }
    assert Mul(Mul(r, Mul(ug, v)), v1) == Mul(Mul(r, Mul(ug, v1)), v) by { Reorder(r, ug, v, v1); }
  }

  lemma Reorder(a: nat, b: nat, c: nat, d: nat)
    ensures Mul(Mul(a, Mul(b, c)), d) == Mul(Mul(a, Mul(b, d)), c)
  {
    hide Mul;
    MulLaws(b, c, d);
    MulLaws(c, d, 1);
    MulLaws(b, d, c);
    MulLaws(a, Mul(b, c), d);
    MulLaws(a, Mul(b, d), c);
  }

  lemma ShiftedMantissa(m: nat, m1: nat, p: nat, b: nat, b1: nat, dg: nat)
    requires b1 == Mul(p, b) && b > 0 && dg > 0 && Mul(Mul(m, b), dg) == Mul(Mul(m1, b1), dg)
    ensures m == m1 * p
  {
    MulLaws(m1, p, b);
    assert Mul(m1, p) == m1 * p;
    SameFactor(Mul(m, b), Mul(m1, b1), dg);
    SameFactor(m, m1 * p, b);
  }

  lemma SameFactor(a: nat, b: nat, c: nat)
    requires c > 0 && Mul(a, c) == Mul(b, c)
    ensures a == b
  {
    hide Mul;
    if a < b {
      MulLess(a, b, c);
    } else if b < a {
      MulLess(b, a, c);
    }
  }

  /** A number has one nearest float64. */
  lemma NearestUnique(n: nat, d: nat, x: int, top: int, m: nat, e: int, top1: int, m1: nat, e1: int)
    requires NearestDouble(n, d, x, top, m, e) && NearestDouble(n, d, x, top1, m1, e1) && m > 0
    ensures m1 == m && e1 == e
  {
    hide Within, Up, Down, RoundAt, Pow, SameValue;
    TopAtMost(n, d, x, top, top1);
    TopAtMost(n, d, x, top1, top);
    var r, g := RoundAt(n, d, x, Grid(top)), Grid(top);
    if m1 == 0 {
      NotZero(m, e - 53, e1 - 53, r, g);
    }
    if e <= e1 {
      SameMantissa(m, e - 53, m1, e1 - 53, r, g);
    } else {
      SameMantissa(m1, e1 - 53, m, e - 53, r, g);
    }
  }

  lemma NotZero(m: nat, y: int, y1: int, r: nat, g: int)
    requires SameValue(m, y, r, g) && SameValue(0, y1, r, g)
    ensures m == 0
  {
    hide Mul, Up, Down;
    assert r == 0 by { NoProduct(Mul(Up(2, y1), Down(2, g))); }
    NoProduct(Mul(Up(2, g), Down(2, y)));
  }

  lemma NoProduct(a: nat)
    ensures Mul(0, a) == 0
  {
  }
}
