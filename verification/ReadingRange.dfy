/** Which numbers read as a given float64: those no further away than half of the
    distance to the next one on their side. */
module ReadingRange {
  import opened Arithmetic
  import opened Power
  import opened Rounding
  import opened ScaleAndRound
  import opened RoundToDouble
  import opened NearestDoubles
  import opened FreeFormat
  import opened DoubleBits

  /** The float64 m * 2^(e - 53) in units of its last place, 2^Grid(e). */
  function Units(m: nat, e: int): nat
    requires IsDouble(m, e)
  {
    UnitsAre(m, e, m / Pow(2, Grid(e) - (e - 53)));
    m / Pow(2, Grid(e) - (e - 53))
  }

  /** A power of two with a smaller distance to the float64 below it. */
  ghost predicate Narrow(m: nat, e: int) {
    m == Pow(2, 52) && e > -1021
  }

  /** num/den is at most half a unit away from r, and exactly half a unit only from
      an even one; on the narrow side a quarter of a unit. */
  predicate InRange(num: nat, den: nat, r: nat, narrow: bool) {
    Positive(r, den);
    var gap := Distance(num, r * den);
    if narrow && num < r * den then 4 * gap <= den
    else 2 * gap <= den && (2 * gap == den ==> r % 2 == 0)
  }

  ghost predicate ReadsAsDouble(n: nat, d: nat, x: int, m: nat, e: int) {
    exists top :: NearestDouble(n, d, x, top, m, e)
  }

  /** n/d * 2^x in units of 2^g. */
  function Num(n: nat, x: int, g: int): nat {
    Mul(n, Down(2, g - x))
  }

  function Den(d: nat, x: int, g: int): nat {
    Mul(d, Up(2, g - x))
  }

  lemma UnitsAre(m: nat, e: int, r: int)
    requires IsDouble(m, e) && r == m / Pow(2, Grid(e) - (e - 53))
    ensures r > 0 && m == r * Pow(2, Grid(e) - (e - 53)) && r <= m && SameValue(m, e - 53, r, Grid(e))
    ensures Grid(e) > -1074 ==> Grid(e) == e - 53 && r == m && e > -1021
    ensures r == Pow(2, 52) && Grid(e) == -1074 ==> e == -1021
  {
    var j := Grid(e) - (e - 53);
    PowOne(2);
    Pow53();
    hide Pow, SameValue, Mul;
    var p := Pow(2, j);
    assert m % p == 0 by { if j == 0 { DivideBack(m, 1, 0, m); } }
    QuotientSmall(m, p);
    assert m == r * p;
    Rounding.Ascending(0, r, p);
    assert Mul(r, p) == m by { ProductIs(r, p); }
    Shifted(r, j, e - 53, Grid(e));
    if j == 0 {
      assert r * 1 == m;
    } else {
      PowMonotone(2, 1, j);
      Times(r, r, 2, p);
    }
  }

  // ----- from one grid to another ---------------------------------------------------------

  lemma GridStep(n: nat, d: nat, x: int, g1: int, g: int)
    requires g1 <= g
    ensures Mul(Num(n, x, g1), Den(d, x, g)) == Mul(Pow(2, g - g1), Mul(Num(n, x, g), Den(d, x, g1)))
    ensures d > 0 ==> Den(d, x, g) > 0 && Den(d, x, g1) > 0
  {
    var k, j := g1 - x, g - g1;
    TwoStep(k, j);
    assert k + j == g - x;
    hide Pow, Up, Down;
    StepProducts(n, d, Down(2, k), Up(2, k + j), Down(2, k + j), Up(2, k), Pow(2, j));
  }

  lemma StepProducts(n: nat, d: nat, w1: nat, u: nat, w: nat, u1: nat, p: nat)
    requires Mul(u, w1) == Mul(p, Mul(u1, w))
    ensures Mul(Mul(n, w1), Mul(d, u)) == Mul(p, Mul(Mul(n, w), Mul(d, u1)))
  {
    hide Mul;
    MulSwap(n, w1, d, u);
    MulSwap(n, w, d, u1);
    MulLaws(w1, u, 1);
    MulLaws(w, u1, 1);
    MulLaws(p, Mul(n, d), Mul(w, u1));
    MulLaws(Mul(n, d), p, Mul(w, u1));
    MulLaws(p, Mul(n, d), 1);
  }

  /** num1 / den1 == p * (num / den): bounds carry over. */
  lemma CoarserBelow(num1: nat, den1: nat, num: nat, den: nat, p: nat, a: nat)
    requires Mul(num1, den) == Mul(p, Mul(num, den1)) && num1 < a * den1 && den > 0 && den1 > 0
    ensures p * num < a * den
  {
    Rounding.Ascending(num1, a * den1, den);
    Regroup3(p, num, den1);
    assert (a * den1) * den == (a * den) * den1;
    Rounding.Ascending(p * num, a * den, den1);
  }

  lemma Regroup3(p: nat, num: nat, den1: nat)
    ensures p * num >= 0 && Mul(p, Mul(num, den1)) == (p * num) * den1
  {
    Positive(p, num);
    assert p * (num * den1) == (p * num) * den1;
  }

  lemma CoarserAtLeast(num1: nat, den1: nat, num: nat, den: nat, p: nat, a: nat, c: nat)
    requires Mul(num1, den) == Mul(p, Mul(num, den1)) && a * den1 <= c * num1 && den > 0 && den1 > 0
    ensures a * den <= c * (p * num)
  {
    Times(a * den1, c * num1, den, den);
    Regroup3(p, num, den1);
    assert (a * den1) * den == (a * den) * den1;
    assert (c * num1) * den == c * (num1 * den) && c * ((p * num) * den1) == (c * (p * num)) * den1;
    Rounding.Ascending(c * (p * num), a * den, den1);
  }

  lemma FinerBelow(num1: nat, den1: nat, num: nat, den: nat, p: nat, a: nat)
    requires Mul(num1, den) == Mul(p, Mul(num, den1)) && p * num < a * den && den > 0 && den1 > 0
    ensures num1 < a * den1
  {
    Regroup3(p, num, den1);
    Rounding.Ascending(p * num, a * den, den1);
    assert (a * den) * den1 == (a * den1) * den;
    Rounding.Ascending(num1, a * den1, den);
  }

  lemma FinerAtLeast(num1: nat, den1: nat, num: nat, den: nat, p: nat, a: nat, c: nat)
    requires Mul(num1, den) == Mul(p, Mul(num, den1)) && a * den <= c * (p * num) && den > 0 && den1 > 0
    ensures a * den1 <= c * num1
  {
    Regroup3(p, num, den1);
    Times(a * den, c * (p * num), den1, den1);
    assert (a * den) * den1 == (a * den1) * den;
    assert (c * num1) * den == c * (num1 * den) && c * ((p * num) * den1) == (c * (p * num)) * den1;
    Rounding.Ascending(c * num1, a * den1, den);
  }

  // ----- ranges and rounding --------------------------------------------------------------

  /** Without a narrow side the range is where rounding gives r. */
  lemma RangeRounds(num: nat, den: nat, r: nat)
    requires den > 0
    ensures InRange(num, den, r, false) <==> Round(num, den, RNDN) == r
  {
    RoundIs(num, den, RNDN);
    var t := Round(num, den, RNDN);
    hide Round;
    Positive(r, den);
    Multiples(r, den, r * den);
    if InRange(num, den, r, false) {
      RoundUnique(num, den, RNDN, t, r);
    }
  }

  lemma NarrowAbove(num: nat, den: nat, r: nat)
    requires r * den <= num
    ensures InRange(num, den, r, true) <==> InRange(num, den, r, false)
  {
  }

  /** On a grid twice as fine the narrow side is where rounding gives 2^53. */
  lemma NarrowRounds(num1: nat, den1: nat, num: nat, den: nat)
    requires Mul(num1, den) == Mul(2, Mul(num, den1)) && den > 0 && den1 > 0
    requires num1 < Pow(2, 53) * den1
    ensures num < Pow(2, 52) * den
    ensures InRange(num, den, Pow(2, 52), true) <==> Round(num1, den1, RNDN) == Pow(2, 53)
  {
    Pow53();
    hide Pow;
    var r, k := Pow(2, 52), Pow(2, 53);
    CoarserBelow(num1, den1, num, den, 2, k);
    assert k * den == 2 * (r * den) && k * den1 == 2 * (r * den1);
    RangeRounds(num1, den1, k);
    hide Round;
    Positive(k, den1);
    var a := 2 * k - 1;
    assert a * den == 4 * (r * den) - den && a * den1 == 2 * (k * den1) - den1;
    if InRange(num, den, r, true) {
      FinerAtLeast(num1, den1, num, den, 2, a, 2);
    }
    if InRange(num1, den1, k, false) {
      CoarserAtLeast(num1, den1, num, den, 2, a, 2);
    }
  }

  // ----- the size of a number on its grid ---------------------------------------------------

  lemma BelowGrid(n: nat, d: nat, x: int, top: int)
    requires d > 0 && Within(n, d, x, top)
    ensures Num(n, x, Grid(top)) < Pow(2, 53) * Den(d, x, Grid(top))
  {
    var g := Grid(top);
    assert Num(n, x, top) < Den(d, x, top) by { assert top - 1 - x + 1 == top - x; }
    if top <= g {
      StaysBelow(n, d, top - x, g - x);
      Pow53();
      hide Pow, Num, Den;
      Times(1, Pow(2, 53), Den(d, x, g), Den(d, x, g));
      assert Num(n, x, g) < Den(d, x, g) by { NumIs(n, d, x, g); }
    } else {
      GridStep(n, d, x, g, top);
      PowMonotone(2, top - g, 53);
      hide Pow, Num, Den;
      var p := Pow(2, top - g);
      Rounding.Ascending(Num(n, x, top), Den(d, x, top), p);
      FinerBelow(Num(n, x, g), Den(d, x, g), Num(n, x, top), Den(d, x, top), p, p);
      Times(p, Pow(2, 53), Den(d, x, g), Den(d, x, g));
    }
  }

  lemma NumIs(n: nat, d: nat, x: int, g: int)
    ensures Num(n, x, g) == Mul(n, Down(2, g - x)) && Den(d, x, g) == Mul(d, Up(2, g - x))
  {
  }

  lemma AboveGrid(n: nat, d: nat, x: int, top: int, g: int)
    requires d > 0 && Within(n, d, x, top) && g <= top - 53
    ensures Pow(2, 52) * Den(d, x, g) <= Num(n, x, g)
  {
    GridStep(n, d, x, g, top - 1);
    PowMonotone(2, 52, top - 1 - g);
    NumIs(n, d, x, top - 1);
    hide Pow, Num, Den, Up, Down;
    var p := Pow(2, top - 1 - g);
    Times(Den(d, x, top - 1), Num(n, x, top - 1), p, p);
    FinerAtLeast(Num(n, x, g), Den(d, x, g), Num(n, x, top - 1), Den(d, x, top - 1), p, p, 1);
    Times(Pow(2, 52), p, Den(d, x, g), Den(d, x, g));
  }

  lemma RoundedSize(n: nat, d: nat, x: int, top: int)
    requires d > 0 && Within(n, d, x, top)
    ensures Den(d, x, Grid(top)) > 0
    ensures RoundAt(n, d, x, Grid(top)) == Round(Num(n, x, Grid(top)), Den(d, x, Grid(top)), RNDN)
    ensures RoundAt(n, d, x, Grid(top)) <= Pow(2, 53)
    ensures Grid(top) > -1074 ==> RoundAt(n, d, x, Grid(top)) >= Pow(2, 52)
  {
    var g := Grid(top);
    BelowGrid(n, d, x, top);
    var num, den := Num(n, x, g), Den(d, x, g);
    QuotientCheck(num, den, Pow(2, 53));
    if g > -1074 {
      AboveGrid(n, d, x, top, g);
      hide Pow, Num, Den;
      DoubleBits.RoundAtLeast(num, den, Pow(2, 52));
    }
  }

  // ----- the range of a float64 ---------------------------------------------------------------

  lemma SameTwoGrids(m: nat, y: int, r: nat, g: int, r1: nat, g1: int)
    requires SameValue(m, y, r, g) && SameValue(m, y, r1, g1)
    ensures g1 <= g ==> r1 == r * Pow(2, g - g1)
    ensures g <= g1 ==> r == r1 * Pow(2, g1 - g)
  {
    assert SameValue(r, g, r1, g1) && SameValue(r1, g1, r, g) by {
      hide Up, Down;
      SameChain(m, Up(2, y), Down(2, y), r, Up(2, g), Down(2, g), r1, Up(2, g1), Down(2, g1));
    }
    hide SameValue, Pow;
    if g1 <= g {
      Finer(r1, g1, r, g);
    }
    if g <= g1 {
      Finer(r, g, r1, g1);
    }
  }

  lemma SameChain(m: nat, u: nat, v: nat, r: nat, ug: nat, dg: nat, r1: nat, u1: nat, d1: nat)
    requires Mul(m, Mul(u, dg)) == Mul(r, Mul(ug, v)) && Mul(m, Mul(u, d1)) == Mul(r1, Mul(u1, v)) && v > 0
    ensures Mul(r, Mul(ug, d1)) == Mul(r1, Mul(u1, dg))
  {
    hide Mul;
    assert Mul(Mul(r, Mul(ug, v)), d1) == Mul(Mul(r, Mul(ug, d1)), v) by { NearestDoubles.Reorder(r, ug, v, d1); }
    assert Mul(Mul(r1, Mul(u1, v)), dg) == Mul(Mul(r1, Mul(u1, dg)), v) by { NearestDoubles.Reorder(r1, u1, v, dg); }
    assert Mul(Mul(m, Mul(u, dg)), d1) == Mul(Mul(m, Mul(u, d1)), dg) by { NearestDoubles.Reorder(m, u, dg, d1); }
    SameFactor(Mul(r, Mul(ug, d1)), Mul(r1, Mul(u1, dg)), v);
  }

  /** The grids on which a number that reads as (m, e) is rounded. */
  lemma ItsGrid(m: nat, e: int, r: nat, g1: int, r1: nat)
    requires IsDouble(m, e) && r == Units(m, e) && SameValue(m, e - 53, r1, g1)
    requires r1 <= Pow(2, 53) && g1 >= -1074 && (g1 > -1074 ==> r1 >= Pow(2, 52))
    ensures if g1 == Grid(e) then r1 == r
            else g1 == Grid(e) - 1 && r1 == Pow(2, 53) && r == Pow(2, 52) && Narrow(m, e)
  {
    UnitsAre(m, e, r);
    var g := Grid(e);
    SameTwoGrids(m, e - 53, r, g, r1, g1);
    PowOne(2);
    Pow53();
    hide Pow, SameValue, Units;
    if g1 > g {
      PowMonotone(2, 1, g1 - g);
      Times(r1, r1, 2, Pow(2, g1 - g));
    } else if g1 == g {
      assert r1 == r * 1;
    } else {
      var p := Pow(2, g - g1);
      PowMonotone(2, 1, g - g1);
      if g - g1 >= 2 {
        PowMonotone(2, 2, g - g1);
        PowAdd(2, 1, 1);
        Times(Pow(2, 52), r, 4, p);
      } else {
        assert r1 == 2 * r;
      }
    }
  }

  lemma ReadsInRange(n: nat, d: nat, x: int, m: nat, e: int, top: int)
    requires IsDouble(m, e) && NearestDouble(n, d, x, top, m, e)
    ensures var g := Grid(e); InRange(Num(n, x, g), Den(d, x, g), Units(m, e), Narrow(m, e))
  {
    RoundedSize(n, d, x, top);
    var g, g1, r, r1 := Grid(e), Grid(top), Units(m, e), RoundAt(n, d, x, Grid(top));
    ItsGrid(m, e, r, g1, r1);
    UnitsAre(m, e, r);
    hide Pow, SameValue, Num, Den, RoundAt, Round, InRange, Units, IsDouble;
    if g1 == g {
      RangeRounds(Num(n, x, g), Den(d, x, g), r);
      if Narrow(m, e) {
        AboveGrid(n, d, x, top, g);
        NarrowAbove(Num(n, x, g), Den(d, x, g), r);
      }
    } else {
      GridStep(n, d, x, g1, g);
      PowOne(2);
      BelowGrid(n, d, x, top);
      NarrowRounds(Num(n, x, g1), Den(d, x, g1), Num(n, x, g), Den(d, x, g));
    }
  }

  lemma RangeBounds(num: nat, den: nat, r: nat, narrow: bool)
    requires den > 0 && InRange(num, den, r, narrow)
    ensures 2 * num <= (2 * r + 1) * den
    ensures narrow ==> 4 * num >= (4 * r - 1) * den
    ensures !narrow ==> 2 * num >= (2 * r - 1) * den
  {
    Positive(r, den);
    Multiples(r, den, r * den);
    assert (4 * r - 1) * den == 4 * (r * den) - den;
  }

  /** The grid on which a number in the range is rounded. */
  lemma GridOfRange(n: nat, d: nat, x: int, top: int, m: nat, e: int)
    requires d > 0 && Within(n, d, x, top) && IsDouble(m, e)
    requires InRange(Num(n, x, Grid(e)), Den(d, x, Grid(e)), Units(m, e), Narrow(m, e))
    ensures Grid(top) != Grid(e) ==> Grid(top) == Grid(e) - 1 && Narrow(m, e)
  {
    var g, g1, r := Grid(e), Grid(top), Units(m, e);
    UnitsAre(m, e, r);
    Pow53();
    PowOne(2);
    PowAdd(2, 1, 1);
    var num, den := Num(n, x, g), Den(d, x, g);
    hide Pow, SameValue, InRange, Units, Num, Den;
    if g1 > g {
      AboveGrid(n, d, x, top, g1);
      GridStep(n, d, x, g, g1);
      PowMonotone(2, 1, g1 - g);
      RangeBounds(num, den, r, Narrow(m, e));
      TooFarUp(num, den, Num(n, x, g1), Den(d, x, g1), Pow(2, g1 - g), r);
    } else if g1 < g {
      BelowGrid(n, d, x, top);
      GridStep(n, d, x, g1, g);
      PowMonotone(2, 1, g - g1);
      RangeBounds(num, den, r, Narrow(m, e));
      if g - g1 >= 2 { PowMonotone(2, 2, g - g1); }
      TooFarDown(Num(n, x, g1), Den(d, x, g1), num, den, Pow(2, g - g1), r, Narrow(m, e));
    }
  }

  lemma TooFarUp(num: nat, den: nat, num1: nat, den1: nat, p: nat, r: nat)
    requires Mul(num, den1) == Mul(p, Mul(num1, den)) && den > 0 && den1 > 0 && p >= 2 && r < Pow(2, 53)
    requires Pow(2, 52) * den1 <= num1
    ensures !(2 * num <= (2 * r + 1) * den)
  {
    Pow53();
    hide Pow;
    var k := Pow(2, 53);
    Times(2, p, num1, num1);
    assert k * den1 == 2 * (Pow(2, 52) * den1);
    FinerAtLeast(num, den, num1, den1, p, k, 1);
    Times(2 * r + 1, 2 * k - 1, den, den);
    assert (2 * k - 1) * den == 2 * (k * den) - den;
  }

  lemma TooFarDown(num1: nat, den1: nat, num: nat, den: nat, p: nat, r: nat, narrow: bool)
    requires Mul(num1, den) == Mul(p, Mul(num, den1)) && den > 0 && den1 > 0 && p >= 2
    requires num1 < Pow(2, 53) * den1 && r >= Pow(2, 52) && (!narrow ==> r > Pow(2, 52))
    ensures !narrow ==> !(2 * num >= (2 * r - 1) * den)
    ensures narrow && p >= 4 ==> !(4 * num >= (4 * r - 1) * den)
  {
    Pow53();
    hide Pow;
    var k := Pow(2, 53);
    CoarserBelow(num1, den1, num, den, p, k);
    Times(2, p, num, num);
    if p >= 4 { Times(4, p, num, num); }
    Times(k, 2 * r, den, den);
    assert (2 * r - 1) * den == 2 * (r * den) - den && (4 * r - 1) * den == 4 * (r * den) - den;
    assert (2 * r) * den == 2 * (r * den);
    if !narrow {
      Times(k + 2, 2 * r, den, den);
      assert (k + 2) * den == k * den + 2 * den;
    }
    Times(2, k, den, den);
  }

  lemma InRangeReads(n: nat, d: nat, x: int, m: nat, e: int)
    requires n > 0 && d > 0 && IsDouble(m, e)
    requires InRange(Num(n, x, Grid(e)), Den(d, x, Grid(e)), Units(m, e), Narrow(m, e))
    ensures ReadsAsDouble(n, d, x, m, e)
  {
    var top, m1, e1 := NearestExists(n, d, x);
    assert Within(n, d, x, top);
    var g, g1, r, w := Grid(e), Grid(top), Units(m, e), e - 53;
    UnitsAre(m, e, r);
    GridOfRange(n, d, x, top, m, e);
    RoundedSize(n, d, x, top);
    hide Pow, Num, Den, InRange, Units, Round, RoundAt, SameValue;
    if g1 == g {
      if Narrow(m, e) {
        AboveGrid(n, d, x, top, g);
        NarrowAbove(Num(n, x, g), Den(d, x, g), r);
      }
      RangeRounds(Num(n, x, g), Den(d, x, g), r);
      ReadsHere(n, d, x, m, e, top, r, g);
    } else {
      GridStep(n, d, x, g1, g);
      PowOne(2);
      BelowGrid(n, d, x, top);
      NarrowRounds(Num(n, x, g1), Den(d, x, g1), Num(n, x, g), Den(d, x, g));
      TwiceAsFine(w);
      ReadsHere(n, d, x, m, e, top, Pow(2, 53), g1);
    }
  }

  lemma ReadsHere(n: nat, d: nat, x: int, m: nat, e: int, top: int, r: nat, g: int)
    requires d > 0 && Within(n, d, x, top) && g == Grid(top) && IsDouble(m, e)
    requires RoundAt(n, d, x, g) == r && SameValue(m, e - 53, r, g)
    ensures ReadsAsDouble(n, d, x, m, e)
  {
    hide Pow, RoundAt, SameValue, Within;
    assert NearestDouble(n, d, x, top, m, e);
  }

  lemma TwiceAsFine(w: int)
    ensures SameValue(Pow(2, 52), w, Pow(2, 53), w - 1)
  {
    PowerValue(52, w, 53, w - 1);
  }

  /** A number reads as a float64 if and only if it is in its range. */
  lemma ReadsExactly(n: nat, d: nat, x: int, m: nat, e: int)
    requires n > 0 && d > 0 && IsDouble(m, e)
    ensures var g := Grid(e);
            ReadsAsDouble(n, d, x, m, e) <==> InRange(Num(n, x, g), Den(d, x, g), Units(m, e), Narrow(m, e))
  {
    hide Num, Den, InRange, Units, Narrow, NearestDouble, IsDouble;
    if ReadsAsDouble(n, d, x, m, e) {
      var top :| NearestDouble(n, d, x, top, m, e);
      ReadsInRange(n, d, x, m, e, top);
    }
    if InRange(Num(n, x, Grid(e)), Den(d, x, Grid(e)), Units(m, e), Narrow(m, e)) {
      InRangeReads(n, d, x, m, e);
    }
  }
}
