/** Powers of the radix compared with powers of two: mantissas of 33 bits, one
    squaring after the other, bound them from below and from above. */
module RadixPowers {
  import opened Arithmetic
  import opened Power
  import opened SmallPowers

  /** What is known of b^k: that c * 2^(s - 32) is a bound. */
  datatype Bound = Bound(b: nat, k: nat, c: nat, s: nat)

  ghost predicate IsBelow(x: Bound) {
    Pow(x.b, x.k) * 0x1_0000_0000 >= x.c * Pow(2, x.s)
  }

  ghost predicate IsAbove(x: Bound) {
    Pow(x.b, x.k) * 0x1_0000_0000 <= x.c * Pow(2, x.s)
  }

  function Two(i: nat): nat {
    if i == 0 then 1 else if i == 1 then 2 else if i == 2 then 4 else if i == 3 then 8
    else if i == 4 then 16 else if i == 5 then 32 else if i == 6 then 64 else 128
  }

  lemma TwoIs(i: nat)
    requires i < 8
    ensures Two(i) == Pow(2, i)
  {
    SmallPow2();
  }

  lemma FirstBelow(b: nat, s: nat, c: nat) returns (x: Bound)
    requires s < 8 && b * 0x1_0000_0000 >= c * Two(s)
    ensures x == Bound(b, 1, c, s) && IsBelow(x)
  {
    x := Bound(b, 1, c, s);
    TwoIs(s);
    PowOne(b);
  }

  lemma FirstAbove(b: nat, s: nat, c: nat) returns (x: Bound)
    requires s < 8 && b * 0x1_0000_0000 <= c * Two(s)
    ensures x == Bound(b, 1, c, s) && IsAbove(x)
  {
    x := Bound(b, 1, c, s);
    TwoIs(s);
    PowOne(b);
  }

  /** One squaring, and perhaps one factor more. */
  lemma Below(x: Bound, odd: nat, i: nat, c1: nat) returns (y: Bound)
    requires IsBelow(x) && odd <= 1 && i < 8
    requires c1 * 0x1_0000_0000 * Two(i) <= x.c * x.c * (if odd == 1 then x.b else 1)
    ensures y == Bound(x.b, 2 * x.k + odd, c1, 2 * x.s + i) && IsBelow(y)
  {
    y := Bound(x.b, 2 * x.k + odd, c1, 2 * x.s + i);
    TwoIs(i);
    SquarePowers(x.b, x.k, odd, x.s, i);
    hide Pow, Two;
    SquareBound(x.c * Pow(2, x.s), Pow(x.b, x.k) * 0x1_0000_0000, c1 * 0x1_0000_0000 * Pow(2, i),
                x.c * x.c * Pow(x.b, odd), Pow(x.b, odd), Pow(2, x.s) * Pow(2, x.s));
    Squares(x.c, Pow(2, x.s), Pow(x.b, x.k), Pow(x.b, odd), c1, Pow(2, i));
  }

  lemma Above(x: Bound, odd: nat, i: nat, c1: nat) returns (y: Bound)
    requires IsAbove(x) && odd <= 1 && i < 8
    requires c1 * 0x1_0000_0000 * Two(i) >= x.c * x.c * (if odd == 1 then x.b else 1)
    ensures y == Bound(x.b, 2 * x.k + odd, c1, 2 * x.s + i) && IsAbove(y)
  {
    y := Bound(x.b, 2 * x.k + odd, c1, 2 * x.s + i);
    TwoIs(i);
    SquarePowers(x.b, x.k, odd, x.s, i);
    hide Pow, Two;
    SquareBound(Pow(x.b, x.k) * 0x1_0000_0000, x.c * Pow(2, x.s), x.c * x.c * Pow(x.b, odd),
                c1 * 0x1_0000_0000 * Pow(2, i), Pow(x.b, odd), Pow(2, x.s) * Pow(2, x.s));
    Squares(x.c, Pow(2, x.s), Pow(x.b, x.k), Pow(x.b, odd), c1, Pow(2, i));
  }

  lemma SquarePowers(b: nat, k: nat, odd: nat, s: nat, i: nat)
    requires odd <= 1
    ensures Pow(b, 2 * k + odd) == Pow(b, k) * Pow(b, k) * Pow(b, odd)
    ensures Pow(b, odd) == if odd == 1 then b else 1
    ensures Pow(2, 2 * s + i) == Pow(2, s) * Pow(2, s) * Pow(2, i)
  {
    PowOne(b);
    PowAdd(b, k, k);
    PowAdd(b, k + k, odd);
    PowAdd(2, s, s);
    PowAdd(2, s + s, i);
    assert k + k + odd == 2 * k + odd && s + s + i == 2 * s + i;
  }

  lemma SquareBound(a: nat, b: nat, d: nat, e: nat, f: nat, v: nat)
    requires a <= b && d <= e
    ensures a * a * f <= b * b * f && d * v <= e * v
  {
    Times(a, b, a, b);
    Times(a * a, b * b, f, f);
    Times(d, e, v, v);
  }

  /** The two sides of a squaring, multiplied by 2^32. */
  lemma Squares(c: nat, u: nat, p: nat, f: nat, c1: nat, w: nat)
    ensures (c * u) * (c * u) * f == (c * c * f) * (u * u)
    ensures (c1 * 0x1_0000_0000 * w) * (u * u) == (c1 * (u * u * w)) * 0x1_0000_0000
    ensures (p * 0x1_0000_0000) * (p * 0x1_0000_0000) * f == ((p * p * f) * 0x1_0000_0000) * 0x1_0000_0000
  {
    var cc, uu, pp := c * c, u * u, p * p;
    assert (c * u) * (c * u) == cc * uu;
    assert (cc * uu) * f == (cc * f) * uu;
    assert (c1 * w) * uu == c1 * (uu * w);
    assert (p * 0x1_0000_0000) * (p * 0x1_0000_0000) == pp * 0x1_0000_0000_0000_0000;
  }

  lemma MoreThan(x: Bound)
    requires IsBelow(x) && x.c > 0x1_0000_0000
    ensures Pow(x.b, x.k) > Pow(2, x.s)
  {
    hide Pow;
    Times(0x1_0000_0001, x.c, Pow(2, x.s), Pow(2, x.s));
  }

  lemma LessThan(x: Bound)
    requires IsAbove(x) && x.c < 0x2_0000_0000
    ensures Pow(x.b, x.k) < Pow(2, x.s + 1)
  {
    assert Pow(2, x.s + 1) == 2 * Pow(2, x.s);
    hide Pow;
    Times(x.c, 0x1_ffff_ffff, Pow(2, x.s), Pow(2, x.s));
  }

  lemma Powers3()
    ensures Pow(3, 971) < Pow(2, 1539) && Pow(3, 665) > Pow(2, 1054)
  {
    hide Pow, IsBelow, IsAbove;
    var x: Bound;
    x := FirstAbove(3, 1, 6442450944); x := Above(x, 1, 2, 7247757312); x := Above(x, 1, 3, 4586471424);
    x := Above(x, 1, 1, 7346640384); x := Above(x, 0, 1, 6283298709); x := Above(x, 0, 1, 4596058590);
    x := Above(x, 1, 1, 7377386057); x := Above(x, 0, 1, 6335999938); x := Above(x, 1, 2, 7010221345);
    x := Above(x, 1, 2, 8581532743); LessThan(x);
    x := FirstBelow(3, 1, 6442450944); x := Below(x, 0, 1, 4831838208); x := Below(x, 1, 1, 8153726976);
    x := Below(x, 0, 1, 7739670528); x := Below(x, 0, 1, 6973568802); x := Below(x, 1, 2, 8492031222);
    x := Below(x, 1, 3, 6296432775); x := Below(x, 0, 1, 4615293081); x := Below(x, 0, 0, 4959509294);
    x := Below(x, 1, 2, 4295154783); MoreThan(x);
  }

  lemma Powers5()
    ensures Pow(5, 643) < Pow(2, 1493) && Pow(5, 789) > Pow(2, 1832)
  {
    hide Pow, IsBelow, IsAbove;
    var x: Bound;
    x := FirstAbove(5, 2, 5368709120); x := Above(x, 0, 0, 6710886400); x := Above(x, 1, 3, 6553600000);
    x := Above(x, 0, 1, 5000000000); x := Above(x, 0, 0, 5820766092); x := Above(x, 0, 0, 7888609054);
    x := Above(x, 0, 1, 7244543267); x := Above(x, 0, 1, 6109872734); x := Above(x, 1, 3, 5432309238);
    x := Above(x, 1, 2, 8588535612); LessThan(x);
    x := FirstBelow(5, 2, 5368709120); x := Below(x, 1, 2, 8388608000); x := Below(x, 0, 1, 8192000000);
    x := Below(x, 0, 1, 7812500000); x := Below(x, 0, 1, 7105427357); x := Below(x, 1, 3, 7346839691);
    x := Below(x, 0, 1, 6283639632); x := Below(x, 1, 3, 5745696693); x := Below(x, 0, 0, 7686445137);
    x := Below(x, 1, 4, 4298740448); MoreThan(x);
  }

  lemma Powers6()
    ensures Pow(6, 306) < Pow(2, 791) && Pow(6, 665) > Pow(2, 1719)
  {
    hide Pow, IsBelow, IsAbove;
    var x: Bound;
    x := FirstAbove(6, 2, 6442450944); x := Above(x, 0, 1, 4831838208); x := Above(x, 0, 0, 5435817984);
    x := Above(x, 1, 3, 5159780352); x := Above(x, 1, 3, 4649045868); x := Above(x, 0, 0, 5032314799);
    x := Above(x, 0, 0, 5896247979); x := Above(x, 1, 3, 6070897257); x := Above(x, 0, 0, 8581158125); LessThan(x);
    x := FirstBelow(6, 2, 6442450944); x := Below(x, 0, 1, 4831838208); x := Below(x, 1, 2, 8153726976);
    x := Below(x, 0, 1, 7739670528); x := Below(x, 0, 1, 6973568802); x := Below(x, 1, 3, 8492031222);
    x := Below(x, 1, 4, 6296432775); x := Below(x, 0, 1, 4615293081); x := Below(x, 0, 0, 4959509294);
    x := Below(x, 1, 3, 4295154783); MoreThan(x);
  }

  lemma Powers7()
    ensures Pow(7, 571) < Pow(2, 1603) && Pow(7, 680) > Pow(2, 1909)
  {
    hide Pow, IsBelow, IsAbove;
    var x: Bound;
    x := FirstAbove(7, 2, 7516192768); x := Above(x, 0, 1, 6576668672); x := Above(x, 0, 1, 5035261952);
    x := Above(x, 0, 0, 5903156224); x := Above(x, 1, 3, 7099319885); x := Above(x, 1, 4, 5133950615);
    x := Above(x, 1, 3, 5369719072); x := Above(x, 0, 0, 6713411518); x := Above(x, 1, 4, 4590972960);
    x := Above(x, 1, 2, 8587913416); LessThan(x);
    x := FirstBelow(7, 2, 7516192768); x := Below(x, 0, 1, 6576668672); x := Below(x, 1, 4, 4405854208);
    x := Below(x, 0, 0, 4519603984); x := Below(x, 1, 2, 8322981954); x := Below(x, 0, 1, 8064325503);
    x := Below(x, 1, 4, 6624518147); x := Below(x, 0, 1, 5108798001); x := Below(x, 0, 0, 6076837194);
    x := Below(x, 0, 1, 4298979216); MoreThan(x);
  }

  lemma Powers9()
    ensures Pow(9, 153) < Pow(2, 485) && Pow(9, 512) > Pow(2, 1623)
  {
    hide Pow, IsBelow, IsAbove;
    var x: Bound;
    x := FirstAbove(9, 3, 4831838208); x := Above(x, 0, 0, 5435817984); x := Above(x, 0, 0, 6879707136);
    x := Above(x, 1, 4, 6198727824); x := Above(x, 1, 4, 5032314799); x := Above(x, 0, 0, 5896247979);
    x := Above(x, 0, 0, 8094529675); x := Above(x, 1, 4, 8581158123); LessThan(x);
    x := FirstBelow(9, 3, 4831838208); x := Below(x, 0, 0, 5435817984); x := Below(x, 0, 0, 6879707136);
    x := Below(x, 0, 1, 5509980288); x := Below(x, 0, 0, 7068711047); x := Below(x, 0, 1, 5816886651);
    x := Below(x, 0, 0, 7878097312); x := Below(x, 0, 1, 7225249109); x := Below(x, 0, 1, 6077371617);
    x := Below(x, 0, 1, 4299735390); MoreThan(x);
  }

  lemma Powers10()
    ensures Pow(10, 497) < Pow(2, 1651) && Pow(10, 146) > Pow(2, 485)
  {
    hide Pow, IsBelow, IsAbove;
    var x: Bound;
    x := FirstAbove(10, 3, 5368709120); x := Above(x, 1, 3, 8388608000); x := Above(x, 1, 5, 5120000000);
    x := Above(x, 1, 3, 7629394532); x := Above(x, 1, 4, 8470329475); x := Above(x, 0, 1, 8352389724);
    x := Above(x, 0, 1, 8121413890); x := Above(x, 0, 1, 7678447708); x := Above(x, 1, 4, 8579599556); LessThan(x);
    x := FirstBelow(10, 3, 5368709120); x := Below(x, 0, 0, 6710886400); x := Below(x, 0, 1, 5242880000);
    x := Below(x, 1, 3, 8000000000); x := Below(x, 0, 1, 7450580596); x := Below(x, 0, 1, 6462348533);
    x := Below(x, 1, 4, 6077163352); x := Below(x, 0, 1, 4299440701); MoreThan(x);
  }

  lemma Powers11()
    ensures Pow(11, 37) < Pow(2, 128) && Pow(11, 579) > Pow(2, 2003)
  {
    hide Pow, IsBelow, IsAbove;
    var x: Bound;
    x := FirstAbove(11, 3, 5905580032); x := Above(x, 0, 0, 8120172544); x := Above(x, 0, 1, 7676100608);
    x := Above(x, 1, 5, 4715895382); x := Above(x, 0, 0, 5178076508); x := Above(x, 1, 3, 8583803416); LessThan(x);
    x := FirstBelow(11, 3, 5905580032); x := Below(x, 0, 0, 8120172544); x := Below(x, 0, 1, 7676100608);
    x := Below(x, 1, 5, 4715895382); x := Below(x, 0, 0, 5178076507); x := Below(x, 0, 0, 6242766117);
    x := Below(x, 0, 1, 4536952915); x := Below(x, 0, 0, 4792572407); x := Below(x, 1, 3, 7353264752);
    x := Below(x, 1, 5, 4327561529); MoreThan(x);
  }

  lemma Powers12()
    ensures Pow(12, 306) < Pow(2, 1097) && Pow(12, 359) > Pow(2, 1287)
  {
    hide Pow, IsBelow, IsAbove;
    var x: Bound;
    x := FirstAbove(12, 3, 6442450944); x := Above(x, 0, 1, 4831838208); x := Above(x, 0, 0, 5435817984);
    x := Above(x, 1, 4, 5159780352); x := Above(x, 1, 4, 4649045868); x := Above(x, 0, 0, 5032314799);
    x := Above(x, 0, 0, 5896247979); x := Above(x, 1, 4, 6070897257); x := Above(x, 0, 0, 8581158125); LessThan(x);
    x := FirstBelow(12, 3, 6442450944); x := Below(x, 0, 1, 4831838208); x := Below(x, 1, 3, 8153726976);
    x := Below(x, 1, 5, 5804752896); x := Below(x, 0, 0, 7845264902); x := Below(x, 0, 1, 7165151343);
    x := Below(x, 1, 5, 4482519035); x := Below(x, 1, 3, 7017391116); x := Below(x, 1, 5, 4299547704); MoreThan(x);
  }

  lemma Powers13()
    ensures Pow(13, 227) < Pow(2, 840) && Pow(13, 464) > Pow(2, 1717)
  {
    hide Pow, IsBelow, IsAbove;
    var x: Bound;
    x := FirstAbove(13, 3, 6979321856); x := Above(x, 1, 5, 4607442944); x := Above(x, 1, 3, 8031810176);
    x := Above(x, 0, 1, 7509949467); x := Above(x, 0, 1, 6565747433); x := Above(x, 0, 1, 5018552691);
    x := Above(x, 1, 4, 4764534598); x := Above(x, 1, 3, 8588839240); LessThan(x);
    x := FirstBelow(13, 3, 6979321856); x := Below(x, 1, 5, 4607442944); x := Below(x, 1, 3, 8031810176);
    x := Below(x, 0, 1, 7509949466); x := Below(x, 1, 5, 5334669787); x := Below(x, 0, 0, 6626057842);
    x := Below(x, 0, 1, 5111173089); x := Below(x, 0, 0, 6082488770); x := Below(x, 0, 1, 4306979202); MoreThan(x);
  }

  lemma Powers14()
    ensures Pow(14, 462) < Pow(2, 1759) && Pow(14, 109) > Pow(2, 415)
  {
    hide Pow, IsBelow, IsAbove;
    var x: Bound;
    x := FirstAbove(14, 3, 7516192768); x := Above(x, 1, 5, 5754585088); x := Above(x, 1, 4, 6746464256);
    x := Above(x, 0, 1, 5298617757); x := Above(x, 0, 0, 6536801843); x := Above(x, 1, 5, 4352600785);
    x := Above(x, 1, 3, 7719263386); x := Above(x, 1, 5, 6069737582); x := Above(x, 0, 0, 8577880058); LessThan(x);
    x := FirstBelow(14, 3, 7516192768); x := Below(x, 1, 5, 5754585088); x := Below(x, 0, 0, 7710244864);
    x := Below(x, 1, 5, 6055563150); x := Below(x, 1, 4, 7470630675); x := Below(x, 0, 1, 6497176676);
    x := Below(x, 1, 5, 4299991026); MoreThan(x);
  }

  lemma Powers15()
    ensures Pow(15, 290) < Pow(2, 1133) && Pow(15, 247) > Pow(2, 965)
  {
    hide Pow, IsBelow, IsAbove;
    var x: Bound;
    x := FirstAbove(15, 3, 8053063680); x := Above(x, 0, 1, 7549747200); x := Above(x, 0, 1, 6635520000);
    x := Above(x, 1, 5, 4805419922); x := Above(x, 0, 0, 5376539340); x := Above(x, 0, 0, 6730476226);
    x := Above(x, 0, 1, 5273533779); x := Above(x, 1, 4, 6070366039); x := Above(x, 0, 0, 8579656447); LessThan(x);
    x := FirstBelow(15, 3, 8053063680); x := Below(x, 1, 5, 7077888000); x := Below(x, 1, 5, 5467500000);
    x := Below(x, 1, 4, 6525127446); x := Below(x, 0, 1, 4956648706); x := Below(x, 1, 4, 5362751776);
    x := Below(x, 1, 4, 6277501221); x := Below(x, 1, 5, 4300857280); MoreThan(x);
  }

  lemma Powers17()
    ensures Pow(17, 343) < Pow(2, 1402) && Pow(17, 263) > Pow(2, 1075)
  {
    hide Pow, IsBelow, IsAbove;
    var x: Bound;
    x := FirstAbove(17, 4, 4563402752); x := Above(x, 0, 0, 4848615424); x := Above(x, 1, 4, 5815734272);
    x := Above(x, 0, 0, 7874976174); x := Above(x, 1, 5, 7670745586); x := Above(x, 0, 1, 6849916867);
    x := Above(x, 1, 5, 5803763186); x := Above(x, 1, 4, 8332751765); x := Above(x, 1, 5, 8588473310); LessThan(x);
    x := FirstBelow(17, 4, 4563402752); x := Below(x, 0, 0, 4848615424); x := Below(x, 0, 0, 5473632256);
    x := Below(x, 0, 0, 6975757441); x := Below(x, 0, 1, 5664908312); x := Below(x, 0, 0, 7471811534);
    x := Below(x, 1, 5, 6905432740); x := Below(x, 1, 5, 5898218824); x := Below(x, 1, 5, 4303094101); MoreThan(x);
  }

  lemma Powers18()
    ensures Pow(18, 153) < Pow(2, 638) && Pow(18, 359) > Pow(2, 1497)
  {
    hide Pow, IsBelow, IsAbove;
    var x: Bound;
    x := FirstAbove(18, 4, 4831838208); x := Above(x, 0, 0, 5435817984); x := Above(x, 0, 0, 6879707136);
    x := Above(x, 1, 5, 6198727824); x := Above(x, 1, 5, 5032314799); x := Above(x, 0, 0, 5896247979);
    x := Above(x, 0, 0, 8094529675); x := Above(x, 1, 5, 8581158123); LessThan(x);
    x := FirstBelow(18, 4, 4831838208); x := Below(x, 0, 0, 5435817984); x := Below(x, 1, 4, 7739670528);
    x := Below(x, 1, 5, 7845264902); x := Below(x, 0, 1, 7165151343); x := Below(x, 0, 1, 5976692047);
    x := Below(x, 1, 5, 4678260744); x := Below(x, 1, 4, 5732730272); x := Below(x, 1, 5, 4304132996); MoreThan(x);
  }

  lemma Powers19()
    ensures Pow(19, 121) < Pow(2, 514) && Pow(19, 480) > Pow(2, 2039)
  {
    hide Pow, IsBelow, IsAbove;
    var x: Bound;
    x := FirstAbove(19, 4, 5100273664); x := Above(x, 1, 4, 7192182784); x := Above(x, 1, 5, 7150973912);
    x := Above(x, 1, 5, 7069263156); x := Above(x, 0, 1, 5817795355); x := Above(x, 0, 0, 7880558911);
    x := Above(x, 1, 5, 8585345977); LessThan(x);
    x := FirstBelow(19, 4, 5100273664); x := Below(x, 1, 4, 7192182784); x := Below(x, 1, 5, 7150973912);
    x := Below(x, 1, 5, 7069263155); x := Below(x, 0, 1, 5817795353); x := Below(x, 0, 0, 7880558904);
    x := Below(x, 0, 1, 7229765020); x := Below(x, 0, 1, 6084970925); x := Below(x, 0, 1, 4310495122); MoreThan(x);
  }

  lemma Powers20()
    ensures Pow(20, 351) < Pow(2, 1517) && Pow(20, 146) > Pow(2, 631)
  {
    hide Pow, IsBelow, IsAbove;
    var x: Bound;
    x := FirstAbove(20, 4, 5368709120); x := Above(x, 0, 0, 6710886400); x := Above(x, 1, 5, 6553600000);
    x := Above(x, 0, 1, 5000000000); x := Above(x, 1, 4, 7275957615); x := Above(x, 1, 5, 7703719780);
    x := Above(x, 1, 6, 4318084281); x := Above(x, 1, 4, 5426657112); x := Above(x, 1, 4, 8570672773); LessThan(x);
    x := FirstBelow(20, 4, 5368709120); x := Below(x, 0, 0, 6710886400); x := Below(x, 0, 1, 5242880000);
    x := Below(x, 1, 4, 8000000000); x := Below(x, 0, 1, 7450580596); x := Below(x, 0, 1, 6462348533);
    x := Below(x, 1, 5, 6077163352); x := Below(x, 0, 1, 4299440701); MoreThan(x);
  }

  lemma Powers21()
    ensures Pow(21, 339) < Pow(2, 1489) && Pow(21, 130) > Pow(2, 571)
  {
    hide Pow, IsBelow, IsAbove;
    var x: Bound;
    x := FirstAbove(21, 4, 5637144576); x := Above(x, 0, 0, 7398752256); x := Above(x, 1, 5, 8364238848);
    x := Above(x, 0, 1, 8144473134); x := Above(x, 1, 6, 5067636431); x := Above(x, 0, 0, 5979309557);
    x := Above(x, 0, 0, 8324194416); x := Above(x, 1, 6, 5293755626); x := Above(x, 1, 4, 8563814062); LessThan(x);
    x := FirstBelow(21, 4, 5637144576); x := Below(x, 0, 0, 7398752256); x := Below(x, 0, 1, 6372753408);
    x := Below(x, 0, 1, 4727857420); x := Below(x, 0, 0, 5204378576); x := Below(x, 0, 0, 6306347521);
    x := Below(x, 1, 5, 6076664432); x := Below(x, 0, 1, 4298734783); MoreThan(x);
  }

  lemma Powers22()
    ensures Pow(22, 37) < Pow(2, 165) && Pow(22, 431) > Pow(2, 1922)
  {
    hide Pow, IsBelow, IsAbove;
    var x: Bound;
    x := FirstAbove(22, 4, 5905580032); x := Above(x, 0, 0, 8120172544); x := Above(x, 0, 1, 7676100608);
    x := Above(x, 1, 6, 4715895382); x := Above(x, 0, 0, 5178076508); x := Above(x, 1, 4, 8583803416); LessThan(x);
    x := FirstBelow(22, 4, 5905580032); x := Below(x, 1, 5, 5582618624); x := Below(x, 0, 0, 7256313856);
    x := Below(x, 1, 5, 8428396519); x := Below(x, 0, 1, 8269896251); x := Below(x, 1, 6, 5473724915);
    x := Below(x, 1, 5, 4795995612); x := Below(x, 1, 4, 7363772980); x := Below(x, 1, 6, 4339939023); MoreThan(x);
  }

  lemma Powers23()
    ensures Pow(23, 403) < Pow(2, 1823) && Pow(23, 191) > Pow(2, 864)
  {
    hide Pow, IsBelow, IsAbove;
    var x: Bound;
    x := FirstAbove(23, 4, 6174015488); x := Above(x, 1, 5, 6379012096); x := Above(x, 0, 1, 4737148448);
    x := Above(x, 0, 0, 5224853619); x := Above(x, 1, 5, 4568422394); x := Above(x, 0, 0, 4859288030);
    x := Above(x, 0, 0, 5497755520); x := Above(x, 1, 5, 5058116676); x := Above(x, 1, 4, 8562994759); LessThan(x);
    x := FirstBelow(23, 4, 6174015488); x := Below(x, 0, 1, 4437573632); x := Below(x, 1, 4, 6590815232);
    x := Below(x, 1, 5, 7269361556); x := Below(x, 1, 6, 4421611087); x := Below(x, 1, 4, 6543484427);
    x := Below(x, 1, 5, 7165329110); x := Below(x, 1, 6, 4295960566); MoreThan(x);
  }

  lemma Powers24()
    ensures Pow(24, 306) < Pow(2, 1403) && Pow(24, 359) > Pow(2, 1646)
  {
    hide Pow, IsBelow, IsAbove;
    var x: Bound;
    x := FirstAbove(24, 4, 6442450944); x := Above(x, 0, 1, 4831838208); x := Above(x, 0, 0, 5435817984);
    x := Above(x, 1, 5, 5159780352); x := Above(x, 1, 5, 4649045868); x := Above(x, 0, 0, 5032314799);
    x := Above(x, 0, 0, 5896247979); x := Above(x, 1, 5, 6070897257); x := Above(x, 0, 0, 8581158125); LessThan(x);
    x := FirstBelow(24, 4, 6442450944); x := Below(x, 0, 1, 4831838208); x := Below(x, 1, 4, 8153726976);
    x := Below(x, 1, 6, 5804752896); x := Below(x, 0, 0, 7845264902); x := Below(x, 0, 1, 7165151343);
    x := Below(x, 1, 6, 4482519035); x := Below(x, 1, 4, 7017391116); x := Below(x, 1, 6, 4299547704); MoreThan(x);
  }

  lemma Powers25()
    ensures Pow(25, 424) < Pow(2, 1969) && Pow(25, 73) > Pow(2, 339)
  {
    hide Pow, IsBelow, IsAbove;
    var x: Bound;
    x := FirstAbove(25, 4, 6710886400); x := Above(x, 1, 5, 8192000000); x := Above(x, 0, 1, 7812500000);
    x := Above(x, 1, 6, 5551115124); x := Above(x, 0, 0, 7174648140); x := Above(x, 1, 6, 4681676359);
    x := Above(x, 0, 0, 5103203825); x := Above(x, 0, 0, 6063536108); x := Above(x, 0, 0, 8560360906); LessThan(x);
    x := FirstBelow(25, 4, 6710886400); x := Below(x, 0, 1, 5242880000); x := Below(x, 0, 0, 6400000000);
    x := Below(x, 1, 5, 7450580596); x := Below(x, 0, 1, 6462348533); x := Below(x, 0, 1, 4861730681);
    x := Below(x, 1, 5, 4299440700); MoreThan(x);
  }

  lemma Powers26()
    ensures Pow(26, 227) < Pow(2, 1067) && Pow(26, 237) > Pow(2, 1114)
  {
    hide Pow, IsBelow, IsAbove;
    var x: Bound;
    x := FirstAbove(26, 4, 6979321856); x := Above(x, 1, 6, 4607442944); x := Above(x, 1, 4, 8031810176);
    x := Above(x, 0, 1, 7509949467); x := Above(x, 0, 1, 6565747433); x := Above(x, 0, 1, 5018552691);
    x := Above(x, 1, 5, 4764534598); x := Above(x, 1, 4, 8588839240); LessThan(x);
    x := FirstBelow(26, 4, 6979321856); x := Below(x, 1, 6, 4607442944); x := Below(x, 1, 4, 8031810176);
    x := Below(x, 0, 1, 7509949466); x := Below(x, 1, 6, 5334669787); x := Below(x, 1, 5, 5383671997);
    x := Below(x, 0, 0, 6748345720); x := Below(x, 1, 6, 4307528502); MoreThan(x);
  }

  lemma Powers27()
    ensures Pow(27, 102) < Pow(2, 485) && Pow(27, 359) > Pow(2, 1707)
  {
    hide Pow, IsBelow, IsAbove;
    var x: Bound;
    x := FirstAbove(27, 4, 7247757312); x := Above(x, 1, 6, 5159780352); x := Above(x, 0, 0, 6198727824);
    x := Above(x, 0, 1, 4473168710); x := Above(x, 1, 4, 7861663971); x := Above(x, 1, 6, 6070897255);
    x := Above(x, 0, 0, 8581158119); LessThan(x);
    x := FirstBelow(27, 4, 7247757312); x := Below(x, 0, 1, 6115295232); x := Below(x, 1, 5, 7346640384);
    x := Below(x, 1, 6, 5301533285); x := Below(x, 0, 0, 6543997482); x := Below(x, 0, 1, 4985358454);
    x := Below(x, 1, 5, 4882550061); x := Below(x, 1, 5, 4683249918); x := Below(x, 1, 5, 4308723178); MoreThan(x);
  }

  lemma Powers28()
    ensures Pow(28, 353) < Pow(2, 1697) && Pow(28, 109) > Pow(2, 524)
  {
    hide Pow, IsBelow, IsAbove;
    var x: Bound;
    x := FirstAbove(28, 4, 7516192768); x := Above(x, 0, 1, 6576668672); x := Above(x, 1, 6, 4405854208);
    x := Above(x, 1, 4, 7909306972); x := Above(x, 0, 1, 7282609211); x := Above(x, 0, 1, 6174249216);
    x := Above(x, 0, 1, 4437909623); x := Above(x, 0, 0, 4585609265); x := Above(x, 1, 4, 8567858390); LessThan(x);
    x := FirstBelow(28, 4, 7516192768); x := Below(x, 1, 6, 5754585088); x := Below(x, 0, 0, 7710244864);
    x := Below(x, 1, 6, 6055563150); x := Below(x, 1, 5, 7470630675); x := Below(x, 0, 1, 6497176676);
    x := Below(x, 1, 6, 4299991026); MoreThan(x);
  }

  lemma Powers29()
    ensures Pow(29, 169) < Pow(2, 821) && Pow(29, 345) > Pow(2, 1676)
  {
    hide Pow, IsBelow, IsAbove;
    var x: Bound;
    x := FirstAbove(29, 4, 7784628224); x := Above(x, 0, 1, 7054819328); x := Above(x, 1, 6, 5250854144);
    x := Above(x, 0, 0, 6419482930); x := Above(x, 1, 6, 4347686888); x := Above(x, 0, 0, 4401053600);
    x := Above(x, 0, 0, 4509760251); x := Above(x, 1, 4, 8582722340); LessThan(x);
    x := FirstBelow(29, 4, 7784628224); x := Below(x, 0, 1, 7054819328); x := Below(x, 1, 6, 5250854144);
    x := Below(x, 0, 0, 6419482929); x := Below(x, 1, 6, 4347686885); x := Below(x, 1, 4, 7976909637);
    x := Below(x, 0, 1, 7407633512); x := Below(x, 0, 1, 6388061941); x := Below(x, 1, 6, 4305230415); MoreThan(x);
  }

  lemma Powers30()
    ensures Pow(30, 290) < Pow(2, 1423) && Pow(30, 247) > Pow(2, 1212)
  {
    hide Pow, IsBelow, IsAbove;
    var x: Bound;
    x := FirstAbove(30, 4, 8053063680); x := Above(x, 0, 1, 7549747200); x := Above(x, 0, 1, 6635520000);
    x := Above(x, 1, 6, 4805419922); x := Above(x, 0, 0, 5376539340); x := Above(x, 0, 0, 6730476226);
    x := Above(x, 0, 1, 5273533779); x := Above(x, 1, 5, 6070366039); x := Above(x, 0, 0, 8579656447); LessThan(x);
    x := FirstBelow(30, 4, 8053063680); x := Below(x, 1, 6, 7077888000); x := Below(x, 1, 6, 5467500000);
    x := Below(x, 1, 5, 6525127446); x := Below(x, 0, 1, 4956648706); x := Below(x, 1, 5, 5362751776);
    x := Below(x, 1, 5, 6277501221); x := Below(x, 1, 6, 4300857280); MoreThan(x);
  }

  lemma Powers31()
    ensures Pow(31, 131) < Pow(2, 649) && Pow(31, 371) > Pow(2, 1838)
  {
    hide Pow, IsBelow, IsAbove;
    var x: Bound;
    x := FirstAbove(31, 4, 8321499136); x := Above(x, 0, 1, 8061452288); x := Above(x, 0, 1, 7565484032);
    x := Above(x, 0, 1, 6663211231); x := Above(x, 0, 1, 5168652152); x := Above(x, 0, 0, 6220062513);
    x := Above(x, 1, 6, 4363262661); x := Above(x, 1, 4, 8588247766); LessThan(x);
    x := FirstBelow(31, 4, 8321499136); x := Below(x, 0, 1, 8061452288); x := Below(x, 1, 6, 7329062656);
    x := Below(x, 1, 6, 6057852958); x := Below(x, 1, 5, 8277311690); x := Below(x, 0, 1, 7976066415);
    x := Below(x, 0, 1, 7406067505); x := Below(x, 1, 6, 6185818756); x := Below(x, 1, 6, 4315352140); MoreThan(x);
  }

  lemma Powers33()
    ensures Pow(33, 45) < Pow(2, 227) && Pow(33, 383) > Pow(2, 1932)
  {
    hide Pow, IsBelow, IsAbove;
    var x: Bound;
    x := FirstAbove(33, 5, 4429185024); x := Above(x, 0, 0, 4567597056); x := Above(x, 1, 5, 5009330304);
    x := Above(x, 1, 5, 6025088610); x := Above(x, 0, 0, 8452146491); x := Above(x, 1, 6, 8576461369); LessThan(x);
    x := FirstBelow(33, 5, 4429185024); x := Below(x, 0, 0, 4567597056); x := Below(x, 1, 5, 5009330304);
    x := Below(x, 1, 5, 6025088609); x := Below(x, 1, 6, 4358138032); x := Below(x, 1, 5, 4560432822);
    x := Below(x, 1, 5, 4993628450); x := Below(x, 1, 5, 5987376267); x := Below(x, 1, 6, 4303751704); MoreThan(x);
  }

  lemma Powers34()
    ensures Pow(34, 343) < Pow(2, 1745) && Pow(34, 263) > Pow(2, 1338)
  {
    hide Pow, IsBelow, IsAbove;
    var x: Bound;
    x := FirstAbove(34, 5, 4563402752); x := Above(x, 0, 0, 4848615424); x := Above(x, 1, 5, 5815734272);
    x := Above(x, 0, 0, 7874976174); x := Above(x, 1, 6, 7670745586); x := Above(x, 0, 1, 6849916867);
    x := Above(x, 1, 6, 5803763186); x := Above(x, 1, 5, 8332751765); x := Above(x, 1, 6, 8588473310); LessThan(x);
    x := FirstBelow(34, 5, 4563402752); x := Below(x, 0, 0, 4848615424); x := Below(x, 0, 0, 5473632256);
    x := Below(x, 0, 0, 6975757441); x := Below(x, 0, 1, 5664908312); x := Below(x, 0, 0, 7471811534);
    x := Below(x, 1, 6, 6905432740); x := Below(x, 1, 6, 5898218824); x := Below(x, 1, 6, 4303094101); MoreThan(x);
  }

  lemma Powers35()
    ensures Pow(35, 379) < Pow(2, 1944) && Pow(35, 263) > Pow(2, 1349)
  {
    hide Pow, IsBelow, IsAbove;
    var x: Bound;
    x := FirstAbove(35, 5, 4697620480); x := Above(x, 0, 0, 5138022400); x := Above(x, 1, 5, 6722800000);
    x := Above(x, 1, 6, 5754778229); x := Above(x, 1, 5, 8433646409); x := Above(x, 1, 7, 4528235352);
    x := Above(x, 0, 0, 4774172652); x := Above(x, 1, 5, 5804361411); x := Above(x, 1, 5, 8579601117); LessThan(x);
    x := FirstBelow(35, 5, 4697620480); x := Below(x, 0, 0, 5138022400); x := Below(x, 0, 0, 6146560000);
    x := Below(x, 0, 1, 4398194122); x := Below(x, 0, 0, 4503901939); x := Below(x, 0, 0, 4723000497);
    x := Below(x, 1, 5, 5680599710); x := Below(x, 1, 5, 8217629927); x := Below(x, 1, 7, 4299236855); MoreThan(x);
  }

  lemma Powers36()
    ensures Pow(36, 153) < Pow(2, 791) && Pow(36, 359) > Pow(2, 1856)
  {
    hide Pow, IsBelow, IsAbove;
    var x: Bound;
    x := FirstAbove(36, 5, 4831838208); x := Above(x, 0, 0, 5435817984); x := Above(x, 0, 0, 6879707136);
    x := Above(x, 1, 6, 6198727824); x := Above(x, 1, 6, 5032314799); x := Above(x, 0, 0, 5896247979);
    x := Above(x, 0, 0, 8094529675); x := Above(x, 1, 6, 8581158123); LessThan(x);
    x := FirstBelow(36, 5, 4831838208); x := Below(x, 0, 0, 5435817984); x := Below(x, 1, 5, 7739670528);
    x := Below(x, 1, 6, 7845264902); x := Below(x, 0, 1, 7165151343); x := Below(x, 0, 1, 5976692047);
    x := Below(x, 1, 6, 4678260744); x := Below(x, 1, 5, 5732730272); x := Below(x, 1, 6, 4304132996); MoreThan(x);
  }
}
