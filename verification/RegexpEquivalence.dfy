/** Patterns that match alike: replacing a part by an equivalent one changes
    nothing, and neither does an upper bound that the subject cannot reach. */
module RegexpEquivalence {
  import opened RegexpInput
  import opened RegexpSemantics
  import opened RegexpFacts

  /** The same outcomes in the same order, from every state. */
  ghost predicate Equivalent(inp: Input, n1: Node, n2: Node, back: bool) {
    && Groups(n1) == Groups(n2)
    && forall base: nat, x: St {:trigger Match(inp, n1, base, back, x)} ::
         ValidSt(inp, x) && base + Groups(n1) <= |x.caps| ==>
           Match(inp, n1, base, back, x) == Match(inp, n2, base, back, x)
  }

  lemma EquivalentItself(inp: Input, n: Node, back: bool)
    ensures Equivalent(inp, n, n, back)
  {
  }

  lemma EquivalentAt(inp: Input, n1: Node, n2: Node, base: nat, back: bool, x: St)
    requires Equivalent(inp, n1, n2, back) && ValidSt(inp, x) && base + Groups(n1) <= |x.caps|
    ensures Groups(n1) == Groups(n2) && Match(inp, n1, base, back, x) == Match(inp, n2, base, back, x)
  {
  }

  lemma {:induction false} EachSame(inp: Input, n1: Node, n2: Node, base: nat, back: bool, x: St, ys: seq<St>)
    requires Equivalent(inp, n1, n2, back) && ValidSt(inp, x) && base + Groups(n1) <= |x.caps|
    requires AllFollow(inp, back, x, ys)
    ensures Groups(n1) == Groups(n2) && MatchEach(inp, n1, base, back, x, ys) == MatchEach(inp, n2, base, back, x, ys)
    decreases |ys|
  {
    hide Match, Groups;
    assert Groups(n1) == Groups(n2);
    if ys != [] {
      assert Follows(inp, back, x, ys[0]);
      EquivalentAt(inp, n1, n2, base, back, ys[0]);
      EachSame(inp, n1, n2, base, back, x, ys[1..]);
    }
  }

  // ----- congruence ---------------------------------------------------------------

  lemma CatAt(inp: Input, n1: Node, n2: Node, base: nat, back: bool, x: St)
    requires n1.Cat? && n2.Cat? && ValidSt(inp, x) && base + Groups(n1) <= |x.caps| && Groups(n1) == Groups(n2)
    requires Equivalent(inp, n1.first, n2.first, back) && Equivalent(inp, n1.second, n2.second, back)
    ensures Match(inp, n1, base, back, x) == Match(inp, n2, base, back, x)
  {
    TwoGroups(n1);
    TwoGroups(n2);
    hide Match, MatchEach, Groups, Equivalent;
    CatOutcomes(inp, n1, base, back, x);
    CatOutcomes(inp, n2, base, back, x);
    var base2 := base + Groups(n1.first);
    EquivalentAt(inp, n1.second, n2.second, base2, back, x);
    EquivalentAt(inp, n1.first, n2.first, base, back, x);
    if back {
      EachSame(inp, n1.first, n2.first, base, back, x, Match(inp, n1.second, base2, back, x));
    } else {
      EachSame(inp, n1.second, n2.second, base2, back, x, Match(inp, n1.first, base, back, x));
    }
  }

  lemma TwoGroups(n: Node)
    ensures n.Cat? ==> Groups(n) == Groups(n.first) + Groups(n.second)
    ensures n.Alt? ==> Groups(n) == Groups(n.left) + Groups(n.right)
  {
  }

  lemma CatEquivalent(inp: Input, n1: Node, n2: Node, back: bool)
    requires n1.Cat? && n2.Cat?
    requires Equivalent(inp, n1.first, n2.first, back) && Equivalent(inp, n1.second, n2.second, back)
    ensures Equivalent(inp, n1, n2, back)
  {
    hide Match;
    assert Groups(n1) == Groups(n2);
    forall base: nat, x: St | ValidSt(inp, x) && base + Groups(n1) <= |x.caps|
      ensures Match(inp, n1, base, back, x) == Match(inp, n2, base, back, x)
    {
      CatAt(inp, n1, n2, base, back, x);
    }
  }

  lemma AltAt(inp: Input, n1: Node, n2: Node, base: nat, back: bool, x: St)
    requires n1.Alt? && n2.Alt? && ValidSt(inp, x) && base + Groups(n1) <= |x.caps| && Groups(n1) == Groups(n2)
    requires Equivalent(inp, n1.left, n2.left, back) && Equivalent(inp, n1.right, n2.right, back)
    ensures Match(inp, n1, base, back, x) == Match(inp, n2, base, back, x)
  {
    TwoGroups(n1);
    TwoGroups(n2);
    hide Match, Groups, Equivalent;
    AltOutcomes(inp, n1, base, back, x);
    AltOutcomes(inp, n2, base, back, x);
    EquivalentAt(inp, n1.left, n2.left, base, back, x);
    EquivalentAt(inp, n1.right, n2.right, base + Groups(n1.left), back, x);
  }

  lemma AltEquivalent(inp: Input, n1: Node, n2: Node, back: bool)
    requires n1.Alt? && n2.Alt?
    requires Equivalent(inp, n1.left, n2.left, back) && Equivalent(inp, n1.right, n2.right, back)
    ensures Equivalent(inp, n1, n2, back)
  {
    hide Match;
    assert Groups(n1) == Groups(n2);
    forall base: nat, x: St | ValidSt(inp, x) && base + Groups(n1) <= |x.caps|
      ensures Match(inp, n1, base, back, x) == Match(inp, n2, base, back, x)
    {
      AltAt(inp, n1, n2, base, back, x);
    }
  }

  lemma GroupEquivalent(inp: Input, n1: Node, n2: Node, back: bool)
    requires n1.Group? && n2.Group? && Equivalent(inp, n1.body, n2.body, back)
    ensures Equivalent(inp, n1, n2, back)
  {
    forall base: nat, x: St | ValidSt(inp, x) && base + Groups(n1) <= |x.caps|
      ensures Match(inp, n1, base, back, x) == Match(inp, n2, base, back, x)
    {
      GroupOutcomes(inp, n1, base, back, x);
      GroupOutcomes(inp, n2, base, back, x);
      hide Match, CloseEach;
      EquivalentAt(inp, n1.body, n2.body, base + 1, back, x);
    }
  }

  lemma LookSame(inp: Input, n: Node, base: nat, back: bool, x: St)
    requires n.Look? && ValidSt(inp, x) && base + Groups(n) <= |x.caps|
    ensures var ys := Match(inp, n.body, base, n.behind, x);
            Match(inp, n, base, back, x)
            == if n.negative then (if ys == [] then [x] else []) else if ys == [] then [] else [x.(caps := ys[0].caps)]
  {
    hide AllFollow, Follows;
  }

  /** A lookaround runs its body in its own direction. */
  lemma LookEquivalent(inp: Input, n1: Node, n2: Node, back: bool)
    requires n1.Look? && n2.Look? && n1.behind == n2.behind && n1.negative == n2.negative
    requires Equivalent(inp, n1.body, n2.body, n1.behind)
    ensures Equivalent(inp, n1, n2, back)
  {
    forall base: nat, x: St | ValidSt(inp, x) && base + Groups(n1) <= |x.caps|
      ensures Match(inp, n1, base, back, x) == Match(inp, n2, base, back, x)
    {
      LookSame(inp, n1, base, back, x);
      LookSame(inp, n2, base, back, x);
      hide Match;
      EquivalentAt(inp, n1.body, n2.body, base, n1.behind, x);
    }
  }

  // ----- loops ----------------------------------------------------------------------

  /** The bounds are the same, or the second one is out of reach. */
  predicate SameBound(max: Bound, max2: Bound, min: nat, room: nat) {
    max2 == max || (max == Infinite && max2.Finite? && max2.n >= min + room)
  }

  function NextMin(min: nat): nat {
    if min == 0 then 0 else min - 1
  }

  lemma {:induction false} RepeatSame(inp: Input, b1: Node, b2: Node, min: nat, max: Bound, max2: Bound, greedy: bool,
                                      base: nat, back: bool, x: St)
    requires Equivalent(inp, b1, b2, back) && ValidSt(inp, x) && base + Groups(b1) <= |x.caps|
    requires SameBound(max, max2, min, Room(inp, back, x.pos))
    ensures Groups(b1) == Groups(b2)
    ensures Repeat(inp, b1, min, max, greedy, base, back, x) == Repeat(inp, b2, min, max2, greedy, base, back, x)
    decreases min, Room(inp, back, x.pos), 1, 0
  {
    hide Match, Groups, Repeat, RepeatEach, Equivalent, AllFollow, ValidSt;
    ResetValid(inp, x, base, Groups(b1));
    EquivalentAt(inp, b1, b2, base, back, Reset(x, base, Groups(b1)));
    var ys := RepeatIs(inp, b1, min, max, greedy, base, back, x);
    var zs := RepeatIs(inp, b2, min, max2, greedy, base, back, x);
    if max2 != Finite(0) {
      PassesSame(inp, b1, b2, min, max, max2, greedy, base, back, x, ys);
    } else if max != max2 {
      NoRoom(inp, b1, max, greedy, base, back, x, ys);
    }
  }

  lemma ResetValid(inp: Input, x: St, base: nat, count: nat)
    requires ValidSt(inp, x)
    ensures ValidSt(inp, Reset(x, base, count)) && |Reset(x, base, count).caps| == |x.caps|
  {
  }

  /** One turn of a loop: its passes start from the outcomes of the atom. */
  lemma RepeatIs(inp: Input, b: Node, min: nat, max: Bound, greedy: bool, base: nat, back: bool, x: St)
    returns (ys: seq<St>)
    requires ValidSt(inp, x) && base + Groups(b) <= |x.caps|
    ensures ValidSt(inp, Reset(x, base, Groups(b))) && ys == Match(inp, b, base, back, Reset(x, base, Groups(b)))
    ensures AllFollow(inp, back, x, ys)
    ensures var again := RepeatEach(inp, b, min, max, greedy, base, back, x, ys);
            Repeat(inp, b, min, max, greedy, base, back, x)
            == if max == Finite(0) then [x] else if min != 0 then again else if greedy then again + [x] else [x] + again
  {
    hide Match, Groups, RepeatEach;
    ys := Match(inp, b, base, back, Reset(x, base, Groups(b)));
    ResetFollows(inp, back, x, base, Groups(b), ys);
  }

  lemma ResetFollows(inp: Input, back: bool, x: St, base: nat, count: nat, ys: seq<St>)
    requires ValidSt(inp, x) && AllFollow(inp, back, Reset(x, base, count), ys)
    ensures AllFollow(inp, back, x, ys)
  {
    forall i | 0 <= i < |ys|
      ensures Follows(inp, back, x, ys[i])
    {
      assert Follows(inp, back, Reset(x, base, count), ys[i]);
    }
  }

  lemma {:induction false} PassesSame(inp: Input, b1: Node, b2: Node, min: nat, max: Bound, max2: Bound, greedy: bool,
                                      base: nat, back: bool, x: St, ys: seq<St>)
    requires Equivalent(inp, b1, b2, back) && ValidSt(inp, x) && base + Groups(b1) <= |x.caps|
    requires SameBound(max, max2, min, Room(inp, back, x.pos)) && max2 != Finite(0)
    requires AllFollow(inp, back, x, ys)
    ensures Groups(b1) == Groups(b2)
    ensures RepeatEach(inp, b1, min, max, greedy, base, back, x, ys)
            == RepeatEach(inp, b2, min, max2, greedy, base, back, x, ys)
    decreases min, Room(inp, back, x.pos), 0, |ys|
  {
    hide Match, Groups, Repeat, RepeatEach;
    assert Groups(b1) == Groups(b2);
    hide Equivalent;
    if ys == [] {
      NoPasses(inp, b1, min, max, greedy, base, back, x);
      NoPasses(inp, b2, min, max2, greedy, base, back, x);
    } else {
      var y := ys[0];
      FirstPass(inp, b1, min, max, greedy, base, back, x, ys);
      FirstPass(inp, b2, min, max2, greedy, base, back, x, ys);
      PassesSame(inp, b1, b2, min, max, max2, greedy, base, back, x, ys[1..]);
      if !(min == 0 && y.pos == x.pos) {
        RepeatSame(inp, b1, b2, NextMin(min), Less(max), Less(max2), greedy, base, back, y);
      }
    }
  }

  lemma NoPasses(inp: Input, b: Node, min: nat, max: Bound, greedy: bool, base: nat, back: bool, x: St)
    requires ValidSt(inp, x) && base + Groups(b) <= |x.caps|
    ensures RepeatEach(inp, b, min, max, greedy, base, back, x, []) == []
  {
  }

  lemma FirstPass(inp: Input, b: Node, min: nat, max: Bound, greedy: bool, base: nat, back: bool, x: St, ys: seq<St>)
    requires ValidSt(inp, x) && base + Groups(b) <= |x.caps| && AllFollow(inp, back, x, ys) && ys != []
    ensures Follows(inp, back, x, ys[0]) && AllFollow(inp, back, x, ys[1..])
    ensures RepeatEach(inp, b, min, max, greedy, base, back, x, ys)
            == (if min == 0 && ys[0].pos == x.pos then []
                else Repeat(inp, b, NextMin(min), Less(max), greedy, base, back, ys[0]))
               + RepeatEach(inp, b, min, max, greedy, base, back, x, ys[1..])
  {
    hide Match, Groups, Repeat;
    assert Follows(inp, back, x, ys[0]);
  }

  /** Where there is no room left, no further pass counts. */
  lemma {:induction false} NoRoom(inp: Input, b: Node, max: Bound, greedy: bool, base: nat, back: bool, x: St,
                                  ys: seq<St>)
    requires ValidSt(inp, x) && base + Groups(b) <= |x.caps| && AllFollow(inp, back, x, ys)
    requires Room(inp, back, x.pos) == 0
    ensures RepeatEach(inp, b, 0, max, greedy, base, back, x, ys) == []
    decreases |ys|
  {
    hide Match, Groups, Repeat;
    if ys != [] {
      assert Follows(inp, back, x, ys[0]);
      NoRoom(inp, b, max, greedy, base, back, x, ys[1..]);
    }
  }

  lemma QuantEquivalent(inp: Input, n1: Node, n2: Node, back: bool)
    requires n1.Quant? && n2.Quant? && n1.min == n2.min && n1.greedy == n2.greedy
    requires Equivalent(inp, n1.body, n2.body, back) && SameBound(n1.max, n2.max, n1.min, |inp.units|)
    ensures Equivalent(inp, n1, n2, back)
  {
    forall base: nat, x: St | ValidSt(inp, x) && base + Groups(n1) <= |x.caps|
      ensures Match(inp, n1, base, back, x) == Match(inp, n2, base, back, x)
    {
      QuantSame(inp, n1, base, back, x);
      RepeatSame(inp, n1.body, n2.body, n1.min, n1.max, n2.max, n1.greedy, base, back, x);
      QuantSame(inp, n2, base, back, x);
    }
  }

  lemma QuantSame(inp: Input, n: Node, base: nat, back: bool, x: St)
    requires n.Quant? && ValidSt(inp, x) && base + Groups(n) <= |x.caps|
    ensures Match(inp, n, base, back, x) == Repeat(inp, n.body, n.min, n.max, n.greedy, base, back, x)
  {
  }
}
