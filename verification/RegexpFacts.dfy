/** What matching changes and what it leaves alone. */
module RegexpFacts {
  import opened RegexpInput
  import opened RegexpSemantics
  import opened RegexpCompiler

  /** `y` differs from `x` at most in the groups of `touched`. */
  ghost predicate SameExcept(x: St, y: St, touched: set<nat>) {
    |y.caps| == |x.caps| && forall g :: 0 <= g < |x.caps| && g !in touched ==> y.caps[g] == x.caps[g]
  }

  ghost predicate AllSame(x: St, ys: seq<St>, touched: set<nat>) {
    forall i :: 0 <= i < |ys| ==> SameExcept(x, ys[i], touched)
  }

  ghost function GroupRange(lo: nat, count: nat): (r: set<nat>)
    ensures forall g {:trigger g in r} :: g in r <==> lo <= g < lo + count
    decreases count
  {
    if count == 0 then {} else {lo} + GroupRange(lo + 1, count - 1)
  }

  lemma AllSameAppend(x: St, ys: seq<St>, zs: seq<St>, t: set<nat>)
    requires AllSame(x, ys, t) && AllSame(x, zs, t)
    ensures AllSame(x, ys + zs, t)
  {
    forall i | 0 <= i < |ys + zs|
      ensures SameExcept(x, (ys + zs)[i], t)
    {
      if i < |ys| { assert SameExcept(x, ys[i], t); } else { assert SameExcept(x, zs[i - |ys|], t); }
    }
  }

  lemma AllSameFrom(x: St, y: St, zs: seq<St>, t: set<nat>)
    requires SameExcept(x, y, t) && AllSame(y, zs, t)
    ensures AllSame(x, zs, t)
  {
    forall i | 0 <= i < |zs|
      ensures SameExcept(x, zs[i], t)
    {
      assert SameExcept(y, zs[i], t);
    }
  }

  lemma SubRange(lo: nat, count: nat, lo1: nat, count1: nat, t: set<nat>)
    requires GroupRange(lo, count) <= t && lo <= lo1 && lo1 + count1 <= lo + count
    ensures GroupRange(lo1, count1) <= t
  {
    forall g | g in GroupRange(lo1, count1)
      ensures g in t
    {
      assert g in GroupRange(lo, count);
    }
  }

  predicate IsLeaf(n: Node) {
    !n.Cat? && !n.Alt? && !n.Group? && !n.Look? && !n.Quant?
  }

  lemma LeafTouches(inp: Input, n: Node, base: nat, back: bool, x: St, t: set<nat>)
    requires ValidSt(inp, x) && base + Groups(n) <= |x.caps| && IsLeaf(n)
    ensures AllSame(x, Match(inp, n, base, back, x), t)
  {
  }

  /** Matching a node only changes the groups inside the node. */
  lemma {:induction false} MatchTouches(inp: Input, n: Node, base: nat, back: bool, x: St, t: set<nat>)
    requires ValidSt(inp, x) && base + Groups(n) <= |x.caps|
    requires GroupRange(base, Groups(n)) <= t
    ensures AllSame(x, Match(inp, n, base, back, x), t)
    decreases n, 0, 0, 1
  {
    hide Match, AllSame, GroupRange, Groups;
    if n.Cat? {
      CatTouches(inp, n, base, back, x, t);
    } else if n.Alt? {
      AltTouches(inp, n, base, back, x, t);
    } else if n.Group? {
      GroupTouches(inp, n, base, back, x, t);
    } else if n.Look? {
      LookTouches(inp, n, base, back, x, t);
    } else if n.Quant? {
      QuantTouches(inp, n, base, back, x, t);
    } else {
      LeafTouches(inp, n, base, back, x, t);
    }
  }

  lemma {:induction false} AltTouches(inp: Input, n: Node, base: nat, back: bool, x: St, t: set<nat>)
    requires n.Alt? && ValidSt(inp, x) && base + Groups(n) <= |x.caps|
    requires GroupRange(base, Groups(n)) <= t
    ensures AllSame(x, Match(inp, n, base, back, x), t)
    decreases n, 0, 0, 0
  {
    AltOutcomes(inp, n, base, back, x);
    TwoRanges(n, base, t);
    hide Match, AllSame, GroupRange, ValidSt, Groups;
    var a, b := n.left, n.right;
    MatchTouches(inp, a, base, back, x, t);
    MatchTouches(inp, b, base + Groups(a), back, x, t);
    AllSameAppend(x, Match(inp, a, base, back, x), Match(inp, b, base + Groups(a), back, x), t);
  }

  lemma TwoRanges(n: Node, base: nat, t: set<nat>)
    requires (n.Cat? || n.Alt?) && GroupRange(base, Groups(n)) <= t
    ensures var a, b := if n.Cat? then n.first else n.left, if n.Cat? then n.second else n.right;
            && Groups(n) == Groups(a) + Groups(b)
            && GroupRange(base, Groups(a)) <= t && GroupRange(base + Groups(a), Groups(b)) <= t
  {
    hide GroupRange;
    var a, b := if n.Cat? then n.first else n.left, if n.Cat? then n.second else n.right;
    SubRange(base, Groups(n), base, Groups(a), t);
    SubRange(base, Groups(n), base + Groups(a), Groups(b), t);
  }

  lemma AltOutcomes(inp: Input, n: Node, base: nat, back: bool, x: St)
    requires n.Alt? && ValidSt(inp, x) && base + Groups(n) <= |x.caps|
    ensures Match(inp, n, base, back, x) == Match(inp, n.left, base, back, x)
            + Match(inp, n.right, base + Groups(n.left), back, x)
  {
    hide AllFollow, MatchEach, CloseEach, Follows, MatchChar, MatchRef, Repeat, Holds, ValidSt;
  }

  lemma {:induction false} GroupTouches(inp: Input, n: Node, base: nat, back: bool, x: St, t: set<nat>)
    requires n.Group? && ValidSt(inp, x) && base + Groups(n) <= |x.caps|
    requires GroupRange(base, Groups(n)) <= t
    ensures AllSame(x, Match(inp, n, base, back, x), t)
    decreases n, 0, 0, 0
  {
    GroupOutcomes(inp, n, base, back, x);
    hide AllSame, Match, GroupRange, CloseEach;
    SubRange(base, Groups(n), base + 1, Groups(n.body), t);
    assert base in GroupRange(base, Groups(n));
    MatchTouches(inp, n.body, base + 1, back, x, t);
    CloseTouches(inp, base, back, x, Match(inp, n.body, base + 1, back, x), t);
  }

  lemma GroupOutcomes(inp: Input, n: Node, base: nat, back: bool, x: St)
    requires n.Group? && ValidSt(inp, x) && base + Groups(n) <= |x.caps|
    ensures Match(inp, n, base, back, x) == CloseEach(inp, base, back, x, Match(inp, n.body, base + 1, back, x))
  {
    hide AllFollow, MatchEach, CloseEach, Follows, MatchChar, MatchRef, Repeat, Holds, ValidSt;
  }

  lemma CatOutcomes(inp: Input, n: Node, base: nat, back: bool, x: St)
    requires n.Cat? && ValidSt(inp, x) && base + Groups(n) <= |x.caps|
    ensures var base2 := base + Groups(n.first);
            Match(inp, n, base, back, x)
            == if back then MatchEach(inp, n.first, base, back, x, Match(inp, n.second, base2, back, x))
               else MatchEach(inp, n.second, base2, back, x, Match(inp, n.first, base, back, x))
  {
    hide AllFollow, MatchEach, CloseEach, Follows, MatchChar, MatchRef, Repeat, Holds, ValidSt;
  }

  lemma {:induction false} LookTouches(inp: Input, n: Node, base: nat, back: bool, x: St, t: set<nat>)
    requires n.Look? && ValidSt(inp, x) && base + Groups(n) <= |x.caps|
    requires GroupRange(base, Groups(n)) <= t
    ensures AllSame(x, Match(inp, n, base, back, x), t)
    decreases n, 0, 0, 0
  {
    MatchTouches(inp, n.body, base, n.behind, x, t);
    var ys := Match(inp, n.body, base, n.behind, x);
    if ys != [] { assert SameExcept(x, ys[0], t); }
  }

  lemma {:induction false} QuantTouches(inp: Input, n: Node, base: nat, back: bool, x: St, t: set<nat>)
    requires n.Quant? && ValidSt(inp, x) && base + Groups(n) <= |x.caps|
    requires GroupRange(base, Groups(n)) <= t
    ensures AllSame(x, Match(inp, n, base, back, x), t)
    decreases n, 0, 0, 0
  {
    hide AllSame, Repeat;
    RepeatTouches(inp, n.body, n.min, n.max, n.greedy, base, back, x, t);
  }

  lemma {:induction false} CatTouches(inp: Input, n: Node, base: nat, back: bool, x: St, t: set<nat>)
    requires ValidSt(inp, x) && base + Groups(n) <= |x.caps| && n.Cat?
    requires GroupRange(base, Groups(n)) <= t
    ensures AllSame(x, Match(inp, n, base, back, x), t)
    decreases n, 0, 0, 0
  {
    TwoRanges(n, base, t);
    if back {
      CatStep(inp, n, base, back, x, n.second, base + Groups(n.first), n.first, base, t);
    } else {
      CatStep(inp, n, base, back, x, n.first, base, n.second, base + Groups(n.first), t);
    }
  }

  /** The two nodes in the order in which they are matched. */
  lemma {:induction false} CatStep(inp: Input, n: Node, base: nat, back: bool, x: St, n1: Node, base1: nat, n2: Node,
                                   base2: nat, t: set<nat>)
    requires ValidSt(inp, x) && base + Groups(n) <= |x.caps| && n.Cat? && n1 < n && n2 < n
    requires n1 == (if back then n.second else n.first) && n2 == (if back then n.first else n.second)
    requires base1 == (if back then base + Groups(n.first) else base)
             && base2 == (if back then base else base + Groups(n.first))
    requires GroupRange(base1, Groups(n1)) <= t && GroupRange(base2, Groups(n2)) <= t
    ensures AllSame(x, Match(inp, n, base, back, x), t)
    decreases n, 0, 0, 0, 0
  {
    CatOutcomes(inp, n, base, back, x);
    assert base1 + Groups(n1) <= |x.caps| && base2 + Groups(n2) <= |x.caps|;
    hide AllSame, Match, MatchEach, GroupRange, Groups, ValidSt, AllFollow;
    MatchTouches(inp, n1, base1, back, x, t);
    EachTouches(inp, n2, base2, back, x, Match(inp, n1, base1, back, x), t);
  }

  lemma {:induction false} EachTouches(inp: Input, n: Node, base: nat, back: bool, x: St, ys: seq<St>, t: set<nat>)
    requires ValidSt(inp, x) && base + Groups(n) <= |x.caps| && AllFollow(inp, back, x, ys)
    requires GroupRange(base, Groups(n)) <= t && AllSame(x, ys, t)
    ensures AllSame(x, MatchEach(inp, n, base, back, x, ys), t)
    decreases n, 1, 0, 0, |ys|
  {
    if ys != [] {
      assert Follows(inp, back, x, ys[0]) && SameExcept(x, ys[0], t);
      MatchTouches(inp, n, base, back, ys[0], t);
      var first := Match(inp, n, base, back, ys[0]);
      AllSameFrom(x, ys[0], first, t);
      EachTouches(inp, n, base, back, x, ys[1..], t);
      AllSameAppend(x, first, MatchEach(inp, n, base, back, x, ys[1..]), t);
    }
  }

  lemma {:induction false} CloseTouches(inp: Input, g: nat, back: bool, x: St, ys: seq<St>, t: set<nat>)
    requires ValidSt(inp, x) && g < |x.caps| && AllFollow(inp, back, x, ys)
    requires g in t && AllSame(x, ys, t)
    ensures AllSame(x, CloseEach(inp, g, back, x, ys), t)
    decreases |ys|
  {
    if ys != [] {
      var y := ys[0];
      assert Follows(inp, back, x, y) && SameExcept(x, y, t);
      CloseTouches(inp, g, back, x, ys[1..], t);
      var closed := y.(caps := y.caps[g := Some(SpanOf(back, x.pos, y.pos))]);
      assert SameExcept(x, closed, t);
      AllSameAppend(x, [closed], CloseEach(inp, g, back, x, ys[1..]), t);
    }
  }

  lemma {:induction false} RepeatTouches(inp: Input, b: Node, min: nat, max: Bound, greedy: bool, base: nat, back: bool,
                                         x: St, t: set<nat>)
    requires ValidSt(inp, x) && base + Groups(b) <= |x.caps|
    requires GroupRange(base, Groups(b)) <= t
    ensures AllSame(x, Repeat(inp, b, min, max, greedy, base, back, x), t)
    decreases b, 1, min, Room(inp, back, x.pos), 1
  {
    if max != Finite(0) {
      var x0 := Reset(x, base, Groups(b));
      MatchTouches(inp, b, base, back, x0, t);
      var ys := Match(inp, b, base, back, x0);
      AllSameFrom(x, x0, ys, t);
      RepeatEachTouches(inp, b, min, max, greedy, base, back, x, ys, t);
      var again := Iterate(inp, b, min, max, greedy, base, back, x);
      AllSameAppend(x, again, [x], t);
      AllSameAppend(x, [x], again, t);
    }
  }

  lemma {:induction false} RepeatEachTouches(inp: Input, b: Node, min: nat, max: Bound, greedy: bool, base: nat,
                                             back: bool, x: St, ys: seq<St>, t: set<nat>)
    requires ValidSt(inp, x) && base + Groups(b) <= |x.caps| && AllFollow(inp, back, x, ys)
    requires GroupRange(base, Groups(b)) <= t && AllSame(x, ys, t)
    ensures AllSame(x, RepeatEach(inp, b, min, max, greedy, base, back, x, ys), t)
    decreases b, 1, min, Room(inp, back, x.pos), 0, 0, |ys|
  {
    if ys != [] {
      var y := ys[0];
      assert Follows(inp, back, x, y) && SameExcept(x, y, t);
      RepeatEachTouches(inp, b, min, max, greedy, base, back, x, ys[1..], t);
      var rest := RepeatEach(inp, b, min, max, greedy, base, back, x, ys[1..]);
      if min == 0 && y.pos == x.pos {
        assert [] + rest == rest;
      } else {
        var min1 := if min == 0 then 0 else min - 1;
        RepeatTouches(inp, b, min1, Less(max), greedy, base, back, y, t);
        var first := Repeat(inp, b, min1, Less(max), greedy, base, back, y);
        AllSameFrom(x, y, first, t);
        AllSameAppend(x, first, rest, t);
      }
    }
  }

  // ----- straight-line nodes ------------------------------------------------

  /** The groups that the code of a straight-line node writes. The others
      inside it belong to atoms repeated zero times. */
  ghost function Writes(n: Node, base: nat): set<nat> {
    match n
    case Cat(a, b) => Writes(a, base) + Writes(b, base + Groups(a))
    case Group(b) => {base} + Writes(b, base + 1)
    case Quant(b, _, _, _) => if Linear(b) then GroupRange(base, Groups(b)) else {}
    case _ => {}
  }

  lemma {:induction false} LinearTouches(inp: Input, n: Node, base: nat, back: bool, x: St, t: set<nat>)
    requires ValidSt(inp, x) && base + Groups(n) <= |x.caps|
    requires Linear(n) && Writes(n, base) <= t
    ensures AllSame(x, Match(inp, n, base, back, x), t)
    decreases n, 0
  {
    hide GroupRange, AllSame;
    if n.Cat? {
      var a, b := n.first, n.second;
      CatOutcomes(inp, n, base, back, x);
      hide Match;
      if back {
        LinearTouches(inp, b, base + Groups(a), back, x, t);
        LinearEachTouches(inp, a, base, back, x, Match(inp, b, base + Groups(a), back, x), t);
      } else {
        LinearTouches(inp, a, base, back, x, t);
        LinearEachTouches(inp, b, base + Groups(a), back, x, Match(inp, a, base, back, x), t);
      }
    } else if n.Group? {
      GroupOutcomes(inp, n, base, back, x);
      hide Match;
      LinearTouches(inp, n.body, base + 1, back, x, t);
      CloseTouches(inp, base, back, x, Match(inp, n.body, base + 1, back, x), t);
    } else {
      LinearLeaf(inp, n, base, back, x, t);
    }
  }

  lemma LinearLeaf(inp: Input, n: Node, base: nat, back: bool, x: St, t: set<nat>)
    requires ValidSt(inp, x) && base + Groups(n) <= |x.caps| && Linear(n) && !n.Cat? && !n.Group?
    ensures AllSame(x, Match(inp, n, base, back, x), t)
  {
    hide GroupRange, Groups;
    if n.Quant? {
      assert Match(inp, n, base, back, x) == [x];
    }
  }

  lemma {:induction false} LinearEachTouches(inp: Input, n: Node, base: nat, back: bool, x: St, ys: seq<St>,
                                             t: set<nat>)
    requires ValidSt(inp, x) && base + Groups(n) <= |x.caps| && AllFollow(inp, back, x, ys)
    requires Linear(n) && Writes(n, base) <= t && AllSame(x, ys, t)
    ensures AllSame(x, MatchEach(inp, n, base, back, x, ys), t)
    decreases n, 1, |ys|
  {
    if ys != [] {
      assert Follows(inp, back, x, ys[0]) && SameExcept(x, ys[0], t);
      LinearTouches(inp, n, base, back, ys[0], t);
      var first := Match(inp, n, base, back, ys[0]);
      AllSameFrom(x, ys[0], first, t);
      LinearEachTouches(inp, n, base, back, x, ys[1..], t);
      AllSameAppend(x, first, MatchEach(inp, n, base, back, x, ys[1..]), t);
    }
  }

  // ----- progress -----------------------------------------------------------

  ghost predicate AllMoved(p: nat, ys: seq<St>) {
    forall i :: 0 <= i < |ys| ==> ys[i].pos != p
  }

  /** If the linear scan finds that the atom always advances, then it does. */
  lemma {:induction false} AdvancesMoves(inp: Input, n: Node, base: nat, back: bool, x: St)
    requires ValidSt(inp, x) && base + Groups(n) <= |x.caps|
    requires Advances(n, back)
    ensures AllMoved(x.pos, Match(inp, n, base, back, x))
    decreases n, 0
  {
    match n
    case Cat(a, b) =>
      var first, second := if back then b else a, if back then a else b;
      var base1, base2 := if back then base + Groups(a) else base, if back then base else base + Groups(a);
      var ys := Match(inp, first, base1, back, x);
      if Advances(first, back) {
        AdvancesMoves(inp, first, base1, back, x);
        EachStaysMoved(inp, second, base2, back, x, ys);
      } else {
        EachMoves(inp, second, base2, back, x, ys);
      }
    case Group(b) =>
      AdvancesMoves(inp, b, base + 1, back, x);
      ClosePositions(inp, base, back, x, Match(inp, b, base + 1, back, x));
    case Quant(b, min, max, greedy) => RepeatMoves(inp, b, min, max, greedy, base, back, x);
    case _ =>
  }

  /** A mandatory pass that moves is never undone by later passes. */
  lemma {:induction false} RepeatMoves(inp: Input, b: Node, min: nat, max: Bound, greedy: bool, base: nat, back: bool,
                                       x: St)
    requires ValidSt(inp, x) && base + Groups(b) <= |x.caps| && max != Finite(0)
    requires min > 0 && Advances(b, back)
    ensures AllMoved(x.pos, Repeat(inp, b, min, max, greedy, base, back, x))
    decreases b, 1
  {
    var x0 := Reset(x, base, Groups(b));
    AdvancesMoves(inp, b, base, back, x0);
    RepeatEachMoved(inp, b, min, max, greedy, base, back, x, Match(inp, b, base, back, x0));
  }

  lemma {:induction false} RepeatEachMoved(inp: Input, b: Node, min: nat, max: Bound, greedy: bool, base: nat,
                                           back: bool, x: St, ys: seq<St>)
    requires ValidSt(inp, x) && base + Groups(b) <= |x.caps| && AllFollow(inp, back, x, ys)
    requires min > 0 && AllMoved(x.pos, ys)
    ensures AllMoved(x.pos, RepeatEach(inp, b, min, max, greedy, base, back, x, ys))
    decreases |ys|
  {
    hide Match, Repeat;
    if ys != [] {
      assert Follows(inp, back, x, ys[0]);
      var first := Repeat(inp, b, min - 1, Less(max), greedy, base, back, ys[0]);
      forall i | 0 <= i < |first|
        ensures first[i].pos != x.pos
      {
        assert Follows(inp, back, ys[0], first[i]);
      }
      RepeatEachMoved(inp, b, min, max, greedy, base, back, x, ys[1..]);
    }
  }

  lemma {:induction false} EachStaysMoved(inp: Input, n: Node, base: nat, back: bool, x: St, ys: seq<St>)
    requires ValidSt(inp, x) && base + Groups(n) <= |x.caps| && AllFollow(inp, back, x, ys)
    requires AllMoved(x.pos, ys)
    ensures AllMoved(x.pos, MatchEach(inp, n, base, back, x, ys))
    decreases |ys|
  {
    if ys != [] {
      assert Follows(inp, back, x, ys[0]);
      var first := Match(inp, n, base, back, ys[0]);
      forall i | 0 <= i < |first|
        ensures first[i].pos != x.pos
      {
        assert Follows(inp, back, ys[0], first[i]);
      }
      EachStaysMoved(inp, n, base, back, x, ys[1..]);
    }
  }

  lemma {:induction false} EachMoves(inp: Input, n: Node, base: nat, back: bool, x: St, ys: seq<St>)
    requires ValidSt(inp, x) && base + Groups(n) <= |x.caps| && AllFollow(inp, back, x, ys)
    requires Advances(n, back)
    ensures AllMoved(x.pos, MatchEach(inp, n, base, back, x, ys))
    decreases n, 1, |ys|
  {
    if ys != [] {
      assert Follows(inp, back, x, ys[0]);
      AdvancesMoves(inp, n, base, back, ys[0]);
      var first := Match(inp, n, base, back, ys[0]);
      forall i | 0 <= i < |first|
        ensures first[i].pos != x.pos
      {
        assert Follows(inp, back, ys[0], first[i]);
      }
      EachMoves(inp, n, base, back, x, ys[1..]);
    }
  }

  lemma {:induction false} ClosePositions(inp: Input, g: nat, back: bool, x: St, ys: seq<St>)
    requires ValidSt(inp, x) && g < |x.caps| && AllFollow(inp, back, x, ys)
    ensures forall i :: 0 <= i < |ys| ==> CloseEach(inp, g, back, x, ys)[i].pos == ys[i].pos
    decreases |ys|
  {
    if ys != [] {
      assert Follows(inp, back, x, ys[0]);
      ClosePositions(inp, g, back, x, ys[1..]);
    }
  }
}
