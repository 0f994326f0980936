/** String lists in a lookbehind. The parser puts a `prev` in front of the code of
    any class and another one behind it. That steps over one character, whatever
    the length of the string that is read in between. */
module RegexpLookbehindList {
  import opened RegexpInput
  import opened RegexpSemantics
  import opened RegexpInstr
  import opened RegexpClass
  import opened RegexpCompiler
  import opened RegexpFacts
  import opened RegexpMachine
  import opened RegexpYields
  import opened RegexpCorrect
  import opened RegexpStringList

  // ----- what the code does -----------------------------------------------------

  /** `prev`, the code of the class for forward matching, `prev`. */
  function BackwardCode(n: Node, base: nat, d: nat): seq<Instr> {
    [IPrev] + Code(n, base, false, d, true) + [IPrev]
  }

  /** One step back from each outcome; none from the start of the subject. */
  function StepBack(inp: Input, y: St): seq<St>
    requires y.pos <= |inp.units|
  {
    if y.pos == 0 then [] else [y.(pos := Prev(inp, y.pos, 0))]
  }

  function StepBackEach(inp: Input, ys: seq<St>): seq<St>
    requires forall i :: 0 <= i < |ys| ==> ys[i].pos <= |inp.units|
  {
    if ys == [] then [] else StepBack(inp, ys[0]) + StepBackEach(inp, ys[1..])
  }

  /** The outcomes of that code. */
  function BackOutcomes(inp: Input, n: Node, base: nat, x: St): seq<St>
    requires ValidSt(inp, x) && base + Groups(n) <= |x.caps|
  {
    if x.pos == 0 then []
    else
      var ys := Match(inp, n, base, false, x.(pos := Prev(inp, x.pos, 0)));
      StepBackEach(inp, ys)
  }

  lemma {:induction false} YieldsBack(m: Machine, s: State, g: Goal, ys: seq<St>, stk: Stack)
    requires Yields(m, s, g, ys, stk) && m.fetch(g.exit) == Some(IPrev)
    requires forall i :: 0 <= i < |ys| ==> ys[i].pos <= |m.inp.units|
    ensures Yields(m, s, g.(exit := g.exit + 1), StepBackEach(m.inp, ys), stk)
    decreases |ys|
  {
    var g1 := g.(exit := g.exit + 1);
    if ys == [] {
      YieldsNone(m, s, g1, stk);
    } else {
      var y, rest := ys[0], StepBackEach(m.inp, ys[1..]);
      var w, t :| YieldsAs(m, s, g, ys, stk, w, t);
      YieldsBack(m, State.Back(stk + t), g, ys[1..], stk);
      PrevStep(m, g.exit, y.pos, w, stk + t);
      if y.pos == 0 {
        ReachesTrans(m, s, Run(g.exit, y.pos, w, stk + t), State.Back(stk + t));
        YieldsReach(m, s, State.Back(stk + t), g1, rest, stk);
        assert [] + rest == rest;
      } else {
        var q := Prev(m.inp, y.pos, 0);
        ReachesTrans(m, s, Run(g.exit, y.pos, w, stk + t), Run(g1.exit, q, w, stk + t));
        YieldsFirst(m, s, g1, y.(pos := q), w, t, rest, stk);
      }
    }
  }

  /** The code delivers these outcomes, in this order, and then gives up. */
  lemma BackwardRun(m: Machine, n: Node, base: nat, d: nat, pc: nat, x: St, words: Words, open: set<nat>,
                    stale: set<nat>, stk: Stack)
    requires Ready(m, n, base, false, d, x, words, open, stale)
    requires At(m.fetch, pc, BackwardCode(n, base, d))
    ensures var g := NodeGoal(n, base, false, d, pc + 1, words, open, stale);
            Yields(m, Run(pc, x.pos, words, stk), g.(exit := g.exit + 1), BackOutcomes(m.inp, n, base, x), stk)
  {
    hide Code, Match, WellFormed, Regs, SlotsAgree, SizeAll;
    var s, g := Run(pc, x.pos, words, stk), NodeGoal(n, base, false, d, pc + 1, words, open, stale);
    BackwardPlaced(m, n, base, d, pc);
    PrevStep(m, pc, x.pos, words, stk);
    if x.pos == 0 {
      YieldsNone(m, s, g.(exit := g.exit + 1), stk);
    } else {
      var x1 := x.(pos := Prev(m.inp, x.pos, 0));
      SlotsAnywhere(words, x, x1, open, stale);
      Correct(m, n, base, false, d, pc + 1, x1, words, open, stale, stk);
      YieldsBack(m, Run(pc + 1, x1.pos, words, stk), g, Match(m.inp, n, base, false, x1), stk);
      YieldsReach(m, s, Run(pc + 1, x1.pos, words, stk), g.(exit := g.exit + 1), BackOutcomes(m.inp, n, base, x), stk);
    }
  }

  lemma SlotsAnywhere(words: Words, x: St, y: St, open: set<nat>, stale: set<nat>)
    requires SlotsAgree(words, x, open, stale) && y.caps == x.caps
    ensures SlotsAgree(words, y, open, stale)
  {
  }

  lemma BackwardPlaced(m: Machine, n: Node, base: nat, d: nat, pc: nat)
    requires At(m.fetch, pc, BackwardCode(n, base, d))
    ensures m.fetch(pc) == Some(IPrev) && At(m.fetch, pc + 1, Code(n, base, false, d, true))
    ensures m.fetch(pc + 1 + SizeAll(Code(n, base, false, d, true))) == Some(IPrev)
  {
    hide Code, SizeAll;
    var code := Code(n, base, false, d, true);
    AtSnoc(m.fetch, pc, [IPrev] + code, IPrev);
    AtCons(m.fetch, pc, IPrev, code);
  }

  // ----- when it is right ---------------------------------------------------------

  /** The code has the outcomes that the pattern has in a lookbehind. */
  ghost predicate RightBackward(n: Node) {
    forall inp: Input, base: nat, x: St :: inp.Valid() && ValidSt(inp, x) && base + Groups(n) <= |x.caps| ==>
      BackOutcomes(inp, n, base, x) == Match(inp, n, base, true, x)
  }

  lemma RightAt(n: Node, inp: Input, base: nat, x: St)
    requires RightBackward(n) && inp.Valid() && ValidSt(inp, x) && base + Groups(n) <= |x.caps|
    ensures BackOutcomes(inp, n, base, x) == Match(inp, n, base, true, x)
  {
  }

  lemma {:induction false} StepBackAppend(inp: Input, ys: seq<St>, zs: seq<St>)
    requires forall i :: 0 <= i < |ys| ==> ys[i].pos <= |inp.units|
    requires forall i :: 0 <= i < |zs| ==> zs[i].pos <= |inp.units|
    ensures StepBackEach(inp, ys + zs) == StepBackEach(inp, ys) + StepBackEach(inp, zs)
  {
    if ys == [] {
      assert ys + zs == zs;
    } else {
      assert (ys + zs)[0] == ys[0] && (ys + zs)[1..] == ys[1..] + zs;
      StepBackAppend(inp, ys[1..], zs);
    }
  }

  lemma StepBackOne(inp: Input, y: St)
    requires y.pos <= |inp.units|
    ensures StepBackEach(inp, [y]) == StepBack(inp, y) && StepBackEach(inp, []) == []
  {
    assert [y][1..] == [];
  }

  /** A class, and nothing else that is one character. */
  lemma ClassRight(cr: Intervals)
    ensures RightBackward(Class(cr))
  {
    forall inp: Input, base: nat, x: St | inp.Valid() && ValidSt(inp, x) && base + Groups(Class(cr)) <= |x.caps|
      ensures BackOutcomes(inp, Class(cr), base, x) == Match(inp, Class(cr), base, true, x)
    {
      OneBack(inp, Class(cr), base, x);
    }
  }

  lemma OneBack(inp: Input, n: Node, base: nat, x: St)
    requires IsCharTest(n) && ValidSt(inp, x) && base <= |x.caps|
    ensures BackOutcomes(inp, n, base, x) == Match(inp, n, base, true, x) == MatchChar(inp, n, true, x)
  {
    if x.pos > 0 {
      PrevNextPrev(inp, x.pos);
      var q := Prev(inp, x.pos, 0);
      StepBackOne(inp, x.(pos := Next(inp, q, |inp.units|)));
    }
  }

  lemma LetterRight(c: nat)
    ensures RightBackward(TextNode([c]))
  {
    var n := TextNode([c]);
    assert [c][..0] == [] && TextNode([]) == Empty;
    assert n == Cat(Empty, Char(c));
    forall inp: Input, base: nat, x: St | inp.Valid() && ValidSt(inp, x) && base + Groups(n) <= |x.caps|
      ensures BackOutcomes(inp, n, base, x) == Match(inp, n, base, true, x)
    {
      LetterBackward(inp, c, base, x);
      if x.pos > 0 {
        LetterForward(inp, c, base, x.(pos := Prev(inp, x.pos, 0)));
      }
      OneBack(inp, Char(c), base, x);
    }
  }

  lemma LetterForward(inp: Input, c: nat, base: nat, x: St)
    requires ValidSt(inp, x) && base <= |x.caps|
    ensures Match(inp, Cat(Empty, Char(c)), base, false, x) == MatchChar(inp, Char(c), false, x)
  {
    EachOne(inp, Char(c), base, x, x);
    assert Match(inp, Empty, base, false, x) == [x];
  }

  lemma LetterBackward(inp: Input, c: nat, base: nat, x: St)
    requires ValidSt(inp, x) && base <= |x.caps|
    ensures Match(inp, Cat(Empty, Char(c)), base, true, x) == MatchChar(inp, Char(c), true, x)
  {
    var ys := MatchChar(inp, Char(c), true, x);
    if ys != [] {
      assert ys[1..] == [];
      assert MatchEach(inp, Empty, base, true, x, ys) == [ys[0]] + MatchEach(inp, Empty, base, true, x, []);
    }
  }

  lemma AltBack(inp: Input, n: Node, base: nat, x: St)
    requires n.Alt? && Groups(n.left) == 0 && ValidSt(inp, x) && base + Groups(n) <= |x.caps|
    ensures BackOutcomes(inp, n, base, x) == BackOutcomes(inp, n.left, base, x) + BackOutcomes(inp, n.right, base, x)
    ensures Match(inp, n, base, true, x) == Match(inp, n.left, base, true, x) + Match(inp, n.right, base, true, x)
  {
    hide Match, StepBackEach;
    AltOutcomes(inp, n, base, true, x);
    if x.pos > 0 {
      var x1 := x.(pos := Prev(inp, x.pos, 0));
      AltOutcomes(inp, n, base, false, x1);
      StepBackAppend(inp, Match(inp, n.left, base, false, x1), Match(inp, n.right, base, false, x1));
    }
  }

  lemma AltRight(n: Node)
    requires n.Alt? && Groups(n.left) == 0 && RightBackward(n.left) && RightBackward(n.right)
    ensures RightBackward(n)
  {
    forall inp: Input, base: nat, x: St | inp.Valid() && ValidSt(inp, x) && base + Groups(n) <= |x.caps|
      ensures BackOutcomes(inp, n, base, x) == Match(inp, n, base, true, x)
    {
      hide Match, RightBackward, BackOutcomes, ValidSt;
      AltBack(inp, n, base, x);
      RightAt(n.left, inp, base, x);
      RightAt(n.right, inp, base, x);
    }
  }

  lemma {:induction false} ChoiceRight(ss: seq<Text>, tail: Node)
    requires RightBackward(tail) && forall i :: 0 <= i < |ss| ==> |ss[i]| == 1
    ensures RightBackward(Choice(ss, tail))
  {
    hide RightBackward, TextNode;
    if ss != [] {
      ChoiceRight(ss[1..], tail);
      LetterRight(ss[0][0]);
      assert ss[0] == [ss[0][0]];
      TextGroups(ss[0]);
      AltRight(Choice(ss, tail));
    }
  }

  /** Only strings of one character: the code is right. */
  lemma LettersRight(sorted: seq<Text>, cr: Intervals)
    requires forall i :: 0 <= i < |sorted| ==> |sorted[i]| == 1
    ensures RightBackward(ListNode(sorted, false, cr))
  {
    hide RightBackward, TextNode, Choice;
    if Closed(sorted, false, cr) {
      var last := sorted[|sorted| - 1];
      LetterRight(last[0]);
      assert last == [last[0]];
    } else {
      ClassRight(cr);
    }
    ChoiceRight(Forked(sorted, false, cr), Tail(sorted, false, cr));
  }

  // ----- when it is wrong -----------------------------------------------------------

  /** At the start of the subject the code fails; the empty string matches there. */
  lemma EmptyWrong(sorted: seq<Text>, cr: Intervals)
    ensures !RightBackward(ListNode(sorted, true, cr))
  {
    var n, inp, x := ListNode(sorted, true, cr), Input([], true), St(0, []);
    ListMatch(inp, sorted, true, cr, 0, x);
    var tail := Tail(sorted, true, cr);
    hide TextNode, Choice;
    TailAtStart(cr, x);
    ChoiceEndsWith(inp, Forked(sorted, true, cr), tail, x);
    assert x in Match(inp, n, 0, true, x);
    WrongAt(n, inp, x);
  }

  lemma WrongAt(n: Node, inp: Input, x: St)
    requires inp.Valid() && ValidSt(inp, x) && Groups(n) <= |x.caps|
    requires exists y :: y in Match(inp, n, 0, true, x) && y !in BackOutcomes(inp, n, 0, x)
    ensures !RightBackward(n)
  {
  }

  lemma TailAtStart(cr: Intervals, x: St)
    requires x == St(0, [])
    ensures Groups(Rest(true, cr)) == 0 && Match(Input([], true), Rest(true, cr), 0, true, x) == [x]
  {
    var inp := Input([], true);
    if cr != [] {
      assert Reset(x, 0, 0) == x;
      assert Match(inp, Class(cr), 0, true, x) == [];
      assert Iterate(inp, Class(cr), 0, Finite(1), true, 0, true, x) == [];
    }
  }

  /** What the last alternative matches is matched. */
  lemma {:induction false} ChoiceEndsWith(inp: Input, ss: seq<Text>, tail: Node, x: St)
    requires ValidSt(inp, x) && Groups(tail) == 0
    ensures Groups(Choice(ss, tail)) == 0
    ensures forall y :: y in Match(inp, tail, 0, true, x) ==> y in Match(inp, Choice(ss, tail), 0, true, x)
  {
    hide Match, TextNode;
    ChoiceGroups(ss, tail);
    if ss != [] {
      TextGroups(ss[0]);
      ChoiceEndsWith(inp, ss[1..], tail, x);
      AltOutcomes(inp, Choice(ss, tail), 0, true, x);
    }
  }

  lemma {:induction false} ChoiceHas(inp: Input, ss: seq<Text>, tail: Node, t: Text, x: St)
    requires ValidSt(inp, x) && Groups(tail) == 0 && t in ss
    ensures Groups(Choice(ss, tail)) == 0 && Groups(TextNode(t)) == 0
    ensures forall y :: y in Match(inp, TextNode(t), 0, true, x) ==> y in Match(inp, Choice(ss, tail), 0, true, x)
  {
    hide Match, TextNode;
    ChoiceGroups(ss, tail);
    TextGroups(t);
    TextGroups(ss[0]);
    AltOutcomes(inp, Choice(ss, tail), 0, true, x);
    if t != ss[0] {
      ChoiceHas(inp, ss[1..], tail, t, x);
    }
  }

  /** A list matches each of its strings. */
  lemma ListHas(inp: Input, sorted: seq<Text>, cr: Intervals, t: Text, x: St)
    requires ValidSt(inp, x) && t in sorted && Groups(ListNode(sorted, false, cr)) == 0
    ensures Groups(TextNode(t)) == 0
    ensures forall y :: y in Match(inp, TextNode(t), 0, true, x) ==>
            y in Match(inp, ListNode(sorted, false, cr), 0, true, x)
  {
    var forked, tail := Forked(sorted, false, cr), Tail(sorted, false, cr);
    ChoiceGroups(forked, tail);
    TextGroups(t);
    hide TextNode, Choice, Match;
    if t in forked {
      ChoiceHas(inp, forked, tail, t, x);
    } else {
      assert sorted == sorted[..|sorted| - 1] + [sorted[|sorted| - 1]];
      ChoiceEndsWith(inp, forked, tail, x);
    }
  }

  /** Where a text starts that is read backward from `p`. */
  function TextStart(inp: Input, t: Text, p: nat): (r: Option<nat>)
    requires p <= |inp.units|
    ensures r.Some? ==> r.value <= p
  {
    if t == [] then Some(p)
    else
      var q := StepChar(inp, Char(t[|t| - 1]), true, p);
      if q.None? then None else TextStart(inp, t[..|t| - 1], q.value)
  }

  lemma {:induction false} TextBackward(inp: Input, t: Text, x: St)
    requires ValidSt(inp, x)
    ensures Groups(TextNode(t)) == 0 && Match(inp, TextNode(t), 0, true, x) == Outcome(x, TextStart(inp, t, x.pos))
  {
    TextGroups(t);
    if t != [] {
      var init, last := t[..|t| - 1], Char(t[|t| - 1]);
      TextGroups(init);
      var q := StepChar(inp, last, true, x.pos);
      if q.Some? {
        var y := x.(pos := q.value);
        TextBackward(inp, init, y);
        assert [y][1..] == [];
        assert MatchEach(inp, TextNode(init), 0, true, x, [y]) == Match(inp, TextNode(init), 0, true, y) + [];
      }
    }
  }

  // ----- a subject made of a string ---------------------------------------------------

  function UnitsOf(c: nat): seq<nat> {
    if c < 0x1_0000 then [c] else [0xD800 + (c - 0x1_0000) / 0x400, 0xDC00 + (c - 0x1_0000) % 0x400]
  }

  function Encoded(t: Text): seq<nat> {
    if t == [] then [] else Encoded(t[..|t| - 1]) + UnitsOf(t[|t| - 1])
  }

  /** Code points: a pair of surrogates is one of them. */
  ghost predicate Ordinary(t: Text) {
    forall i {:trigger t[i]} :: 0 <= i < |t| ==> t[i] < 0x11_0000 && (i > 0 ==> !(IsHigh(t[i - 1]) && IsLow(t[i])))
  }

  lemma {:induction false} EncodedAppend(a: Text, b: Text)
    ensures Encoded(a + b) == Encoded(a) + Encoded(b)
    decreases |b|
  {
    if b == [] {
      assert a + b == a;
    } else {
      assert (a + b)[..|a + b| - 1] == a + b[..|b| - 1];
      EncodedAppend(a, b[..|b| - 1]);
    }
  }

  lemma {:induction false} EncodedUnits(t: Text)
    requires forall i :: 0 <= i < |t| ==> t[i] < 0x11_0000
    ensures forall i :: 0 <= i < |Encoded(t)| ==> Encoded(t)[i] < 0x1_0000
  {
    if t != [] {
      EncodedUnits(t[..|t| - 1]);
    }
  }

  lemma EncodedOne(c: nat)
    ensures Encoded([c]) == UnitsOf(c)
  {
    assert [c][..0] == [] && Encoded([]) == [];
  }

  /** The units around the k-th character. */
  lemma EncodedAt(t: Text, k: nat)
    requires k < |t|
    ensures var a, u, b := Encoded(t[..k]), UnitsOf(t[k]), Encoded(t[k + 1..]);
            && Encoded(t) == a + u + b && Encoded(t[..k + 1]) == a + u
            && (k > 0 ==> a != [] && a[|a| - 1] == UnitsOf(t[k - 1])[|UnitsOf(t[k - 1])| - 1])
            && (k + 1 < |t| ==> b != [] && b[0] == UnitsOf(t[k + 1])[0])
            && (k == 0 ==> a == []) && (k + 1 == |t| ==> b == [])
  {
    assert t[..k + 1][..k] == t[..k];
    assert t == t[..k + 1] + t[k + 1..];
    EncodedAppend(t[..k + 1], t[k + 1..]);
    if k > 0 {
      assert t[..k][..k - 1] == t[..k - 1];
    }
    if k + 1 < |t| {
      assert t[k + 1..] == [t[k + 1]] + t[k + 2..];
      EncodedAppend([t[k + 1]], t[k + 2..]);
      EncodedOne(t[k + 1]);
    } else {
      assert t[k + 1..] == [];
    }
  }

  /** One step over the k-th character, in both directions. */
  lemma StepsOver(t: Text, k: nat)
    requires k < |t| && Ordinary(t)
    ensures var inp, p, p1 := Input(Encoded(t), true), |Encoded(t[..k])|, |Encoded(t[..k + 1])|;
            && p < p1 <= |inp.units| && Prev(inp, p1, 0) == p && Next(inp, p, |inp.units|) == p1
            && CharAt(inp, p, |inp.units|) == t[k]
  {
    hide Encoded;
    EncodedAt(t, k);
    var c := t[k];
    if k > 0 { assert !(IsHigh(t[k - 1]) && IsLow(t[k])); }
    if k + 1 < |t| { assert !(IsHigh(t[k]) && IsLow(t[k + 1])); }
    if c >= 0x1_0000 {
      assert (c - 0x1_0000) / 0x400 < 0x400;
    }
  }

  lemma {:induction false} ReadsBackward(t: Text, k: nat)
    requires k <= |t| && Ordinary(t)
    ensures var inp := Input(Encoded(t), true);
            |Encoded(t[..k])| <= |inp.units| && TextStart(inp, t[..k], |Encoded(t[..k])|) == Some(0)
  {
    if k > 0 {
      StepsOver(t, k - 1);
      ReadsBackward(t, k - 1);
      assert t[..k][..k - 1] == t[..k - 1];
      hide Encoded;
    }
  }

  // ----- the exact condition ------------------------------------------------------------

  lemma {:induction false} AllStepBack(inp: Input, ys: seq<St>)
    requires |inp.units| > 0 && forall i :: 0 <= i < |ys| ==> ys[i].pos == |inp.units|
    ensures forall y :: y in StepBackEach(inp, ys) ==> y.pos == Prev(inp, |inp.units|, 0)
  {
    if ys != [] {
      AllStepBack(inp, ys[1..]);
    }
  }

  /** From the last character on there is only one character to read. */
  lemma OnlyLast(inp: Input, sorted: seq<Text>, cr: Intervals, x: St)
    requires ValidSt(inp, x) && x.pos < |inp.units| && Next(inp, x.pos, |inp.units|) == |inp.units| && [] !in sorted
    ensures Groups(ListNode(sorted, false, cr)) == 0
    ensures forall y :: y in StepBackEach(inp, Match(inp, ListNode(sorted, false, cr), 0, false, x)) ==>
              y.pos == Prev(inp, |inp.units|, 0)
  {
    ListMatch(inp, sorted, false, cr, 0, x);
    hide StepBackEach, Match, ListNode, TextEnd, Hits;
    var ys, hits := Match(inp, ListNode(sorted, false, cr), 0, false, x), Hits(inp, sorted, x);
    forall y | y in hits
      ensures y.pos == |inp.units|
    {
      HitsAre(inp, sorted, x, y);
      var t :| t in sorted && TextEnd(inp, t, x.pos) == Some(y.pos);
      ReadsFirst(inp, t, x.pos);
      OneCharacter(inp, t[0], x.pos);
      assert t[..1] == [t[0]];
      LongerReachesFurther(inp, t[..1], t, x.pos);
    }
    assert forall i :: 0 <= i < |hits| ==> hits[i] in hits;
    AllStepBack(inp, ys);
  }

  /** On the string itself as the subject. */
  lemma LongWrong(sorted: seq<Text>, cr: Intervals, t: Text)
    requires [] !in sorted && t in sorted && |t| > 1 && Ordinary(t)
    ensures !RightBackward(ListNode(sorted, false, cr))
  {
    hide Encoded, ListNode, Match, TextNode, TextStart, StepBackEach, RightBackward, Outcome, Ordinary;
    var inp, n := Input(Encoded(t), true), ListNode(sorted, false, cr);
    assert t[..|t|] == t;
    StepsOver(t, |t| - 1);
    StepsOver(t, |t| - 2);
    ReadsBackward(t, |t|);
    assert inp.Valid() by { OrdinaryUnits(t); }
    var x := St(|inp.units|, []);
    TextBackward(inp, t, x);
    OneStepBack(inp, sorted, cr, x);
    ListHas(inp, sorted, cr, t, x);
    StartsAtZero(inp, t, x);
    hide BackOutcomes;
    WrongAt(n, inp, x);
  }

  lemma OneStepBack(inp: Input, sorted: seq<Text>, cr: Intervals, x: St)
    requires x == St(|inp.units|, []) && x.pos > 0 && [] !in sorted
    requires Next(inp, Prev(inp, x.pos, 0), |inp.units|) == |inp.units|
    ensures Groups(ListNode(sorted, false, cr)) == 0
    ensures forall y :: y in BackOutcomes(inp, ListNode(sorted, false, cr), 0, x) ==> y.pos == Prev(inp, x.pos, 0)
  {
    OnlyLast(inp, sorted, cr, x.(pos := Prev(inp, x.pos, 0)));
  }

  lemma OrdinaryUnits(t: Text)
    requires Ordinary(t)
    ensures Input(Encoded(t), true).Valid()
  {
    EncodedUnits(t);
  }

  lemma StartsAtZero(inp: Input, t: Text, x: St)
    requires x.pos <= |inp.units| && TextStart(inp, t, x.pos) == Some(0) && x.caps == []
    ensures St(0, []) in Outcome(x, TextStart(inp, t, x.pos))
  {
  }

  /** In a lookbehind the code of a list matches what it should exactly when each of
      its strings is one character. */
  lemma ListsBackward(strings: seq<Text>, sorted: seq<Text>, cr: Intervals)
    requires Arranged(strings, sorted) && forall t :: t in strings ==> Ordinary(t)
    ensures RightBackward(ListNode(sorted, [] in strings, cr)) <==> forall t :: t in strings ==> |t| == 1
  {
    NonEmptyMembers(strings);
    SameMembers(sorted, NonEmpty(strings));
    hide RightBackward, ListNode, Ordinary;
    if [] in strings {
      EmptyWrong(sorted, cr);
    } else if t :| t in strings && |t| != 1 {
      LongWrong(sorted, cr, t);
    } else {
      assert forall i :: 0 <= i < |sorted| ==> sorted[i] in sorted;
      LettersRight(sorted, cr);
    }
  }

  /** (?<=[\q{ab}]) behind "ab": the pattern matches, and the code finds nothing. */
  lemma PairMissed()
    ensures var inp, n, x := Input([0x61, 0x62], true), ListNode([[0x61, 0x62]], false, []), St(2, []);
            && Groups(n) == 0 && BackOutcomes(inp, n, 0, x) == [] && Match(inp, n, 0, true, x) == [St(0, [])]
  {
    hide Match, BackOutcomes, TextNode;
    var inp, x := Input([0x61, 0x62], true), St(2, []);
    var t: Text := [0x61, 0x62];
    PairTexts(inp, t);
    TextBackward(inp, t, x);
    TextMatch(inp, t, 0, St(1, []));
    assert ListNode([t], false, []) == TextNode(t) by { OnlyText(t); }
    assert BackOutcomes(inp, TextNode(t), 0, x) == [] by { NoneBack(inp, TextNode(t), x); }
  }

  lemma OnlyText(t: Text)
    ensures ListNode([t], false, []) == TextNode(t)
  {
    assert [t][..0] == [] && Choice([], TextNode(t)) == TextNode(t);
  }

  lemma NoneBack(inp: Input, n: Node, x: St)
    requires Groups(n) == 0 && ValidSt(inp, x) && x.pos > 0
    requires Match(inp, n, 0, false, x.(pos := Prev(inp, x.pos, 0))) == []
    ensures BackOutcomes(inp, n, 0, x) == []
  {
  }

  lemma PairTexts(inp: Input, t: Text)
    requires inp == Input([0x61, 0x62], true) && t == [0x61, 0x62]
    ensures TextStart(inp, t, 2) == Some(0) && TextEnd(inp, t, 1) == None && Prev(inp, 2, 0) == 1
  {
    assert t[..1] == [0x61] && [0x61][..0] == [];
    assert TextStart(inp, [], 0) == Some(0) && TextStart(inp, [0x61], 1) == Some(0);
    assert TextEnd(inp, [], 1) == Some(1) && TextEnd(inp, [0x61], 1) == None;
  }
}
