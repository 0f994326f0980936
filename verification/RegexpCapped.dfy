/** Counted loops without an upper bound. Their counter starts at INT32_MAX, so
    the code is that of a loop with this upper bound, and it differs from what
    the standard asks for only where a subject is long enough to notice. */
module RegexpCapped {
  import opened RegexpInput
  import opened RegexpSemantics
  import opened RegexpCompiler
  import opened RegexpEquivalence
  import opened RegexpFacts
  import opened RegexpInstr
  import opened RegexpMachine
  import opened RegexpProgram

  /** The pattern that the code of `n` implements. */
  function Capped(n: Node, back: bool): Node {
    match n
    case Cat(a, b) => Cat(Capped(a, back), Capped(b, back))
    case Alt(a, b) => Alt(Capped(a, back), Capped(b, back))
    case Group(b) => Group(Capped(b, back))
    case Look(behind, negative, b) => Look(behind, negative, Capped(b, behind))
    case Quant(b, min, max, greedy) =>
      Quant(Capped(b, back), min,
            if max == Infinite && ShapeOf(b, min, max, back).Counted? then Finite(INT32_MAX) else max, greedy)
    case _ => n
  }

  /** Every counted loop without an upper bound is too long for a subject of
      length `len` to reach the end of its counter. */
  ghost predicate LoopsEnd(n: Node, back: bool, len: nat) {
    match n
    case Cat(a, b) => LoopsEnd(a, back, len) && LoopsEnd(b, back, len)
    case Alt(a, b) => LoopsEnd(a, back, len) && LoopsEnd(b, back, len)
    case Group(b) => LoopsEnd(b, back, len)
    case Look(behind, _, b) => LoopsEnd(b, behind, len)
    case Quant(b, min, max, _) =>
      LoopsEnd(b, back, len) && (max == Infinite && ShapeOf(b, min, max, back).Counted? ==> min + len <= INT32_MAX)
    case _ => true
  }

  // ----- the code -------------------------------------------------------------------

  /** The scan of an atom has the same outcome. */
  lemma {:induction false} SameScan(n: Node, back: bool)
    ensures var c := Capped(n, back);
            && NoStop(c) == NoStop(n) && NoRef(c) == NoRef(n) && Advances(c, back) == Advances(n, back)
  {
    hide ShapeOf;
    match n
    case Cat(a, b) =>
      SameScan(a, back);
      SameScan(b, back);
    case Group(b) => SameScan(b, back);
    case Quant(b, _, _, _) => SameScan(b, back);
    case _ =>
  }

  lemma {:induction false} SameGroups(n: Node, back: bool)
    ensures Groups(Capped(n, back)) == Groups(n)
  {
    match n
    case Cat(a, b) =>
      SameGroups(a, back);
      SameGroups(b, back);
    case Alt(a, b) =>
      SameGroups(a, back);
      SameGroups(b, back);
    case Group(b) => SameGroups(b, back);
    case Look(behind, _, b) => SameGroups(b, behind);
    case Quant(b, _, _, _) => SameGroups(b, back);
    case _ =>
  }

  lemma {:induction false} SameRegs(n: Node, back: bool, ngroups: nat)
    requires Parsed(n, ngroups)
    ensures Regs(Capped(n, back), back) == Regs(n, back)
  {
    match n
    case Cat(a, b) =>
      SameRegs(a, back, ngroups);
      SameRegs(b, back, ngroups);
    case Alt(a, b) =>
      SameRegs(a, back, ngroups);
      SameRegs(b, back, ngroups);
    case Group(b) => SameRegs(b, back, ngroups);
    case Look(behind, _, b) => SameRegs(b, behind, ngroups);
    case Quant(b, min, max, _) =>
      SameRegs(b, back, ngroups);
      SameScan(b, back);
      SameShape(b, min, max, back);
      hide Advances, ShapeOf;
    case _ =>
  }

  lemma SameShape(b: Node, min: nat, max: Bound, back: bool)
    requires Advances(Capped(b, back), back) == Advances(b, back) && min <= IntMax(max)
    ensures var max1 := if max == Infinite && ShapeOf(b, min, max, back).Counted? then Finite(INT32_MAX) else max;
            && ShapeOf(Capped(b, back), min, max1, back) == ShapeOf(b, min, max, back) && IntMax(max1) == IntMax(max)
  {
    hide Advances, Capped;
  }

  lemma {:induction false} CappedCode(n: Node, base: nat, back: bool, d: nat, alloc: bool, ngroups: nat)
    requires Parsed(n, ngroups)
    ensures Code(Capped(n, back), base, back, d, alloc) == Code(n, base, back, d, alloc)
    decreases n, 1
  {
    hide Code;
    var c := Capped(n, back);
    match n
    case Cat(a, b) =>
      SameGroups(a, back);
      CodeOfCat(n, base, back, d, alloc);
      CodeOfCat(c, base, back, d, alloc);
      CappedCode(a, base, back, d, alloc, ngroups);
      CappedCode(b, base + Groups(a), back, d, alloc, ngroups);
    case Alt(a, b) =>
      SameGroups(a, back);
      CodeOfAlt(n, base, back, d, alloc);
      CodeOfAlt(c, base, back, d, alloc);
      CappedCode(a, base, back, d, alloc, ngroups);
      CappedCode(b, base + Groups(a), back, d, alloc, ngroups);
    case Group(b) =>
      CodeOfGroup(n, base, back, d, alloc);
      CodeOfGroup(c, base, back, d, alloc);
      CappedCode(b, base + 1, back, d, alloc, ngroups);
    case Look(behind, _, b) =>
      CodeOfLook(n, base, back, d, alloc);
      CodeOfLook(c, base, back, d, alloc);
      CappedCode(b, base, behind, d, alloc, ngroups);
    case Quant(_, _, _, _) => CappedQuant(n, base, back, d, alloc, ngroups);
    case _ =>
  }

  lemma {:induction false} CappedQuant(n: Node, base: nat, back: bool, d: nat, alloc: bool, ngroups: nat)
    requires n.Quant? && Parsed(n, ngroups)
    ensures Code(Capped(n, back), base, back, d, alloc) == Code(n, base, back, d, alloc)
    decreases n, 0
  {
    hide Code, Advances, ShapeOf, LoopCode, ResetCode;
    var b, s := n.body, ShapeOf(n.body, n.min, n.max, back);
    SameScan(b, back);
    SameGroups(b, back);
    SameShape(b, n.min, n.max, back);
    CodeOfQuant(n, base, back, d, alloc);
    CodeOfQuant(Capped(n, back), base, back, d, alloc);
    CappedCode(b, base, back, d + ShapeRegs(s), alloc, ngroups);
    SameLoop(LoopAtom(b, base, back, d + ShapeRegs(s), alloc), s, n.min, n.max, n.greedy, d, alloc);
  }

  /** A loop's code depends on its upper bound only through the number it stands for. */
  lemma SameLoop(atom: seq<Instr>, s: Shape, min: nat, max: Bound, greedy: bool, d: nat, alloc: bool)
    ensures forall max1 :: IntMax(max1) == IntMax(max) ==>
              LoopCode(atom, s, min, max1, greedy, d, alloc) == LoopCode(atom, s, min, max, greedy, d, alloc)
  {
    hide SplitLoop, PlusLoop, CountedLoop;
  }

  /** The capped pattern is one that the engine's counters can follow. */
  lemma {:induction false} CappedWellFormed(n: Node, back: bool, ngroups: nat)
    requires Parsed(n, ngroups)
    ensures WellFormed(Capped(n, back), ngroups, back)
  {
    match n
    case Cat(a, b) =>
      CappedWellFormed(a, back, ngroups);
      CappedWellFormed(b, back, ngroups);
    case Alt(a, b) =>
      CappedWellFormed(a, back, ngroups);
      CappedWellFormed(b, back, ngroups);
    case Group(b) => CappedWellFormed(b, back, ngroups);
    case Look(behind, _, b) => CappedWellFormed(b, behind, ngroups);
    case Quant(b, min, max, _) =>
      CappedWellFormed(b, back, ngroups);
      SameScan(b, back);
      SameShape(b, min, max, back);
    case _ =>
  }

  // ----- the meaning ------------------------------------------------------------------

  /** On subjects that no counter is too short for, capping changes nothing. */
  lemma {:induction false} CappedMeans(inp: Input, n: Node, back: bool)
    requires LoopsEnd(n, back, |inp.units|)
    ensures Equivalent(inp, n, Capped(n, back), back)
  {
    hide Equivalent;
    var c := Capped(n, back);
    match n
    case Cat(a, b) =>
      CappedMeans(inp, a, back);
      CappedMeans(inp, b, back);
      CatEquivalent(inp, n, c, back);
    case Alt(a, b) =>
      CappedMeans(inp, a, back);
      CappedMeans(inp, b, back);
      AltEquivalent(inp, n, c, back);
    case Group(b) =>
      CappedMeans(inp, b, back);
      GroupEquivalent(inp, n, c, back);
    case Look(behind, _, b) =>
      CappedMeans(inp, b, behind);
      LookEquivalent(inp, n, c, back);
    case Quant(b, _, _, _) =>
      CappedMeans(inp, b, back);
      QuantEquivalent(inp, n, c, back);
    case _ => EquivalentItself(inp, n, back);
  }

  // ----- the program --------------------------------------------------------------------

  ghost predicate Loaded(m: Machine, n: Node, sticky: bool, words: Words) {
    && m.inp.Valid() && m.ngroups == 1 + Groups(n) && Parsed(n, m.ngroups)
    && At(m.fetch, 0, ProgramCode(n, sticky, true))
    && 2 * m.ngroups + Regs(n, false) <= |words|
    && forall k :: 0 <= k < 2 * m.ngroups ==> words[k] == Null
  }

  /** For every pattern and every subject the compiled program halts, and finds
      what the standard prescribes for the capped pattern. */
  lemma ProgramExact(m: Machine, n: Node, sticky: bool, p: nat, words: Words)
    requires Loaded(m, n, sticky, words) && p <= |m.inp.units|
    ensures Computes(m, Run(0, p, words, []), Find(m.inp, Capped(n, false), sticky, p))
  {
    var c := Capped(n, false);
    assert Started(m, c, sticky, words) by { CappedStarts(m, n, sticky, words); }
    hide Started, Loaded, Computes, Find, Capped;
    ProgramCorrect(m, c, sticky, p, words);
  }

  lemma CappedStarts(m: Machine, n: Node, sticky: bool, words: Words)
    requires Loaded(m, n, sticky, words)
    ensures Started(m, Capped(n, false), sticky, words)
  {
    var c := Capped(n, false);
    SameGroups(n, false);
    SameRegs(n, false, m.ngroups);
    CappedWellFormed(n, false, m.ngroups);
    CappedCode(n, 1, false, 0, true, m.ngroups);
    CodeOfGroup(Group(n), 0, false, 0, true);
    CodeOfGroup(Group(c), 0, false, 0, true);
    hide Code, Capped, Regs, Groups, WellFormed, Parsed, At;
    assert ProgramCode(c, sticky, true) == ProgramCode(n, sticky, true);
  }

  /** Where no counter is too short, this is the match of the pattern itself. */
  lemma {:induction false} FindSame(inp: Input, n: Node, sticky: bool, p: nat)
    requires LoopsEnd(n, false, |inp.units|) && p <= |inp.units|
    ensures Find(inp, Capped(n, false), sticky, p) == Find(inp, n, sticky, p)
    decreases |inp.units| - p
  {
    var c := Capped(n, false);
    CappedMeans(inp, n, false);
    GroupEquivalent(inp, Group(n), Group(c), false);
    hide Match, Capped, LoopsEnd, Groups;
    SameGroups(n, false);
    GroupCount(n);
    var x := St(p, NoCaps(1 + Groups(n)));
    EquivalentAt(inp, Group(n), Group(c), 0, false, x);
    if !sticky && p < |inp.units| {
      FindSame(inp, n, sticky, Next(inp, p, |inp.units|));
    }
  }

  lemma GroupCount(n: Node)
    ensures Groups(Group(n)) == 1 + Groups(n)
  {
  }

  // ----- exactly when capping shows -------------------------------------------------------

  const A: nat := 0x61

  /** (?:|a){min,max} */
  function EagerEmpty(min: nat, max: Bound): Node {
    Quant(Alt(Empty, Char(A)), min, max, true)
  }

  predicate AllA(inp: Input) {
    !inp.utf16 && forall i :: 0 <= i < |inp.units| ==> inp.units[i] == A
  }

  function Least(a: nat, b: nat): nat {
    if a < b then a else b
  }

  /** How far it gets: the mandatory passes match nothing, each further one an "a". */
  function ReachOf(len: nat, pos: nat, min: nat, max: Bound): nat
    requires max.Finite? ==> min <= max.n
  {
    match max
    case Finite(n) => Least(len, pos + (n - min))
    case Infinite => len
  }

  lemma AtomOutcomes(inp: Input, base: nat, x: St)
    requires AllA(inp) && ValidSt(inp, x) && base <= |x.caps|
    ensures Reset(x, base, 0) == x
    ensures Match(inp, Alt(Empty, Char(A)), base, false, x)
            == [x] + if x.pos < |inp.units| then [x.(pos := x.pos + 1)] else []
  {
    assert Reset(x, base, 0).caps == x.caps;
  }

  lemma {:induction false} EagerReach(inp: Input, min: nat, max: Bound, base: nat, x: St)
    requires AllA(inp) && ValidSt(inp, x) && base <= |x.caps| && (max.Finite? ==> min <= max.n)
    ensures var r := Repeat(inp, Alt(Empty, Char(A)), min, max, true, base, false, x);
            r != [] && r[0] == x.(pos := ReachOf(|inp.units|, x.pos, min, max))
    decreases min, |inp.units| - x.pos
  {
    var b := Alt(Empty, Char(A));
    AtomOutcomes(inp, base, x);
    hide Match, Repeat, RepeatEach;
    var ys := RepeatIs(inp, b, min, max, true, base, false, x);
    if max != Finite(0) {
      FirstPass(inp, b, min, max, true, base, false, x, ys);
      if min > 0 {
        EagerReach(inp, min - 1, Less(max), base, x);
      } else if x.pos < |inp.units| {
        var y := x.(pos := x.pos + 1);
        assert ys[1..] == [y];
        FirstPass(inp, b, min, max, true, base, false, x, ys[1..]);
        EagerReach(inp, 0, Less(max), base, y);
      } else {
        assert ys[1..] == [];
        NoPasses(inp, b, min, max, true, base, false, x);
      }
    }
  }

  function ManyA(len: nat): (inp: Input)
    ensures |inp.units| == len && AllA(inp)
  {
    Input(seq(len, i => A), false)
  }

  /** The counter is harmless for all atoms and all subjects of length `len`
      exactly if it does not run out within min + len passes. */
  lemma CounterExact(min: nat, len: nat)
    requires min <= INT32_MAX
    ensures min + len <= INT32_MAX <==>
            forall inp: Input, b: Node, greedy: bool, back: bool | |inp.units| == len ::
              Equivalent(inp, Quant(b, min, Infinite, greedy), Quant(b, min, Finite(INT32_MAX), greedy), back)
  {
    if min + len <= INT32_MAX {
      forall inp: Input, b: Node, greedy: bool, back: bool | |inp.units| == len
        ensures Equivalent(inp, Quant(b, min, Infinite, greedy), Quant(b, min, Finite(INT32_MAX), greedy), back)
      {
        EquivalentItself(inp, b, back);
        hide Equivalent;
        QuantEquivalent(inp, Quant(b, min, Infinite, greedy), Quant(b, min, Finite(INT32_MAX), greedy), back);
      }
    } else {
      var inp, n1, n2 := ManyA(len), EagerEmpty(min, Infinite), EagerEmpty(min, Finite(INT32_MAX));
      CounterShows(inp, min);
      assert !Equivalent(inp, n1, n2, false);
    }
  }

  lemma CounterShows(inp: Input, min: nat)
    requires AllA(inp) && min <= INT32_MAX < min + |inp.units|
    ensures !Equivalent(inp, EagerEmpty(min, Infinite), EagerEmpty(min, Finite(INT32_MAX)), false)
  {
    var n1, n2, x := EagerEmpty(min, Infinite), EagerEmpty(min, Finite(INT32_MAX)), St(0, []);
    QuantSame(inp, n1, 0, false, x);
    QuantSame(inp, n2, 0, false, x);
    EagerReach(inp, min, Infinite, 0, x);
    EagerReach(inp, min, Finite(INT32_MAX), 0, x);
    hide Match, Repeat;
    assert Match(inp, n1, 0, false, x)[0] != Match(inp, n2, 0, false, x)[0];
  }

  /** On "aa" the pattern (?:|a){2147483646,} matches "aa" by the standard, and "a"
      by the code. */
  lemma LongLoopDiffers()
    ensures var n, inp := EagerEmpty(2147483646, Infinite), ManyA(2);
            && Parsed(n, 1)
            && Find(inp, n, true, 0) == Some([Some(Span(0, 2))])
            && Find(inp, Capped(n, false), true, 0) == Some([Some(Span(0, 1))])
  {
    var n, inp := EagerEmpty(2147483646, Infinite), ManyA(2);
    assert Capped(n, false) == EagerEmpty(2147483646, Finite(INT32_MAX));
    FoundSpan(inp, 2147483646, Infinite);
    FoundSpan(inp, 2147483646, Finite(INT32_MAX));
  }

  lemma FoundSpan(inp: Input, min: nat, max: Bound)
    requires AllA(inp) && (max.Finite? ==> min <= max.n)
    ensures Find(inp, EagerEmpty(min, max), true, 0) == Some([Some(Span(0, ReachOf(|inp.units|, 0, min, max)))])
  {
    var n, x := EagerEmpty(min, max), St(0, NoCaps(1));
    assert Groups(n) == 0 && Groups(Group(n)) == 1;
    GroupOutcomes(inp, Group(n), 0, false, x);
    QuantSame(inp, n, 1, false, x);
    EagerReach(inp, min, max, 1, x);
    hide Match, Repeat;
    var ys, end := Match(inp, n, 1, false, x), ReachOf(|inp.units|, 0, min, max);
    assert ys[0] == St(end, x.caps);
    var closed := CloseEach(inp, 0, false, x, ys);
    assert closed[0].caps == x.caps[0 := Some(Span(0, end))];
    assert x.caps[0 := Some(Span(0, end))] == [Some(Span(0, end))];
  }
}
