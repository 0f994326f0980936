/** Running the code of a pattern delivers exactly the outcomes of the pattern,
    in their order. */
module RegexpCorrect {
  import opened RegexpInput
  import opened RegexpSemantics
  import opened RegexpInstr
  import opened RegexpClass
  import opened RegexpCompiler
  import opened RegexpFacts
  import opened RegexpMachine
  import opened RegexpYields

  // ----- what the proof keeps true ------------------------------------------

  /** Static conditions: the pattern fits the machine. */
  ghost predicate Fits(m: Machine, n: Node, base: nat, back: bool, d: nat, words: Words) {
    && m.inp.Valid() && WellFormed(n, m.ngroups, back)
    && base + Groups(n) <= m.ngroups
    && 2 * m.ngroups + d + Regs(n, back) <= |words|
  }

  /** The capture array stands for `x`. */
  ghost predicate Shows(m: Machine, words: Words, x: St, open: set<nat>, stale: set<nat>) {
    ValidSt(m.inp, x) && |x.caps| == m.ngroups && SlotsAgree(words, x, open, stale)
  }

  ghost predicate Apart(open: set<nat>, base: nat, count: nat) {
    forall g {:trigger g in open} :: g in open ==> !(base <= g < base + count)
  }

  /** None of the groups of the node is set when matching reaches it. */
  ghost predicate Clear(x: St, base: nat, count: nat) {
    forall g {:trigger x.caps[g]} :: base <= g < base + count && g < |x.caps| ==> x.caps[g] == None
  }

  ghost predicate Ready(m: Machine, n: Node, base: nat, back: bool, d: nat, x: St, words: Words,
                        open: set<nat>, stale: set<nat>)
  {
    && Fits(m, n, base, back, d, words)
    && Shows(m, words, x, open, stale)
    && Apart(open, base, Groups(n)) && Clear(x, base, Groups(n))
    && (stale == {} || Linear(n))
  }

  ghost function NodeGoal(n: Node, base: nat, back: bool, d: nat, pc: nat, words: Words,
                          open: set<nat>, stale: set<nat>): Goal
  {
    Goal(pc + SizeAll(Code(n, base, back, d, true)), open, stale - Writes(n, base), words, base, base + Groups(n), d)
  }

  ghost function PlainGoal(n: Node, base: nat, back: bool, d: nat, pc: nat, words: Words, open: set<nat>): Goal {
    Goal(pc + SizeAll(Code(n, base, back, d, true)), open, {}, words, base, base + Groups(n), d)
  }

  lemma NothingStale(n: Node, base: nat, back: bool, d: nat, pc: nat, words: Words, open: set<nat>)
    ensures NodeGoal(n, base, back, d, pc, words, open, {}) == PlainGoal(n, base, back, d, pc, words, open)
  {
    assert {} - Writes(n, base) == {};
  }

  // ----- small steps --------------------------------------------------------

  /** A goal that allows no more changes than another one, seen from a state
      that already went through allowed changes. */
  lemma Widen(m: Machine, g1: Goal, g2: Goal)
    requires g1.exit == g2.exit && g1.open == g2.open && g1.stale == g2.stale
    requires Untouched(g2.words0, g1.words0, m.ngroups, g2.lo, g2.hi, g2.d)
    requires g2.lo <= g1.lo && g1.hi <= g2.hi && g2.d <= g1.d
    ensures Weaker(m, g1, g2)
  {
    forall y: St, w: Words | Arrives(m, g1, y, w)
      ensures Arrives(m, g2, y, w)
    {
      forall k | 0 <= k < |g2.words0| && k < 2 * m.ngroups + g2.d && !(2 * g2.lo <= k < 2 * g2.hi)
        ensures w[k] == g2.words0[k]
      {
        assert g1.words0[k] == g2.words0[k];
      }
    }
  }

  /** The machine at `pc` executes `i`. */
  lemma At1(m: Machine, pc: nat, i: Instr, pos: nat, words: Words, stk: Stack)
    requires m.fetch(pc) == Some(i) && pos <= |m.inp.units|
    ensures Step(m, Run(pc, pos, words, stk)) == Exec(m, i, pc + Size(i), pos, words, stk)
  {
  }

  lemma OneStep(m: Machine, pc: nat, i: Instr, pos: nat, words: Words, stk: Stack, s: State)
    requires m.fetch(pc) == Some(i) && pos <= |m.inp.units|
    requires Exec(m, i, pc + Size(i), pos, words, stk) == s
    ensures Reaches(m, Run(pc, pos, words, stk), s)
  {
    At1(m, pc, i, pos, words, stk);
    ReachesSelf(m, s);
    ReachesStep(m, Run(pc, pos, words, stk), s);
  }

  /** Giving up resumes the innermost choice point. */
  lemma PopStep(m: Machine, stk: Stack, f: Frame)
    requires f.kind != KLook
    ensures Reaches(m, State.Back(stk + [f]), Run(f.pc, f.pos, f.words, stk))
  {
    var s := State.Back(stk + [f]);
    assert (stk + [f])[..|stk|] == stk;
    ReachesSelf(m, Step(m, s));
    ReachesStep(m, s, Step(m, s));
  }

  lemma PopLook(m: Machine, stk: Stack, f: Frame)
    requires f.kind == KLook
    ensures Reaches(m, State.Back(stk + [f]), State.Back(stk))
  {
    var s := State.Back(stk + [f]);
    assert (stk + [f])[..|stk|] == stk;
    ReachesSelf(m, Step(m, s));
    ReachesStep(m, s, Step(m, s));
  }

  // ----- characters ---------------------------------------------------------

  /** The compiled test accepts the characters of the node. */
  lemma CharTestAgrees(m: Machine, n: Node, next: nat, pos: nat, words: Words, stk: Stack)
    requires m.inp.Valid() && IsCharTest(n) && Parsed(n, m.ngroups)
    requires pos < |m.inp.units|
    ensures Exec(m, CharInstr(n), next, pos, words, stk)
         == AfterChar(Accepts(n, CharAt(m.inp, pos, |m.inp.units|)), m, next, pos, words, stk)
  {
    var c := CharAt(m.inp, pos, |m.inp.units|);
    assert c < UINT32_MAX;
    if n.Class? {
      assert Proper(n.intervals);
      if n.intervals != [] {
        ClassAgrees(n.intervals, c);
      }
    }
  }

  lemma CharAtEnd(m: Machine, n: Node, next: nat, words: Words, stk: Stack)
    requires IsCharTest(n)
    ensures Exec(m, CharInstr(n), next, |m.inp.units|, words, stk) == State.Back(stk)
  {
  }

  lemma CharStep(m: Machine, n: Node, pc: nat, pos: nat, words: Words, stk: Stack)
    requires m.inp.Valid() && IsCharTest(n) && Parsed(n, m.ngroups)
    requires pos <= |m.inp.units| && m.fetch(pc) == Some(CharInstr(n))
    ensures var q := StepChar(m.inp, n, false, pos);
            Reaches(m, Run(pc, pos, words, stk),
                    if q.None? then State.Back(stk) else Run(pc + Size(CharInstr(n)), q.value, words, stk))
  {
    var i := CharInstr(n);
    if pos == |m.inp.units| {
      CharAtEnd(m, n, pc + Size(i), words, stk);
    } else {
      CharTestAgrees(m, n, pc + Size(i), pos, words, stk);
    }
    OneStep(m, pc, i, pos, words, stk, Exec(m, i, pc + Size(i), pos, words, stk));
  }

  lemma PrevStep(m: Machine, pc: nat, pos: nat, words: Words, stk: Stack)
    requires pos <= |m.inp.units| && m.fetch(pc) == Some(IPrev)
    ensures Reaches(m, Run(pc, pos, words, stk),
                    if pos == 0 then State.Back(stk) else Run(pc + 1, Prev(m.inp, pos, 0), words, stk))
  {
    OneStep(m, pc, IPrev, pos, words, stk, Exec(m, IPrev, pc + 1, pos, words, stk));
  }

  lemma CharForward(m: Machine, n: Node, pc: nat, x: St, words: Words, g: Goal, stk: Stack)
    requires m.inp.Valid() && IsCharTest(n) && Parsed(n, m.ngroups)
    requires Shows(m, words, x, g.open, g.stale) && g.words0 == words
    requires m.fetch(pc) == Some(CharInstr(n)) && g.exit == pc + Size(CharInstr(n))
    ensures Yields(m, Run(pc, x.pos, words, stk), g, MatchChar(m.inp, n, false, x), stk)
  {
    var s := Run(pc, x.pos, words, stk);
    CharStep(m, n, pc, x.pos, words, stk);
    var q := StepChar(m.inp, n, false, x.pos);
    if q.None? {
      YieldsNone(m, s, g, stk);
    } else {
      YieldsOne(m, s, g, x.(pos := q.value), words, stk);
    }
  }

  /** prev, test, prev: one character to the left, or no match. */
  lemma BackwardSteps(m: Machine, n: Node, pc: nat, pos: nat, words: Words, stk: Stack)
    requires m.inp.Valid() && IsCharTest(n) && Parsed(n, m.ngroups)
    requires pos <= |m.inp.units|
    requires m.fetch(pc) == Some(IPrev) && m.fetch(pc + 1) == Some(CharInstr(n))
    requires m.fetch(pc + 1 + Size(CharInstr(n))) == Some(IPrev)
    ensures var q := StepChar(m.inp, n, true, pos);
            Reaches(m, Run(pc, pos, words, stk),
                    if q.None? then State.Back(stk) else Run(pc + 2 + Size(CharInstr(n)), q.value, words, stk))
  {
    hide WellFormed, CharInstr, Step;
    PrevStep(m, pc, pos, words, stk);
    if pos != 0 {
      var s, pc2 := Run(pc, pos, words, stk), pc + 1 + Size(CharInstr(n));
      var q := Prev(m.inp, pos, 0);
      CharStep(m, n, pc + 1, q, words, stk);
      var r := StepChar(m.inp, n, false, q);
      if r.None? {
        ReachesTrans(m, s, Run(pc + 1, q, words, stk), State.Back(stk));
      } else {
        ReachesTrans(m, s, Run(pc + 1, q, words, stk), Run(pc2, r.value, words, stk));
        PrevNextPrev(m.inp, pos);
        PrevStep(m, pc2, r.value, words, stk);
        ReachesTrans(m, s, Run(pc2, r.value, words, stk), Run(pc2 + 1, q, words, stk));
      }
    }
  }

  lemma CharBackward(m: Machine, n: Node, pc: nat, x: St, words: Words, g: Goal, stk: Stack)
    requires m.inp.Valid() && IsCharTest(n) && Parsed(n, m.ngroups)
    requires Shows(m, words, x, g.open, g.stale) && g.words0 == words
    requires m.fetch(pc) == Some(IPrev) && m.fetch(pc + 1) == Some(CharInstr(n))
    requires m.fetch(pc + 1 + Size(CharInstr(n))) == Some(IPrev)
    requires g.exit == pc + 2 + Size(CharInstr(n))
    ensures Yields(m, Run(pc, x.pos, words, stk), g, MatchChar(m.inp, n, true, x), stk)
  {
    var s := Run(pc, x.pos, words, stk);
    BackwardSteps(m, n, pc, x.pos, words, stk);
    var q := StepChar(m.inp, n, true, x.pos);
    if q.None? {
      YieldsNone(m, s, g, stk);
    } else {
      YieldsOne(m, s, g, x.(pos := q.value), words, stk);
    }
  }

  // ----- back references ----------------------------------------------------

  /** The slots hold the groups of the pattern state, so the engine finds the
      same group and compares the same text. */
  lemma {:induction false} RefAgrees(m: Machine, back: bool, groups: seq<nat>, next: nat, x: St, words: Words,
                                     open: set<nat>, stk: Stack)
    requires Shows(m, words, x, open, {})
    requires forall i :: 0 <= i < |groups| ==> groups[i] < m.ngroups
    ensures var ys := MatchRef(m.inp, groups, back, x);
            StepRef(m, back, groups, next, x.pos, words, stk)
            == if ys == [] then State.Back(stk) else Run(next, ys[0].pos, words, stk)
    decreases |groups|
  {
    if groups != [] {
      var g := groups[0];
      assert x.caps[g].Some? ==> ValidSpan(m.inp, x.caps[g]);
      if x.caps[g].None? {
        RefAgrees(m, back, groups[1..], next, x, words, open, stk);
      }
    }
  }

  lemma RefStep(m: Machine, back: bool, groups: seq<nat>, pc: nat, x: St, words: Words, g: Goal, stk: Stack)
    requires Shows(m, words, x, g.open, {}) && g.words0 == words && g.stale == {}
    requires forall i :: 0 <= i < |groups| ==> groups[i] < m.ngroups
    requires m.fetch(pc) == Some(IBackRef(back, groups)) && g.exit == pc + 2 + |groups|
    ensures Yields(m, Run(pc, x.pos, words, stk), g, MatchRef(m.inp, groups, back, x), stk)
  {
    var ys := MatchRef(m.inp, groups, back, x);
    RefAgrees(m, back, groups, g.exit, x, words, g.open, stk);
    if ys == [] {
      OneStep(m, pc, IBackRef(back, groups), x.pos, words, stk, State.Back(stk));
      YieldsNone(m, Run(pc, x.pos, words, stk), g, stk);
    } else {
      OneStep(m, pc, IBackRef(back, groups), x.pos, words, stk, Run(g.exit, ys[0].pos, words, stk));
      assert Follows(m.inp, back, x, ys[0]) && ys[0].caps == x.caps;
      assert SlotsAgree(words, ys[0], g.open, {});
      YieldsOne(m, Run(pc, x.pos, words, stk), g, ys[0], words, stk);
    }
  }

  // ----- sequences ----------------------------------------------------------

  ghost predicate AllClear(ys: seq<St>, base: nat, count: nat) {
    forall i :: 0 <= i < |ys| ==> Clear(ys[i], base, count)
  }

  /** Groups outside the node stay clear. */
  lemma StaysClear(inp: Input, n: Node, base: nat, back: bool, x: St, lo: nat, count: nat)
    requires ValidSt(inp, x) && base + Groups(n) <= |x.caps|
    requires Clear(x, lo, count) && (lo + count <= base || base + Groups(n) <= lo)
    ensures AllClear(Match(inp, n, base, back, x), lo, count)
  {
    var t := GroupRange(base, Groups(n));
    MatchTouches(inp, n, base, back, x, t);
    var ys := Match(inp, n, base, back, x);
    forall i | 0 <= i < |ys|
      ensures Clear(ys[i], lo, count)
    {
      assert SameExcept(x, ys[i], t);
    }
  }

  /** `g` accepts what the code of `n` delivers from `words`. */
  ghost predicate Covers(m: Machine, g: Goal, n: Node, base: nat, back: bool, d: nat, pc: nat, words: Words,
                         stale: set<nat>) {
    && g.exit == pc + SizeAll(Code(n, base, back, d, true))
    && g.stale == stale - Writes(n, base)
    && g.lo <= base && base + Groups(n) <= g.hi && g.d <= d
    && Untouched(g.words0, words, m.ngroups, g.lo, g.hi, g.d)
  }

  lemma {:induction false} CorrectTo(m: Machine, n: Node, base: nat, back: bool, d: nat, pc: nat, x: St, words: Words,
                                     stale: set<nat>, g: Goal, stk: Stack)
    requires Ready(m, n, base, back, d, x, words, g.open, stale)
    requires At(m.fetch, pc, Code(n, base, back, d, true))
    requires Covers(m, g, n, base, back, d, pc, words, stale)
    ensures Yields(m, Run(pc, x.pos, words, stk), g, Match(m.inp, n, base, back, x), stk)
    decreases n, 10
  {
    hide Code, Match, WellFormed, Regs;
    Correct(m, n, base, back, d, pc, x, words, g.open, stale, stk);
    var g0 := NodeGoal(n, base, back, d, pc, words, g.open, stale);
    Widen(m, g0, g);
    YieldsWeaken(m, Run(pc, x.pos, words, stk), g0, g, Match(m.inp, n, base, back, x), stk);
  }

  /** What must hold of the state between two nodes for the second to run. */
  ghost predicate Follow2(m: Machine, g1: Goal, g2: Goal, n: Node, base: nat, back: bool, d: nat) {
    && g2.exit == g1.exit + SizeAll(Code(n, base, back, d, true))
    && g2 == g1.(exit := g2.exit, stale := g1.stale - Writes(n, base))
    && g2.lo <= base && base + Groups(n) <= g2.hi && g2.d <= d
    && Fits(m, n, base, back, d, g1.words0)
    && Apart(g1.open, base, Groups(n))
    && (g1.stale == {} || Linear(n))
  }

  lemma ThenReady(m: Machine, g1: Goal, g2: Goal, n: Node, base: nat, back: bool, d: nat, y: St, w: Words)
    requires Follow2(m, g1, g2, n, base, back, d) && Arrives(m, g1, y, w) && Clear(y, base, Groups(n))
    ensures Ready(m, n, base, back, d, y, w, g1.open, g1.stale)
    ensures Covers(m, g2, n, base, back, d, g1.exit, w, g1.stale)
  {
  }

  ghost predicate AllNext(m: Machine, x: St, back: bool, ys: seq<St>, base: nat, count: nat) {
    && ValidSt(m.inp, x) && |x.caps| == m.ngroups
    && AllFollow(m.inp, back, x, ys) && AllClear(ys, base, count)
  }

  lemma NextTail(m: Machine, x: St, back: bool, ys: seq<St>, base: nat, count: nat)
    requires AllNext(m, x, back, ys, base, count) && ys != []
    ensures AllNext(m, x, back, ys[1..], base, count)
    ensures Follows(m.inp, back, x, ys[0]) && Clear(ys[0], base, count)
  {
    assert Follows(m.inp, back, x, ys[0]) && Clear(ys[0], base, count);
    forall i | 0 <= i < |ys[1..]|
      ensures Clear(ys[1..][i], base, count) && Follows(m.inp, back, x, ys[1..][i])
    {
      assert Clear(ys[i + 1], base, count) && Follows(m.inp, back, x, ys[i + 1]);
    }
  }

  /** The code of `n` at the exit of a run: the outcomes of `n` from each of
      the run's outcomes. */
  lemma {:induction false} ThenEach(m: Machine, s: State, g1: Goal, g2: Goal, n: Node, base: nat, back: bool, d: nat,
                                    x: St, ys: seq<St>, stk: Stack)
    requires Yields(m, s, g1, ys, stk)
    requires Follow2(m, g1, g2, n, base, back, d)
    requires At(m.fetch, g1.exit, Code(n, base, back, d, true))
    requires base + Groups(n) <= m.ngroups && AllNext(m, x, back, ys, base, Groups(n))
    ensures Yields(m, s, g2, MatchEach(m.inp, n, base, back, x, ys), stk)
    decreases n, 11, |ys|
  {
    hide Code, Match, WellFormed, Regs;
    if ys == [] {
      YieldsNone(m, s, g2, stk);
    } else {
      var w, t :| YieldsAs(m, s, g1, ys, stk, w, t);
      NextTail(m, x, back, ys, base, Groups(n));
      ThenEach(m, State.Back(stk + t), g1, g2, n, base, back, d, x, ys[1..], stk);
      ThenReady(m, g1, g2, n, base, back, d, ys[0], w);
      CorrectTo(m, n, base, back, d, g1.exit, ys[0], w, g1.stale, g2, stk + t);
      Chain(m, s, Run(g1.exit, ys[0].pos, w, stk + t), g2, Match(m.inp, n, base, back, ys[0]),
            MatchEach(m.inp, n, base, back, x, ys[1..]), stk, t);
    }
  }

  /** A run that first delivers `ys` on a higher stack and then `zs`. */
  lemma Chain(m: Machine, s: State, s1: State, g: Goal, ys: seq<St>, zs: seq<St>, stk: Stack, t: Stack)
    requires Reaches(m, s, s1) && AllSplit(t)
    requires Yields(m, s1, g, ys, stk + t) && Yields(m, State.Back(stk + t), g, zs, stk)
    ensures Yields(m, s, g, ys + zs, stk)
  {
    YieldsAppend(m, s1, g, ys, zs, stk, t);
    YieldsReach(m, s, s1, g, ys + zs, stk);
  }

  /** Two nodes in matching order. */
  lemma {:induction false} CatRun(m: Machine, n: Node, n1: Node, base1: nat, n2: Node, base2: nat, back: bool, d: nat,
                                  pc: nat, x: St, words: Words, g1: Goal, g2: Goal, stale: set<nat>, stk: Stack)
    requires n1 < n && n2 < n
    requires Ready(m, n1, base1, back, d, x, words, g1.open, stale)
    requires At(m.fetch, pc, Code(n1, base1, back, d, true)) && Covers(m, g1, n1, base1, back, d, pc, words, stale)
    requires At(m.fetch, g1.exit, Code(n2, base2, back, d, true)) && Follow2(m, g1, g2, n2, base2, back, d)
    requires Clear(x, base2, Groups(n2))
    requires base1 + Groups(n1) <= base2 || base2 + Groups(n2) <= base1
    ensures Yields(m, Run(pc, x.pos, words, stk), g2,
                   MatchEach(m.inp, n2, base2, back, x, Match(m.inp, n1, base1, back, x)), stk)
    decreases n, 6
  {
    hide Code, Match, WellFormed, Regs;
    CorrectTo(m, n1, base1, back, d, pc, x, words, stale, g1, stk);
    StaysClear(m.inp, n1, base1, back, x, base2, Groups(n2));
    ThenEach(m, Run(pc, x.pos, words, stk), g1, g2, n2, base2, back, d, x, Match(m.inp, n1, base1, back, x), stk);
  }

  // In a lookbehind the second term comes first, in the code and in time.

  function Former(n: Node, back: bool): Node
    requires n.Cat?
  {
    if back then n.second else n.first
  }

  function Latter(n: Node, back: bool): Node
    requires n.Cat?
  {
    if back then n.first else n.second
  }

  function FormerBase(n: Node, base: nat, back: bool): nat
    requires n.Cat?
  {
    if back then base + Groups(n.first) else base
  }

  function LatterBase(n: Node, base: nat, back: bool): nat
    requires n.Cat?
  {
    if back then base else base + Groups(n.first)
  }

  lemma CatReady(m: Machine, n: Node, base: nat, back: bool, d: nat, x: St, words: Words, open: set<nat>,
                 stale: set<nat>)
    requires n.Cat? && Ready(m, n, base, back, d, x, words, open, stale)
    ensures Ready(m, Former(n, back), FormerBase(n, base, back), back, d, x, words, open, stale)
    ensures Ready(m, Latter(n, back), LatterBase(n, base, back), back, d, x, words, open, stale)
  {
  }

  lemma CatPlaced(fetch: Fetch, n: Node, base: nat, back: bool, d: nat, pc: nat)
    requires n.Cat? && At(fetch, pc, Code(n, base, back, d, true))
    ensures var c1, c2 := Code(Former(n, back), FormerBase(n, base, back), back, d, true),
                          Code(Latter(n, back), LatterBase(n, base, back), back, d, true);
            At(fetch, pc, c1) && At(fetch, pc + SizeAll(c1), c2)
            && SizeAll(Code(n, base, back, d, true)) == SizeAll(c1) + SizeAll(c2)
  {
    hide Code;
    var c1 := Code(Former(n, back), FormerBase(n, base, back), back, d, true);
    var c2 := Code(Latter(n, back), LatterBase(n, base, back), back, d, true);
    CodeOfCat(n, base, back, d, true);
    AtAppend(fetch, pc, c1, c2);
  }

  lemma CatMatch(inp: Input, n: Node, base: nat, back: bool, x: St)
    requires n.Cat? && ValidSt(inp, x) && base + Groups(n) <= |x.caps|
    ensures Match(inp, n, base, back, x)
         == MatchEach(inp, Latter(n, back), LatterBase(n, base, back), back, x,
                      Match(inp, Former(n, back), FormerBase(n, base, back), back, x))
  {
  }

  ghost function HalfGoal(n: Node, base: nat, back: bool, d: nat, pc: nat, words: Words, open: set<nat>,
                          stale: set<nat>): Goal
    requires n.Cat?
  {
    Goal(pc + SizeAll(Code(Former(n, back), FormerBase(n, base, back), back, d, true)), open,
         stale - Writes(Former(n, back), FormerBase(n, base, back)), words, base, base + Groups(n), d)
  }

  lemma WritesOfCat(n: Node, base: nat, back: bool, stale: set<nat>)
    requires n.Cat?
    ensures stale - Writes(n, base) == stale - Writes(Former(n, back), FormerBase(n, base, back))
                                             - Writes(Latter(n, back), LatterBase(n, base, back))
  {
  }

  lemma CatGoals(m: Machine, n: Node, base: nat, back: bool, d: nat, pc: nat, x: St, words: Words, open: set<nat>,
                 stale: set<nat>)
    requires n.Cat? && At(m.fetch, pc, Code(n, base, back, d, true))
    requires Ready(m, Latter(n, back), LatterBase(n, base, back), back, d, x, words, open, stale)
    ensures var g1, g := HalfGoal(n, base, back, d, pc, words, open, stale),
            NodeGoal(n, base, back, d, pc, words, open, stale);
            && Covers(m, g1, Former(n, back), FormerBase(n, base, back), back, d, pc, words, stale)
            && Follow2(m, g1, g, Latter(n, back), LatterBase(n, base, back), back, d)
            && At(m.fetch, g1.exit, Code(Latter(n, back), LatterBase(n, base, back), back, d, true))
  {
    hide Code, Writes, WellFormed, Regs, Groups, SizeAll, Linear, SlotsAgree, Apart, Clear, At, Former, Latter,
         FormerBase, LatterBase, Untouched, ValidSt, Fits;
    WritesOfCat(n, base, back, stale);
    CatBases(n, base, back);
    CatPlaced(m.fetch, n, base, back, d, pc);
    UntouchedItself(words, m.ngroups, base, base + Groups(n), d);
  }

  lemma CatBases(n: Node, base: nat, back: bool)
    requires n.Cat?
    ensures base <= FormerBase(n, base, back) && FormerBase(n, base, back) + Groups(Former(n, back)) <= base + Groups(n)
    ensures base <= LatterBase(n, base, back) && LatterBase(n, base, back) + Groups(Latter(n, back)) <= base + Groups(n)
  {
  }

  lemma {:induction false} CatCase(m: Machine, n: Node, base: nat, back: bool, d: nat, pc: nat, x: St, words: Words,
                                   open: set<nat>, stale: set<nat>, stk: Stack)
    requires n.Cat? && Ready(m, n, base, back, d, x, words, open, stale)
    requires At(m.fetch, pc, Code(n, base, back, d, true))
    ensures Yields(m, Run(pc, x.pos, words, stk), NodeGoal(n, base, back, d, pc, words, open, stale),
                   Match(m.inp, n, base, back, x), stk)
    decreases n, 8
  {
    hide Code, Match, WellFormed, Regs;
    CatReady(m, n, base, back, d, x, words, open, stale);
    CatPlaced(m.fetch, n, base, back, d, pc);
    CatGoals(m, n, base, back, d, pc, x, words, open, stale);
    CatMatch(m.inp, n, base, back, x);
    CatRun(m, n, Former(n, back), FormerBase(n, base, back), Latter(n, back), LatterBase(n, base, back), back, d, pc,
           x, words,
           HalfGoal(n, base, back, d, pc, words, open, stale), NodeGoal(n, base, back, d, pc, words, open, stale),
             stale, stk);
  }

  // ----- alternatives -------------------------------------------------------

  /** Every outcome takes the jump at the exit. */
  lemma {:induction false} GotoEach(m: Machine, s: State, g1: Goal, g2: Goal, off: int, ys: seq<St>, stk: Stack)
    requires Yields(m, s, g1, ys, stk)
    requires m.fetch(g1.exit) == Some(IGoto(off)) && g2.exit == g1.exit + 5 + off
    requires g2 == g1.(exit := g2.exit)
    ensures Yields(m, s, g2, ys, stk)
    decreases |ys|
  {
    if ys == [] {
      YieldsNone(m, s, g2, stk);
    } else {
      var w, t :| YieldsAs(m, s, g1, ys, stk, w, t);
      var y := ys[0];
      OneStep(m, g1.exit, IGoto(off), y.pos, w, stk + t, Run(g2.exit, y.pos, w, stk + t));
      ReachesTrans(m, s, Run(g1.exit, y.pos, w, stk + t), Run(g2.exit, y.pos, w, stk + t));
      GotoEach(m, State.Back(stk + t), g1, g2, off, ys[1..], stk);
      YieldsFirst(m, s, g2, y, w, t, ys[1..], stk);
      assert [y] + ys[1..] == ys;
    }
  }

  lemma AltReady(m: Machine, n: Node, base: nat, back: bool, d: nat, x: St, words: Words, open: set<nat>)
    requires n.Alt? && Ready(m, n, base, back, d, x, words, open, {})
    ensures Ready(m, n.left, base, back, d, x, words, open, {})
    ensures Ready(m, n.right, base + Groups(n.left), back, d, x, words, open, {})
  {
  }

  /** A fork with both branches known. */
  lemma ForkRun(m: Machine, pc: nat, i: Instr, x: St, words: Words, g: Goal, ys: seq<St>, zs: seq<St>, stk: Stack,
                s1: State, f: Frame)
    requires m.fetch(pc) == Some(i) && x.pos <= |m.inp.units| && f.kind == KSplit
    requires Exec(m, i, pc + Size(i), x.pos, words, stk) == s1
    requires Yields(m, s1, g, ys, stk + [f]) && Yields(m, Run(f.pc, f.pos, f.words, stk), g, zs, stk)
    ensures Yields(m, Run(pc, x.pos, words, stk), g, ys + zs, stk)
  {
    OneStep(m, pc, i, x.pos, words, stk, s1);
    PopStep(m, stk, f);
    YieldsReach(m, State.Back(stk + [f]), Run(f.pc, f.pos, f.words, stk), g, zs, stk);
    Chain(m, Run(pc, x.pos, words, stk), s1, g, ys, zs, stk, [f]);
  }

  /** Both branches of an alternative and the two jumps around them. */
  ghost predicate AltPlaced(m: Machine, a: Node, b: Node, base: nat, base2: nat, back: bool, d: nat, pc: nat,
                            words: Words, g: Goal) {
    var ca, cb := Code(a, base, back, d, true), Code(b, base2, back, d, true);
    var e := pc + 5 + SizeAll(ca);
    && m.fetch(pc) == Some(ISplit(true, SizeAll(ca) + 5)) && At(m.fetch, pc + 5, ca)
    && m.fetch(e) == Some(IGoto(SizeAll(cb))) && At(m.fetch, e + 5, cb)
    && g.exit == e + 5 + SizeAll(cb)
    && Covers(m, g.(exit := e), a, base, back, d, pc + 5, words, {})
    && Covers(m, g, b, base2, back, d, e + 5, words, {})
  }

  lemma AltGoals(m: Machine, n: Node, base: nat, back: bool, d: nat, pc: nat, words: Words, open: set<nat>)
    requires n.Alt? && At(m.fetch, pc, Code(n, base, back, d, true))
    ensures AltPlaced(m, n.left, n.right, base, base + Groups(n.left), back, d, pc, words,
                      PlainGoal(n, base, back, d, pc, words, open))
  {
    hide Code, Writes, At, SizeAll, Untouched;
    var base2 := base + Groups(n.left);
    var ca, cb := Code(n.left, base, back, d, true), Code(n.right, base2, back, d, true);
    CodeOfAlt(n, base, back, d, true);
    AtAlternative(m.fetch, pc, ca, cb);
    NothingLess(Writes(n.left, base));
    NothingLess(Writes(n.right, base2));
    UntouchedItself(words, m.ngroups, base, base + Groups(n), d);
  }

  lemma NothingLess(s: set<nat>)
    ensures {} - s == {}
  {
  }

  lemma UntouchedItself(words: Words, ngroups: nat, lo: nat, hi: nat, d: nat)
    ensures Untouched(words, words, ngroups, lo, hi, d)
  {
  }

  lemma {:induction false} AltCase(m: Machine, n: Node, base: nat, back: bool, d: nat, pc: nat, x: St, words: Words,
                                   open: set<nat>, stk: Stack)
    requires n.Alt? && Ready(m, n, base, back, d, x, words, open, {})
    requires At(m.fetch, pc, Code(n, base, back, d, true))
    ensures Yields(m, Run(pc, x.pos, words, stk), PlainGoal(n, base, back, d, pc, words, open),
                   Match(m.inp, n, base, back, x), stk)
    decreases n, 8
  {
    hide Code, Match, WellFormed, Regs;
    AltReady(m, n, base, back, d, x, words, open);
    AltGoals(m, n, base, back, d, pc, words, open);
    AltOutcomes(m.inp, n, base, back, x);
    AltBoth(m, n, n.left, n.right, base, base + Groups(n.left), back, d, pc, x, words,
            PlainGoal(n, base, back, d, pc, words, open), stk);
  }

  lemma {:induction false} AltBoth(m: Machine, n: Node, a: Node, b: Node, base: nat, base2: nat, back: bool, d: nat,
                                   pc: nat, x: St, words: Words, g: Goal, stk: Stack)
    requires a < n && b < n
    requires Ready(m, a, base, back, d, x, words, g.open, {}) && Ready(m, b, base2, back, d, x, words, g.open, {})
    requires AltPlaced(m, a, b, base, base2, back, d, pc, words, g)
    ensures Yields(m, Run(pc, x.pos, words, stk), g, Match(m.inp, a, base, back, x) + Match(m.inp, b, base2, back, x),
                   stk)
    decreases n, 7
  {
    hide Code, Match, WellFormed, Regs, Groups, Writes, Linear, SizeAll, Yields, SlotsAgree, Apart, Clear, At;
    var la := SizeAll(Code(a, base, back, d, true));
    var f := Frame(pc + 10 + la, x.pos, words, KSplit);
    AltLeft(m, a, base, back, d, pc + 5, x, words, stk + [f], g, SizeAll(Code(b, base2, back, d, true)));
    CorrectTo(m, b, base2, back, d, f.pc, x, words, {}, g, stk);
    AltRun(m, pc, la + 5, x, words, g, Match(m.inp, a, base, back, x), Match(m.inp, b, base2, back, x), stk, f);
  }

  lemma AltRun(m: Machine, pc: nat, off: nat, x: St, words: Words, g: Goal, ys: seq<St>, zs: seq<St>, stk: Stack,
               f: Frame)
    requires m.fetch(pc) == Some(ISplit(true, off)) && x.pos <= |m.inp.units|
    requires f == Frame(pc + 5 + off, x.pos, words, KSplit)
    requires Yields(m, Run(pc + 5, x.pos, words, stk + [f]), g, ys, stk + [f])
    requires Yields(m, Run(f.pc, x.pos, words, stk), g, zs, stk)
    ensures Yields(m, Run(pc, x.pos, words, stk), g, ys + zs, stk)
  {
    ForkRun(m, pc, ISplit(true, off), x, words, g, ys, zs, stk, Run(pc + 5, x.pos, words, stk + [f]), f);
  }

  lemma {:induction false} AltLeft(m: Machine, a: Node, base: nat, back: bool, d: nat, pc: nat, x: St, words: Words,
                                   stk: Stack, g: Goal, off: nat)
    requires Ready(m, a, base, back, d, x, words, g.open, {})
    requires At(m.fetch, pc, Code(a, base, back, d, true))
    requires var e := pc + SizeAll(Code(a, base, back, d, true));
             m.fetch(e) == Some(IGoto(off)) && g.exit == e + 5 + off
               && Covers(m, g.(exit := e), a, base, back, d, pc, words, {})
    ensures Yields(m, Run(pc, x.pos, words, stk), g, Match(m.inp, a, base, back, x), stk)
    decreases a, 11
  {
    hide Code, Match, WellFormed, Regs;
    var g1 := g.(exit := pc + SizeAll(Code(a, base, back, d, true)));
    CorrectTo(m, a, base, back, d, pc, x, words, {}, g1, stk);
    GotoEach(m, Run(pc, x.pos, words, stk), g1, g, off, Match(m.inp, a, base, back, x), stk);
  }

  // ----- groups -------------------------------------------------------------

  function SlotIndex(g: nat, end: bool): nat {
    2 * g + if end then 1 else 0
  }

  lemma {:induction false} CloseStep(m: Machine, g1: Goal, g2: Goal, g: nat, back: bool, x: St, y: St, w: Words)
    requires Arrives(m, g1, y, w) && Ordered(back, x.pos, y.pos) && ValidSt(m.inp, x)
    requires g < m.ngroups && g !in g2.open && g1.open == g2.open + {g} && g2.stale == g1.stale - {g}
    requires g1.lo == g + 1 && g2.lo == g && g1.hi == g2.hi && g1.d == g2.d && g < g2.hi
    requires |g2.words0| == |g1.words0| && g1.words0 == g2.words0[SlotIndex(g, back) := Pos(x.pos)]
    requires 2 * m.ngroups <= |g1.words0|
    ensures Arrives(m, g2, y.(caps := y.caps[g := Some(SpanOf(back, x.pos, y.pos))]),
                    w[SlotIndex(g, !back) := Pos(y.pos)])
  {
    var w1 := w[SlotIndex(g, !back) := Pos(y.pos)];
    var y1 := y.(caps := y.caps[g := Some(SpanOf(back, x.pos, y.pos))]);
    assert w[SlotIndex(g, back)] == g1.words0[SlotIndex(g, back)];
    forall h | 0 <= h < |y1.caps| && h !in g2.stale
      ensures if h in g2.open then y1.caps[h] == None && !(w1[2 * h].Pos? && w1[2 * h + 1].Pos?)
              else SlotMatches(w1[2 * h], w1[2 * h + 1], y1.caps[h])
    {
      if h != g { assert y.caps[h] == y1.caps[h]; }
    }
  }

  /** Every outcome of the body closes the group. */
  lemma {:induction false} SaveEach(m: Machine, s: State, g1: Goal, g2: Goal, g: nat, back: bool, x: St, ys: seq<St>,
                                    stk: Stack)
    requires Yields(m, s, g1, ys, stk) && ValidSt(m.inp, x) && |x.caps| == m.ngroups && AllFollow(m.inp, back, x, ys)
    requires m.fetch(g1.exit) == Some(ISave(!back, g)) && g2.exit == g1.exit + 2
    requires g < m.ngroups && g !in g2.open && g1.open == g2.open + {g} && g2.stale == g1.stale - {g}
    requires g1.lo == g + 1 && g2.lo == g && g1.hi == g2.hi && g1.d == g2.d && g < g2.hi
    requires |g2.words0| == |g1.words0| && 2 * m.ngroups <= |g1.words0|
    requires g1.words0 == g2.words0[SlotIndex(g, back) := Pos(x.pos)]
    ensures Yields(m, s, g2, CloseEach(m.inp, g, back, x, ys), stk)
    decreases |ys|
  {
    if ys == [] {
      YieldsNone(m, s, g2, stk);
    } else {
      var w, t :| YieldsAs(m, s, g1, ys, stk, w, t);
      var y := ys[0];
      assert Follows(m.inp, back, x, y);
      var w1 := w[SlotIndex(g, !back) := Pos(y.pos)];
      var y1 := y.(caps := y.caps[g := Some(SpanOf(back, x.pos, y.pos))]);
      CloseStep(m, g1, g2, g, back, x, y, w);
      OneStep(m, g1.exit, ISave(!back, g), y.pos, w, stk + t, Run(g2.exit, y.pos, w1, stk + t));
      ReachesTrans(m, s, Run(g1.exit, y.pos, w, stk + t), Run(g2.exit, y.pos, w1, stk + t));
      SaveEach(m, State.Back(stk + t), g1, g2, g, back, x, ys[1..], stk);
      YieldsFirst(m, s, g2, y1, w1, t, CloseEach(m.inp, g, back, x, ys[1..]), stk);
    }
  }

  lemma OpenGroup(m: Machine, g: nat, back: bool, x: St, words: Words, open: set<nat>, stale: set<nat>)
    requires Shows(m, words, x, open, stale) && g < m.ngroups && g !in open && x.caps[g] == None
    ensures Shows(m, words[SlotIndex(g, back) := Pos(x.pos)], x, open + {g}, stale)
  {
    var w := words[SlotIndex(g, back) := Pos(x.pos)];
    forall h | 0 <= h < |x.caps| && h !in stale
      ensures if h in open + {g} then x.caps[h] == None && !(w[2 * h].Pos? && w[2 * h + 1].Pos?)
              else SlotMatches(w[2 * h], w[2 * h + 1], x.caps[h])
    {
      if h != g { assert w[2 * h] == words[2 * h] && w[2 * h + 1] == words[2 * h + 1]; }
    }
  }

  lemma GroupReady(m: Machine, n: Node, base: nat, back: bool, d: nat, x: St, words: Words, open: set<nat>,
                   stale: set<nat>)
    requires n.Group? && Ready(m, n, base, back, d, x, words, open, stale)
    ensures x.caps[base] == None && base !in open && base < m.ngroups
    ensures Ready(m, n.body, base + 1, back, d, x, words[SlotIndex(base, back) := Pos(x.pos)], open + {base}, stale)
  {
    assert x.caps[base] == None && base !in open;
    OpenGroup(m, base, back, x, words, open, stale);
  }

  lemma GroupPlaced(fetch: Fetch, n: Node, base: nat, back: bool, d: nat, pc: nat)
    requires n.Group? && At(fetch, pc, Code(n, base, back, d, true))
    ensures var cb := Code(n.body, base + 1, back, d, true);
            && fetch(pc) == Some(ISave(back, base)) && At(fetch, pc + 2, cb)
            && fetch(pc + 2 + SizeAll(cb)) == Some(ISave(!back, base))
            && SizeAll(Code(n, base, back, d, true)) == 4 + SizeAll(cb)
  {
    hide Code;
    var cb := Code(n.body, base + 1, back, d, true);
    CodeOfGroup(n, base, back, d, true);
    AtBracket(fetch, pc, ISave(back, base), cb, ISave(!back, base));
  }

  lemma {:induction false} GroupCase(m: Machine, n: Node, base: nat, back: bool, d: nat, pc: nat, x: St, words: Words,
                                     open: set<nat>, stale: set<nat>, stk: Stack)
    requires n.Group? && Ready(m, n, base, back, d, x, words, open, stale)
    requires At(m.fetch, pc, Code(n, base, back, d, true))
    ensures Yields(m, Run(pc, x.pos, words, stk), NodeGoal(n, base, back, d, pc, words, open, stale),
                   Match(m.inp, n, base, back, x), stk)
    decreases n, 8
  {
    hide Code, Match, WellFormed, Regs;
    GroupPlaced(m.fetch, n, base, back, d, pc);
    GroupReady(m, n, base, back, d, x, words, open, stale);
    var words1, open1 := words[SlotIndex(base, back) := Pos(x.pos)], open + {base};
    var s, s1 := Run(pc, x.pos, words, stk), Run(pc + 2, x.pos, words1, stk);
    OneStep(m, pc, ISave(back, base), x.pos, words, stk, s1);
    Correct(m, n.body, base + 1, back, d, pc + 2, x, words1, open1, stale, stk);
    GroupRun(m, n, base, back, d, pc, x, words, open, stale, stk);
    YieldsReach(m, s, s1, NodeGoal(n, base, back, d, pc, words, open, stale), Match(m.inp, n, base, back, x), stk);
  }

  lemma {:induction false} GroupRun(m: Machine, n: Node, base: nat, back: bool, d: nat, pc: nat, x: St, words: Words,
                                    open: set<nat>, stale: set<nat>, stk: Stack)
    requires n.Group? && Shows(m, words, x, open, stale) && base + Groups(n) <= m.ngroups && base !in open
    requires var words1, open1 := words[SlotIndex(base, back) := Pos(x.pos)], open + {base};
             Yields(m, Run(pc + 2, x.pos, words1, stk),
                    NodeGoal(n.body, base + 1, back, d, pc + 2, words1, open1, stale),
                    Match(m.inp, n.body, base + 1, back, x), stk)
    requires var cb := Code(n.body, base + 1, back, d, true);
             m.fetch(pc + 2 + SizeAll(cb)) == Some(ISave(!back, base))
               && SizeAll(Code(n, base, back, d, true)) == 4 + SizeAll(cb)
    ensures Yields(m, Run(pc + 2, x.pos, words[SlotIndex(base, back) := Pos(x.pos)], stk),
                   NodeGoal(n, base, back, d, pc, words, open, stale), Match(m.inp, n, base, back, x), stk)
  {
    var words1, open1 := words[SlotIndex(base, back) := Pos(x.pos)], open + {base};
    var g1 := NodeGoal(n.body, base + 1, back, d, pc + 2, words1, open1, stale);
    var g2 := NodeGoal(n, base, back, d, pc, words, open, stale);
    assert g1.stale - {base} == g2.stale;
    var ys := Match(m.inp, n.body, base + 1, back, x);
    SaveEach(m, Run(pc + 2, x.pos, words1, stk), g1, g2, base, back, x, ys, stk);
  }

  // ----- lookaround ---------------------------------------------------------

  lemma {:induction false} InnermostSkips(stk: Stack, f: Frame, t: Stack)
    requires AllSplit(t) && f.kind != KSplit
    ensures Innermost(stk + [f] + t, f.kind) == Some(|stk|)
    decreases |t|
  {
    var all := stk + [f] + t;
    if t != [] {
      assert all[..|all| - 1] == stk + [f] + t[..|t| - 1];
      InnermostSkips(stk, f, t[..|t| - 1]);
    }
  }

  lemma LookMatchStep(m: Machine, negative: bool, pc: nat, pos: nat, words: Words, stk: Stack, f: Frame, t: Stack)
    requires AllSplit(t) && f.kind == (if negative then KNegLook else KLook) && pos <= |m.inp.units|
    requires m.fetch(pc) == Some(ILookMatch(negative))
    ensures Reaches(m, Run(pc, pos, words, stk + [f] + t),
                    if negative then State.Back(stk) else Run(f.pc, f.pos, words, stk))
  {
    InnermostSkips(stk, f, t);
    var all := stk + [f] + t;
    assert all[..|stk|] == stk && all[|stk|] == f;
    OneStep(m, pc, ILookMatch(negative), pos, words, all,
            if negative then State.Back(stk) else Run(f.pc, f.pos, words, stk));
  }

  /** From the outcomes of the body to those of the assertion. */
  lemma {:induction false} LookOutcome(m: Machine, s1: State, g1: Goal, g: Goal, negative: bool, x: St, words: Words,
                                       ys: seq<St>, stk: Stack, f: Frame)
    requires Yields(m, s1, g1, ys, stk + [f])
    requires f == Frame(g.exit, x.pos, words, if negative then KNegLook else KLook)
    requires m.fetch(g1.exit) == Some(ILookMatch(negative))
    requires Shows(m, words, x, g.open, g.stale) && g.words0 == words && g1 == g.(exit := g1.exit)
    ensures Yields(m, s1, g, Looked(negative, x, ys), stk)
  {
    if ys == [] {
      if negative {
        PopStep(m, stk, f);
        ReachesTrans(m, s1, State.Back(stk + [f]), Run(g.exit, x.pos, words, stk));
        YieldsOne(m, s1, g, x, words, stk);
      } else {
        PopLook(m, stk, f);
        ReachesTrans(m, s1, State.Back(stk + [f]), State.Back(stk));
        YieldsNone(m, s1, g, stk);
      }
    } else {
      var w, t :| YieldsAs(m, s1, g1, ys, stk + [f], w, t);
      LookMatchStep(m, negative, g1.exit, ys[0].pos, w, stk, f, t);
      var s2 := if negative then State.Back(stk) else Run(f.pc, f.pos, w, stk);
      ReachesTrans(m, s1, Run(g1.exit, ys[0].pos, w, stk + [f] + t), s2);
      if negative {
        YieldsNone(m, s1, g, stk);
      } else {
        YieldsOne(m, s1, g, x.(caps := ys[0].caps), w, stk);
      }
    }
  }

  lemma LookReady(m: Machine, n: Node, base: nat, back: bool, d: nat, x: St, words: Words, open: set<nat>)
    requires n.Look? && Ready(m, n, base, back, d, x, words, open, {})
    ensures Ready(m, n.body, base, n.behind, d, x, words, open, {})
  {
  }

  ghost predicate LookPlaced(m: Machine, n: Node, base: nat, d: nat, pc: nat, words: Words, g: Goal)
    requires n.Look?
  {
    var cb := Code(n.body, base, n.behind, d, true);
    var e := pc + 5 + SizeAll(cb);
    && m.fetch(pc) == Some(ILook(n.negative, SizeAll(cb) + 1)) && At(m.fetch, pc + 5, cb)
    && m.fetch(e) == Some(ILookMatch(n.negative)) && g.exit == e + 1
    && Covers(m, g.(exit := e), n.body, base, n.behind, d, pc + 5, words, {})
  }

  lemma LookGoals(m: Machine, n: Node, base: nat, back: bool, d: nat, pc: nat, words: Words, open: set<nat>)
    requires n.Look? && At(m.fetch, pc, Code(n, base, back, d, true))
    ensures LookPlaced(m, n, base, d, pc, words, PlainGoal(n, base, back, d, pc, words, open))
  {
    hide Code, Writes;
    var cb := Code(n.body, base, n.behind, d, true);
    CodeOfLook(n, base, back, d, true);
    AtBracket(m.fetch, pc, ILook(n.negative, SizeAll(cb) + 1), cb, ILookMatch(n.negative));
    assert {} == {} - Writes(n.body, base);
  }

  function Looked(negative: bool, x: St, ys: seq<St>): seq<St> {
    if negative then (if ys == [] then [x] else [])
    else if ys == [] then [] else [x.(caps := ys[0].caps)]
  }

  lemma LookMatch(inp: Input, n: Node, base: nat, back: bool, x: St)
    requires n.Look? && ValidSt(inp, x) && base + Groups(n) <= |x.caps|
    ensures Match(inp, n, base, back, x) == Looked(n.negative, x, Match(inp, n.body, base, n.behind, x))
  {
  }

  lemma {:induction false} LookCase(m: Machine, n: Node, base: nat, back: bool, d: nat, pc: nat, x: St, words: Words,
                                    open: set<nat>, stk: Stack)
    requires n.Look? && Ready(m, n, base, back, d, x, words, open, {})
    requires At(m.fetch, pc, Code(n, base, back, d, true))
    ensures Yields(m, Run(pc, x.pos, words, stk), PlainGoal(n, base, back, d, pc, words, open),
                   Match(m.inp, n, base, back, x), stk)
    decreases n, 8
  {
    hide Code, Match, WellFormed, Regs;
    LookReady(m, n, base, back, d, x, words, open);
    LookGoals(m, n, base, back, d, pc, words, open);
    LookMatch(m.inp, n, base, back, x);
    LookRun(m, n, base, d, pc, x, words, PlainGoal(n, base, back, d, pc, words, open), stk);
  }

  lemma {:induction false} LookRun(m: Machine, n: Node, base: nat, d: nat, pc: nat, x: St, words: Words, g: Goal,
                                   stk: Stack)
    requires n.Look? && Ready(m, n.body, base, n.behind, d, x, words, g.open, {})
    requires LookPlaced(m, n, base, d, pc, words, g) && g.stale == {} && g.words0 == words
    ensures Yields(m, Run(pc, x.pos, words, stk), g, Looked(n.negative, x, Match(m.inp, n.body, base, n.behind, x)),
                   stk)
    decreases n, 7
  {
    hide Code, Match, WellFormed, Regs;
    var lb := SizeAll(Code(n.body, base, n.behind, d, true));
    var f := Frame(g.exit, x.pos, words, if n.negative then KNegLook else KLook);
    var s, s1, g1 := Run(pc, x.pos, words, stk), Run(pc + 5, x.pos, words, stk + [f]), g.(exit := pc + 5 + lb);
    OneStep(m, pc, ILook(n.negative, lb + 1), x.pos, words, stk, s1);
    CorrectTo(m, n.body, base, n.behind, d, pc + 5, x, words, {}, g1, stk + [f]);
    var ys := Match(m.inp, n.body, base, n.behind, x);
    LookOutcome(m, s1, g1, g, n.negative, x, words, ys, stk, f);
    YieldsReach(m, s, s1, g, Looked(n.negative, x, ys), stk);
  }

  // ----- leaves and the main theorem ----------------------------------------

  lemma RefCase(m: Machine, n: Node, base: nat, back: bool, d: nat, pc: nat, x: St, words: Words, open: set<nat>,
                stk: Stack)
    requires n.BackRef? && Ready(m, n, base, back, d, x, words, open, {})
    requires At(m.fetch, pc, Code(n, base, back, d, true))
    ensures Yields(m, Run(pc, x.pos, words, stk), NodeGoal(n, base, back, d, pc, words, open, {}),
                   Match(m.inp, n, base, back, x), stk)
  {
    NothingStale(n, base, back, d, pc, words, open);
    AtOne(m.fetch, pc, IBackRef(back, n.groups));
    RefStep(m, back, n.groups, pc, x, words, PlainGoal(n, base, back, d, pc, words, open), stk);
  }

  lemma AssertCase(m: Machine, n: Node, base: nat, back: bool, d: nat, pc: nat, x: St, words: Words,
                   open: set<nat>, stale: set<nat>, stk: Stack)
    requires n.Assert? && Ready(m, n, base, back, d, x, words, open, stale)
    requires At(m.fetch, pc, Code(n, base, back, d, true))
    ensures Yields(m, Run(pc, x.pos, words, stk), NodeGoal(n, base, back, d, pc, words, open, stale),
                   Match(m.inp, n, base, back, x), stk)
  {
    var s, g := Run(pc, x.pos, words, stk), NodeGoal(n, base, back, d, pc, words, open, stale);
    var i := IAssert(n.kind);
    AtOne(m.fetch, pc, i);
    assert stale - Writes(n, base) == stale;
    OneStep(m, pc, i, x.pos, words, stk, Exec(m, i, pc + 1, x.pos, words, stk));
    if Holds(m.inp, n.kind, x.pos) {
      YieldsOne(m, s, g, x, words, stk);
    } else {
      YieldsNone(m, s, g, stk);
    }
  }

  lemma CharCase(m: Machine, n: Node, base: nat, back: bool, d: nat, pc: nat, x: St, words: Words,
                 open: set<nat>, stale: set<nat>, stk: Stack)
    requires IsCharTest(n) && Ready(m, n, base, back, d, x, words, open, stale)
    requires At(m.fetch, pc, Code(n, base, back, d, true))
    ensures Yields(m, Run(pc, x.pos, words, stk), NodeGoal(n, base, back, d, pc, words, open, stale),
                   Match(m.inp, n, base, back, x), stk)
  {
    var g, i := NodeGoal(n, base, back, d, pc, words, open, stale), CharInstr(n);
    assert stale - Writes(n, base) == stale;
    if back {
      AtSnoc(m.fetch, pc, [IPrev] + [i], IPrev);
      AtCons(m.fetch, pc, IPrev, [i]);
      AtOne(m.fetch, pc + 1, i);
      CharBackward(m, n, pc, x, words, g, stk);
    } else {
      AtOne(m.fetch, pc, i);
      CharForward(m, n, pc, x, words, g, stk);
    }
  }

  /** The code of `n`, entered with a capture array that represents `x`,
      delivers the outcomes of `n` at `x`: all of them, in order, each with a
      capture array that represents it and with everything outside the node
      untouched; and then it gives up on the stack it was entered with. In
      particular it always terminates. */
  lemma {:induction false} Correct(m: Machine, n: Node, base: nat, back: bool, d: nat, pc: nat, x: St, words: Words,
                                   open: set<nat>, stale: set<nat>, stk: Stack)
    requires Ready(m, n, base, back, d, x, words, open, stale)
    requires At(m.fetch, pc, Code(n, base, back, d, true))
    ensures Yields(m, Run(pc, x.pos, words, stk), NodeGoal(n, base, back, d, pc, words, open, stale),
                   Match(m.inp, n, base, back, x), stk)
    decreases n, 9
  {
    hide Code, Match, WellFormed, Regs;
    match n
    case Cat(_, _) => CatCase(m, n, base, back, d, pc, x, words, open, stale, stk);
    case Alt(_, _) =>
      NothingStale(n, base, back, d, pc, words, open);
      AltCase(m, n, base, back, d, pc, x, words, open, stk);
    case Group(_) => GroupCase(m, n, base, back, d, pc, x, words, open, stale, stk);
    case Look(_, _, _) =>
      NothingStale(n, base, back, d, pc, words, open);
      LookCase(m, n, base, back, d, pc, x, words, open, stk);
    case Quant(_, _, _, _) => QuantCase(m, n, base, back, d, pc, x, words, open, stale, stk);
    case Empty => EmptyCase(m, n, base, back, d, pc, x, words, open, stale, stk);
    case BackRef(_) => RefCase(m, n, base, back, d, pc, x, words, open, stk);
    case Assert(_) => AssertCase(m, n, base, back, d, pc, x, words, open, stale, stk);
    case _ => CharCase(m, n, base, back, d, pc, x, words, open, stale, stk);
  }

  lemma EmptyCase(m: Machine, n: Node, base: nat, back: bool, d: nat, pc: nat, x: St, words: Words,
                  open: set<nat>, stale: set<nat>, stk: Stack)
    requires n == Empty && Ready(m, n, base, back, d, x, words, open, stale)
    ensures Yields(m, Run(pc, x.pos, words, stk), NodeGoal(n, base, back, d, pc, words, open, stale),
                   Match(m.inp, n, base, back, x), stk)
  {
    var s, g := Run(pc, x.pos, words, stk), NodeGoal(n, base, back, d, pc, words, open, stale);
    assert stale - Writes(n, base) == stale;
    ReachesSelf(m, s);
    YieldsOne(m, s, g, x, words, stk);
  }

  // ----- the atom of a quantifier -------------------------------------------

  /** The static part of a loop. */
  datatype Loop = Loop(b: Node, base: nat, back: bool, greedy: bool, d: nat, open: set<nat>)

  /** A straight-line atom never writes these groups, so they must be unset. */
  ghost predicate Dead(b: Node, base: nat, x: St) {
    Linear(b) ==>
      forall g {:trigger x.caps[g]} ::
        base <= g < base + Groups(b) && g < |x.caps| && g !in Writes(b, base) ==> x.caps[g] == None
  }

  /** What holds each time control comes to the loop; `used` registers belong to it. */
  ghost predicate InLoop(m: Machine, q: Loop, used: nat, x: St, words: Words) {
    && Fits(m, q.b, q.base, q.back, q.d + used, words)
    && Shows(m, words, x, q.open, {})
    && Apart(q.open, q.base, Groups(q.b))
    && Dead(q.b, q.base, x)
  }

  lemma InLoopFacts(m: Machine, q: Loop, used: nat, x: St, words: Words)
    requires InLoop(m, q, used, x, words)
    ensures ValidSt(m.inp, x) && |x.caps| == m.ngroups && q.base + Groups(q.b) <= |x.caps|
  {
    hide WellFormed, Regs, Linear, Groups, SlotsAgree, Writes;
  }

  /** `g` accepts everything the loop may have changed on the way from
      `g.words0` to `words` and later. */
  ghost predicate LoopGoal(m: Machine, q: Loop, g: Goal, words: Words) {
    && g.open == q.open && g.stale == {} && g.d <= q.d
    && g.lo <= q.base && q.base + Groups(q.b) <= g.hi
    && Untouched(g.words0, words, m.ngroups, g.lo, g.hi, g.d)
  }

  ghost function AtomCode(q: Loop, used: nat): seq<Instr> {
    LoopAtom(q.b, q.base, q.back, q.d + used, true)
  }

  ghost function AtomGoal(q: Loop, used: nat, pc: nat, words: Words): Goal {
    Goal(pc + SizeAll(AtomCode(q, used)), q.open, {}, words, q.base, q.base + Groups(q.b), q.d + used)
  }

  ghost function PassOutcomes(inp: Input, q: Loop, x: St): seq<St>
    requires ValidSt(inp, x) && q.base + Groups(q.b) <= |x.caps|
  {
    Match(inp, q.b, q.base, q.back, Reset(x, q.base, Groups(q.b)))
  }

  /** A state that one pass through the atom may lead to. */
  ghost predicate Passed(inp: Input, q: Loop, x: St, y: St) {
    && Follows(inp, q.back, x, y)
    && Dead(q.b, q.base, y)
    && (Advances(q.b, q.back) ==> y.pos != x.pos)
  }

  ghost predicate AllPassed(inp: Input, q: Loop, x: St, ys: seq<St>) {
    forall i :: 0 <= i < |ys| ==> Passed(inp, q, x, ys[i])
  }

  lemma PassFacts(inp: Input, q: Loop, x: St)
    requires ValidSt(inp, x) && q.base + Groups(q.b) <= |x.caps|
    ensures AllFollow(inp, q.back, x, PassOutcomes(inp, q, x))
    ensures AllPassed(inp, q, x, PassOutcomes(inp, q, x))
  {
    hide Match;
    var x0, ys := Reset(x, q.base, Groups(q.b)), PassOutcomes(inp, q, x);
    if Advances(q.b, q.back) {
      AdvancesMoves(inp, q.b, q.base, q.back, x0);
    }
    if Linear(q.b) {
      LinearTouches(inp, q.b, q.base, q.back, x0, Writes(q.b, q.base));
    }
    forall i | 0 <= i < |ys|
      ensures Follows(inp, q.back, x, ys[i]) && Passed(inp, q, x, ys[i])
    {
      assert Follows(inp, q.back, x0, ys[i]);
      if Linear(q.b) { assert SameExcept(x0, ys[i], Writes(q.b, q.base)); }
    }
  }

  lemma LinearAtom(m: Machine, q: Loop, used: nat, x: St, words: Words)
    requires InLoop(m, q, used, x, words) && Linear(q.b)
    ensures AtomCode(q, used) == Code(q.b, q.base, q.back, q.d + used, true)
    ensures Ready(m, q.b, q.base, q.back, q.d + used, Reset(x, q.base, Groups(q.b)), words, q.open, Writes(q.b, q.base))
  {
    hide Code, WellFormed, Regs, Writes, Linear;
    var x0 := Reset(x, q.base, Groups(q.b));
    forall g | 0 <= g < |x0.caps| && g !in Writes(q.b, q.base)
      ensures if g in q.open then x0.caps[g] == None && !(words[2 * g].Pos? && words[2 * g + 1].Pos?)
              else SlotMatches(words[2 * g], words[2 * g + 1], x0.caps[g])
    {
      assert x.caps[g] == x0.caps[g];
    }
  }

  lemma PlainAtom(m: Machine, q: Loop, used: nat, x: St, words: Words)
    requires InLoop(m, q, used, x, words) && !Linear(q.b) && Groups(q.b) == 0
    ensures AtomCode(q, used) == Code(q.b, q.base, q.back, q.d + used, true)
    ensures Reset(x, q.base, Groups(q.b)) == x
    ensures Ready(m, q.b, q.base, q.back, q.d + used, x, words, q.open, {})
  {
    hide Code, WellFormed, Regs, Linear;
    assert ResetCaps(x.caps, q.base, 0) == x.caps;
  }

  lemma ResettingAtom(m: Machine, q: Loop, used: nat, x: St, words: Words)
    requires InLoop(m, q, used, x, words) && !Linear(q.b) && Groups(q.b) > 0
    ensures AtomCode(q, used) == [IReset(q.base, q.base + Groups(q.b) - 1)]
            + Code(q.b, q.base, q.back, q.d + used, true)
    ensures var words1 := ResetWords(words, 2 * q.base, 2 * (q.base + Groups(q.b)));
            && Ready(m, q.b, q.base, q.back, q.d + used, Reset(x, q.base, Groups(q.b)), words1, q.open, {})
            && Untouched(words, words1, m.ngroups, q.base, q.base + Groups(q.b), q.d + used)
  {
    hide Code, WellFormed, Regs, Linear;
    var x0 := Reset(x, q.base, Groups(q.b));
    var words1 := ResetWords(words, 2 * q.base, 2 * (q.base + Groups(q.b)));
    forall g | 0 <= g < |x0.caps|
      ensures if g in q.open then x0.caps[g] == None && !(words1[2 * g].Pos? && words1[2 * g + 1].Pos?)
              else SlotMatches(words1[2 * g], words1[2 * g + 1], x0.caps[g])
    {
      assert g in q.open ==> x.caps[g] == None;
      assert !(q.base <= g < q.base + Groups(q.b)) ==> x0.caps[g] == x.caps[g];
    }
  }

  /** One pass through the atom delivers the outcomes of the body from the state
      in which its groups are unset, whether the code clears them or not. */
  lemma {:induction false} AtomRun(m: Machine, q: Loop, used: nat, pc: nat, x: St, words: Words, stk: Stack)
    requires InLoop(m, q, used, x, words) && At(m.fetch, pc, AtomCode(q, used))
    ensures Yields(m, Run(pc, x.pos, words, stk), AtomGoal(q, used, pc, words), PassOutcomes(m.inp, q, x), stk)
    decreases q.b, 12
  {
    hide Code, WellFormed, Regs, Writes, Match, Linear, Groups, SizeAll;
    var g, x0, d := AtomGoal(q, used, pc, words), Reset(x, q.base, Groups(q.b)), q.d + used;
    if Linear(q.b) {
      LinearAtom(m, q, used, x, words);
      assert Writes(q.b, q.base) - Writes(q.b, q.base) == {};
      CorrectTo(m, q.b, q.base, q.back, d, pc, x0, words, Writes(q.b, q.base), g, stk);
    } else if Groups(q.b) == 0 {
      PlainAtom(m, q, used, x, words);
      assert {} - Writes(q.b, q.base) == {};
      CorrectTo(m, q.b, q.base, q.back, d, pc, x, words, {}, g, stk);
    } else {
      ResettingAtom(m, q, used, x, words);
      var i, words1 := IReset(q.base, q.base + Groups(q.b) - 1),
        ResetWords(words, 2 * q.base, 2 * (q.base + Groups(q.b)));
      AtCons(m.fetch, pc, i, Code(q.b, q.base, q.back, d, true));
      OneStep(m, pc, i, x.pos, words, stk, Run(pc + 3, x.pos, words1, stk));
      assert {} - Writes(q.b, q.base) == {};
      CorrectTo(m, q.b, q.base, q.back, d, pc + 3, x0, words1, {}, g, stk);
      YieldsReach(m, Run(pc, x.pos, words, stk), Run(pc + 3, x.pos, words1, stk), g, PassOutcomes(m.inp, q, x), stk);
    }
  }

  /** Leaving the loop. */
  lemma Leave(m: Machine, q: Loop, x: St, words: Words, g: Goal, stk: Stack)
    requires Shows(m, words, x, q.open, {}) && LoopGoal(m, q, g, words)
    ensures Yields(m, Run(g.exit, x.pos, words, stk), g, [x], stk)
  {
    ReachesSelf(m, Run(g.exit, x.pos, words, stk));
    YieldsOne(m, Run(g.exit, x.pos, words, stk), g, x, words, stk);
  }

  /** Where a pass ends, the loop goes on. */
  lemma AfterPass(m: Machine, q: Loop, used: nat, pc: nat, x: St, y: St, words: Words, words1: Words, w: Words, g: Goal)
    requires InLoop(m, q, used, x, words) && LoopGoal(m, q, g, words)
    requires Untouched(words, words1, m.ngroups, q.base, q.base + Groups(q.b), q.d)
    requires Arrives(m, AtomGoal(q, used, pc, words1), y, w) && Passed(m.inp, q, x, y)
    ensures InLoop(m, q, used, y, w) && LoopGoal(m, q, g, w)
    ensures forall k :: 2 * m.ngroups <= k < 2 * m.ngroups + q.d + used && k < |w| ==> w[k] == words1[k]
  {
    hide WellFormed, Regs, SizeAll;
    forall k | 0 <= k < |g.words0| && k < 2 * m.ngroups + g.d && !(2 * g.lo <= k < 2 * g.hi)
      ensures w[k] == g.words0[k]
    {
      assert words1[k] == words[k];
      assert words[k] == g.words0[k];
    }
    forall k | 2 * m.ngroups <= k < 2 * m.ngroups + q.d + used && k < |w|
      ensures w[k] == words1[k]
    {
      assert !(2 * q.base <= k < 2 * (q.base + Groups(q.b)));
    }
  }

  /** Setting a register of the loop changes nothing else. */
  lemma SetRegister(m: Machine, q: Loop, used: nat, x: St, words: Words, g: Goal, r: nat, v: Word)
    requires InLoop(m, q, used, x, words) && LoopGoal(m, q, g, words) && q.d <= r < q.d + used
    ensures 2 * m.ngroups + r < |words|
    ensures var words1 := words[2 * m.ngroups + r := v];
            && InLoop(m, q, used, x, words1) && LoopGoal(m, q, g, words1)
            && Untouched(words, words1, m.ngroups, q.base, q.base + Groups(q.b), q.d)
  {
    hide WellFormed, Regs;
    var words1 := words[2 * m.ngroups + r := v];
    forall h | 0 <= h < |x.caps|
      ensures if h in q.open then x.caps[h] == None && !(words1[2 * h].Pos? && words1[2 * h + 1].Pos?)
              else SlotMatches(words1[2 * h], words1[2 * h + 1], x.caps[h])
    {
      assert words1[2 * h] == words[2 * h] && words1[2 * h + 1] == words[2 * h + 1];
    }
    forall k | 0 <= k < |g.words0| && k < 2 * m.ngroups + g.d && !(2 * g.lo <= k < 2 * g.hi)
      ensures words1[k] == g.words0[k]
    {
      assert words[k] == g.words0[k];
    }
  }

  lemma PassedTail(inp: Input, q: Loop, x: St, ys: seq<St>)
    requires AllPassed(inp, q, x, ys) && AllFollow(inp, q.back, x, ys) && ys != []
    ensures AllPassed(inp, q, x, ys[1..]) && AllFollow(inp, q.back, x, ys[1..])
    ensures Passed(inp, q, x, ys[0])
  {
    assert Passed(inp, q, x, ys[0]);
    forall i | 0 <= i < |ys[1..]|
      ensures Passed(inp, q, x, ys[1..][i]) && Follows(inp, q.back, x, ys[1..][i])
    {
      assert Passed(inp, q, x, ys[i + 1]) && Follows(inp, q.back, x, ys[i + 1]);
    }
  }

  function NextMin(min: nat): nat {
    if min == 0 then 0 else min - 1
  }

  /** What the loop goes on to do after a pass that led from `x` to `y`. */
  ghost function GoOn(inp: Input, q: Loop, min: nat, max: Bound, x: St, y: St): seq<St>
    requires Follows(inp, q.back, x, y) && q.base + Groups(q.b) <= |x.caps|
  {
    if min == 0 && y.pos == x.pos then [] else Repeat(inp, q.b, NextMin(min), Less(max), q.greedy, q.base, q.back, y)
  }

  lemma EachFirst(inp: Input, q: Loop, min: nat, max: Bound, x: St, ys: seq<St>)
    requires ValidSt(inp, x) && q.base + Groups(q.b) <= |x.caps| && AllFollow(inp, q.back, x, ys) && ys != []
    ensures AllFollow(inp, q.back, x, ys[1..]) && Follows(inp, q.back, x, ys[0])
    ensures RepeatEach(inp, q.b, min, max, q.greedy, q.base, q.back, x, ys)
         == GoOn(inp, q, min, max, x, ys[0]) + RepeatEach(inp, q.b, min, max, q.greedy, q.base, q.back, x, ys[1..])
  {
    hide Repeat, Groups;
    assert Follows(inp, q.back, x, ys[0]);
  }

  /** The first outcome of the atom and then the others. */
  lemma EachChain(m: Machine, q: Loop, min: nat, max: Bound, x: St, s: State, s1: State, ys: seq<St>, g: Goal,
                  stk: Stack, t: Stack)
    requires ValidSt(m.inp, x) && q.base + Groups(q.b) <= |x.caps| && AllFollow(m.inp, q.back, x, ys) && ys != []
    requires Follows(m.inp, q.back, x, ys[0]) && AllFollow(m.inp, q.back, x, ys[1..])
    requires Reaches(m, s, s1) && AllSplit(t)
    requires Yields(m, s1, g, GoOn(m.inp, q, min, max, x, ys[0]), stk + t)
    requires Yields(m, State.Back(stk + t), g,
                    RepeatEach(m.inp, q.b, min, max, q.greedy, q.base, q.back, x, ys[1..]), stk)
    ensures Yields(m, s, g, RepeatEach(m.inp, q.b, min, max, q.greedy, q.base, q.back, x, ys), stk)
  {
    hide GoOn, RepeatEach, Groups, ValidSt, AllFollow, Yields, Reaches;
    EachFirst(m.inp, q, min, max, x, ys);
    Chain(m, s, s1, g, GoOn(m.inp, q, min, max, x, ys[0]),
          RepeatEach(m.inp, q.b, min, max, q.greedy, q.base, q.back, x, ys[1..]), stk, t);
  }

  // ----- ? and * ------------------------------------------------------------

  function Flag(b: bool): nat {
    if b then 1 else 0
  }

  function ManyBound(many: bool): Bound {
    if many then Infinite else Finite(1)
  }

  /** The layout of the loop that starts at `pc`. */
  ghost predicate SplitPlaced(m: Machine, q: Loop, many: bool, check: bool, pc: nat, exit: nat) {
    var pca := pc + 5 + 2 * Flag(check);
    var pcc := pca + SizeAll(AtomCode(q, Flag(check)));
    && check == !Advances(q.b, q.back)
    && m.fetch(pc) == Some(ISplit(q.greedy, exit - (pc + 5)))
    && (check ==> m.fetch(pc + 5) == Some(ISetPos(q.d)))
    && At(m.fetch, pca, AtomCode(q, Flag(check)))
    && (check ==> m.fetch(pcc) == Some(ICheckAdv(q.d)))
    && (many ==> m.fetch(pcc + 2 * Flag(check)) == Some(IGoto(pc - (pcc + 2 * Flag(check) + 5))))
    && exit == pcc + 2 * Flag(check) + 5 * Flag(many)
  }

  /** At most one instruction. */
  lemma AtOptional(fetch: Fetch, pc: nat, emit: bool, i: Instr)
    ensures var code := if emit then [i] else [];
            (At(fetch, pc, code) <==> (emit ==> fetch(pc) == Some(i))) && SizeAll(code) == Size(i) * Flag(emit)
  {
    AtOne(fetch, pc, i);
  }

  /** The layout of a loop around any atom. */
  lemma SplitLayout(fetch: Fetch, pc: nat, atom: seq<Instr>, many: bool, check: bool, greedy: bool, d: nat)
    requires At(fetch, pc, SplitLoop(atom, many, check, greedy, d, true))
    ensures var pca := pc + 5 + 2 * Flag(check);
            var pcc := pca + SizeAll(atom);
            var exit := pcc + 2 * Flag(check) + 5 * Flag(many);
            && fetch(pc) == Some(ISplit(greedy, exit - (pc + 5)))
            && (check ==> fetch(pc + 5) == Some(ISetPos(d)))
            && At(fetch, pca, atom)
            && (check ==> fetch(pcc) == Some(ICheckAdv(d)))
            && (many ==> fetch(pcc + 2 * Flag(check)) == Some(IGoto(pc - (pcc + 2 * Flag(check) + 5))))
            && pc + SizeAll(SplitLoop(atom, many, check, greedy, d, true)) == exit
  {
    hide SizeAll, At;
    var len := SizeAll(atom);
    var back := IGoto(-(5 + len + 5 + 4 * Flag(check)));
    var split := ISplit(greedy, len + 5 * Flag(many) + 4 * Flag(check));
    var mark, adv, jump := SetPosCode(check, d, true), CheckAdvCode(check, d, true), if many then [back] else [];
    assert SplitLoop(atom, many, check, greedy, d, true) == [split] + (mark + (atom + (adv + jump)));
    AtCons(fetch, pc, split, mark + (atom + (adv + jump)));
    AtFour(fetch, pc + 5, mark, atom, adv, jump);
    AtOptional(fetch, pc + 5, check, ISetPos(d));
    AtOptional(fetch, pc + 5 + 2 * Flag(check) + len, check, ICheckAdv(d));
    AtOptional(fetch, pc + 5 + 4 * Flag(check) + len, many, back);
  }

  lemma SplitAt(m: Machine, q: Loop, many: bool, check: bool, pc: nat)
    requires check == !Advances(q.b, q.back)
    requires At(m.fetch, pc, SplitLoop(AtomCode(q, Flag(check)), many, check, q.greedy, q.d, true))
    ensures SplitPlaced(m, q, many, check, pc,
                        pc + SizeAll(SplitLoop(AtomCode(q, Flag(check)), many, check, q.greedy, q.d, true)))
  {
    hide LoopAtom, Advances, SplitLoop, SizeAll, At;
    SplitLayout(m.fetch, pc, AtomCode(q, Flag(check)), many, check, q.greedy, q.d);
  }

  lemma {:induction false} SplitRun(m: Machine, q: Loop, many: bool, check: bool, pc: nat, x: St, words: Words, g: Goal,
                                    stk: Stack)
    requires SplitPlaced(m, q, many, check, pc, g.exit)
    requires InLoop(m, q, Flag(check), x, words) && LoopGoal(m, q, g, words)
    ensures Yields(m, Run(pc, x.pos, words, stk), g,
                   Repeat(m.inp, q.b, 0, ManyBound(many), q.greedy, q.base, q.back, x), stk)
    decreases q.b, 20, 0, Room(m.inp, q.back, x.pos), 3
  {
    hide WellFormed, Regs, Match, SplitPlaced, AtomCode, Groups;
    var i, next := ISplit(q.greedy, g.exit - (pc + 5)), pc + 5;
    assert m.fetch(pc) == Some(i) by { SplitFetch(m, q, many, check, pc, g.exit); }
    var again := Iterate(m.inp, q.b, 0, ManyBound(many), q.greedy, q.base, q.back, x);
    if q.greedy {
      var f := Frame(g.exit, x.pos, words, KSplit);
      SplitPass(m, q, many, check, pc, x, words, g, stk + [f]);
      Leave(m, q, x, words, g, stk);
      ForkRun(m, pc, i, x, words, g, again, [x], stk, Run(next, x.pos, words, stk + [f]), f);
    } else {
      var f := Frame(next, x.pos, words, KSplit);
      SplitPass(m, q, many, check, pc, x, words, g, stk);
      Leave(m, q, x, words, g, stk + [f]);
      ForkRun(m, pc, i, x, words, g, [x], again, stk, Run(g.exit, x.pos, words, stk + [f]), f);
    }
  }

  lemma SplitFetch(m: Machine, q: Loop, many: bool, check: bool, pc: nat, exit: nat)
    requires SplitPlaced(m, q, many, check, pc, exit)
    ensures m.fetch(pc) == Some(ISplit(q.greedy, exit - (pc + 5)))
    ensures check ==> m.fetch(pc + 5) == Some(ISetPos(q.d))
    ensures check == !Advances(q.b, q.back)
    ensures At(m.fetch, pc + 5 + 2 * Flag(check), AtomCode(q, Flag(check)))
  {
  }

  lemma {:induction false} SplitPass(m: Machine, q: Loop, many: bool, check: bool, pc: nat, x: St, words: Words,
                                     g: Goal, stk: Stack)
    requires SplitPlaced(m, q, many, check, pc, g.exit)
    requires InLoop(m, q, Flag(check), x, words) && LoopGoal(m, q, g, words)
    ensures Yields(m, Run(pc + 5, x.pos, words, stk), g,
                   Iterate(m.inp, q.b, 0, ManyBound(many), q.greedy, q.base, q.back, x), stk)
    decreases q.b, 20, 0, Room(m.inp, q.back, x.pos), 2
  {
    hide WellFormed, Regs, Match, SplitPlaced, AtomCode, Groups;
    SplitFetch(m, q, many, check, pc, g.exit);
    PassFacts(m.inp, q, x);
    var pca, ys := pc + 5 + 2 * Flag(check), PassOutcomes(m.inp, q, x);
    var s, r := Run(pc + 5, x.pos, words, stk), 2 * m.ngroups + q.d;
    if check {
      SetRegister(m, q, 1, x, words, g, q.d, Pos(x.pos));
      var words1 := words[r := Pos(x.pos)];
      var s1 := Run(pca, x.pos, words1, stk);
      OneStep(m, pc + 5, ISetPos(q.d), x.pos, words, stk, s1);
      AtomRun(m, q, 1, pca, x, words1, stk);
      SplitEach(m, q, many, check, pc, x, words, words1, s1, ys, g, stk);
      YieldsReach(m, s, s1, g, RepeatEach(m.inp, q.b, 0, ManyBound(many), q.greedy, q.base, q.back, x, ys), stk);
    } else {
      AtomRun(m, q, 0, pca, x, words, stk);
      SplitEach(m, q, many, check, pc, x, words, words, s, ys, g, stk);
    }
  }

  lemma {:induction false} SplitEach(m: Machine, q: Loop, many: bool, check: bool, pc: nat, x: St, words: Words,
                                     words1: Words, s: State, ys: seq<St>, g: Goal, stk: Stack)
    requires SplitPlaced(m, q, many, check, pc, g.exit)
    requires InLoop(m, q, Flag(check), x, words) && LoopGoal(m, q, g, words)
    requires Untouched(words, words1, m.ngroups, q.base, q.base + Groups(q.b), q.d)
    requires check ==> words1[2 * m.ngroups + q.d] == Pos(x.pos)
    requires Yields(m, s, AtomGoal(q, Flag(check), pc + 5 + 2 * Flag(check), words1), ys, stk)
    requires AllPassed(m.inp, q, x, ys) && AllFollow(m.inp, q.back, x, ys)
    ensures Yields(m, s, g, RepeatEach(m.inp, q.b, 0, ManyBound(many), q.greedy, q.base, q.back, x, ys), stk)
    decreases q.b, 20, 0, Room(m.inp, q.back, x.pos), 1, |ys|
  {
    hide WellFormed, Regs, Match, SplitPlaced, AtomCode, Groups, Repeat;
    var ga := AtomGoal(q, Flag(check), pc + 5 + 2 * Flag(check), words1);
    if ys == [] {
      YieldsNone(m, s, g, stk);
    } else {
      var w, t :| YieldsAs(m, s, ga, ys, stk, w, t);
      PassedTail(m.inp, q, x, ys);
      SplitEach(m, q, many, check, pc, x, words, words1, State.Back(stk + t), ys[1..], g, stk);
      SplitNext(m, q, many, check, pc, x, ys[0], words, words1, w, g, stk + t);
      Chain(m, s, Run(ga.exit, ys[0].pos, w, stk + t), g,
            if ys[0].pos == x.pos then []
              else Repeat(m.inp, q.b, 0, Less(ManyBound(many)), q.greedy, q.base, q.back, ys[0]),
            RepeatEach(m.inp, q.b, 0, ManyBound(many), q.greedy, q.base, q.back, x, ys[1..]), stk, t);
    }
  }

  /** After one pass: give up if nothing was consumed, else go round again. */
  lemma {:induction false} SplitNext(m: Machine, q: Loop, many: bool, check: bool, pc: nat, x: St, y: St, words: Words,
                                     words1: Words, w: Words, g: Goal, stk: Stack)
    requires SplitPlaced(m, q, many, check, pc, g.exit)
    requires InLoop(m, q, Flag(check), x, words) && LoopGoal(m, q, g, words)
    requires Untouched(words, words1, m.ngroups, q.base, q.base + Groups(q.b), q.d)
    requires check ==> words1[2 * m.ngroups + q.d] == Pos(x.pos)
    requires Passed(m.inp, q, x, y)
    requires Arrives(m, AtomGoal(q, Flag(check), pc + 5 + 2 * Flag(check), words1), y, w)
    ensures Yields(m, Run(AtomGoal(q, Flag(check), pc + 5 + 2 * Flag(check), words1).exit, y.pos, w, stk), g,
                   if y.pos == x.pos then []
                     else Repeat(m.inp, q.b, 0, Less(ManyBound(many)), q.greedy, q.base, q.back, y), stk)
    decreases q.b, 20, 0, Room(m.inp, q.back, x.pos), 0
  {
    hide SplitPlaced, InLoop, LoopGoal, Passed, Arrives, AtomCode, Repeat, Yields, Shows, Groups, ValidSt, SizeAll,
         Untouched, Match;
    var pcc := pc + 5 + 2 * Flag(check) + SizeAll(AtomCode(q, Flag(check)));
    SplitReached(m, q, many, check, pc, x, y, words, words1, w, g);
    SplitTurn(m, q, many, check, pc, pcc, x, y, w, g, stk);
  }

  lemma SplitReached(m: Machine, q: Loop, many: bool, check: bool, pc: nat, x: St, y: St, words: Words, words1: Words,
                     w: Words, g: Goal)
    requires SplitPlaced(m, q, many, check, pc, g.exit)
    requires InLoop(m, q, Flag(check), x, words) && LoopGoal(m, q, g, words)
    requires Untouched(words, words1, m.ngroups, q.base, q.base + Groups(q.b), q.d)
    requires check ==> words1[2 * m.ngroups + q.d] == Pos(x.pos)
    requires Passed(m.inp, q, x, y)
    requires Arrives(m, AtomGoal(q, Flag(check), pc + 5 + 2 * Flag(check), words1), y, w)
    ensures InLoop(m, q, Flag(check), y, w) && LoopGoal(m, q, g, w) && Shows(m, w, y, q.open, {})
    ensures ValidSt(m.inp, y) && q.base + Groups(q.b) <= |y.caps| && x.pos <= |m.inp.units|
    ensures y.pos != x.pos ==> Room(m.inp, q.back, y.pos) < Room(m.inp, q.back, x.pos)
    ensures !check ==> y.pos != x.pos
    ensures var pcc := pc + 5 + 2 * Flag(check) + SizeAll(AtomCode(q, Flag(check)));
            var pcg := pcc + 2 * Flag(check);
            && (check ==> m.fetch(pcc) == Some(ICheckAdv(q.d)) && 2 * m.ngroups + q.d < |w|
                          && w[2 * m.ngroups + q.d] == Pos(x.pos))
            && (if many then m.fetch(pcg) == Some(IGoto(pc - (pcg + 5))) else g.exit == pcg)
  {
    hide WellFormed, Regs, Match, AtomCode, Groups, SlotsAgree, At;
    AfterPass(m, q, Flag(check), pc + 5 + 2 * Flag(check), x, y, words, words1, w, g);
  }

  lemma {:induction false} SplitTurn(m: Machine, q: Loop, many: bool, check: bool, pc: nat, pcc: nat, x: St, y: St,
                                     w: Words, g: Goal, stk: Stack)
    requires SplitPlaced(m, q, many, check, pc, g.exit) && x.pos <= |m.inp.units|
    requires InLoop(m, q, Flag(check), y, w) && LoopGoal(m, q, g, w) && Shows(m, w, y, q.open, {})
    requires ValidSt(m.inp, y) && q.base + Groups(q.b) <= |y.caps|
    requires y.pos != x.pos ==> Room(m.inp, q.back, y.pos) < Room(m.inp, q.back, x.pos)
    requires !check ==> y.pos != x.pos
    requires check ==> m.fetch(pcc) == Some(ICheckAdv(q.d)) && 2 * m.ngroups + q.d < |w|
                       && w[2 * m.ngroups + q.d] == Pos(x.pos)
    requires var pcg := pcc + 2 * Flag(check);
             if many then m.fetch(pcg) == Some(IGoto(pc - (pcg + 5))) else g.exit == pcg
    ensures Yields(m, Run(pcc, y.pos, w, stk), g,
                   if y.pos == x.pos then []
                   else Repeat(m.inp, q.b, 0, Less(ManyBound(many)), q.greedy, q.base, q.back, y), stk)
    decreases q.b, 20, 0, Room(m.inp, q.back, x.pos), 0, 0
  {
    hide SplitPlaced, InLoop, LoopGoal, Yields, Shows, Groups, ValidSt, Match, Iterate;
    var s := Run(pcc, y.pos, w, stk);
    if y.pos == x.pos {
      OneStep(m, pcc, ICheckAdv(q.d), y.pos, w, stk, State.Back(stk));
      YieldsNone(m, s, g, stk);
    } else {
      var s1 := Run(pcc + 2 * Flag(check), y.pos, w, stk);
      if check {
        OneStep(m, pcc, ICheckAdv(q.d), y.pos, w, stk, s1);
      } else {
        ReachesSelf(m, s);
      }
      if many {
        OneStep(m, s1.pc, IGoto(pc - (s1.pc + 5)), y.pos, w, stk, Run(pc, y.pos, w, stk));
        ReachesTrans(m, s, s1, Run(pc, y.pos, w, stk));
        SplitRun(m, q, many, check, pc, y, w, g, stk);
        YieldsReach(m, s, Run(pc, y.pos, w, stk), g,
                    Repeat(m.inp, q.b, 0, Infinite, q.greedy, q.base, q.back, y), stk);
      } else {
        Leave(m, q, y, w, g, stk);
        YieldsReach(m, s, s1, g, [y], stk);
      }
    }
  }

  // ----- + on an atom that advances -----------------------------------------

  ghost predicate PlusPlaced(m: Machine, q: Loop, pc: nat, exit: nat) {
    var pcs := pc + SizeAll(AtomCode(q, 0));
    && Advances(q.b, q.back)
    && At(m.fetch, pc, AtomCode(q, 0))
    && m.fetch(pcs) == Some(ISplit(!q.greedy, pc - exit)) && exit == pcs + 5
  }

  lemma PlusAt(m: Machine, q: Loop, pc: nat)
    requires Advances(q.b, q.back) && At(m.fetch, pc, PlusLoop(AtomCode(q, 0), q.greedy))
    ensures PlusPlaced(m, q, pc, pc + SizeAll(PlusLoop(AtomCode(q, 0), q.greedy)))
  {
    hide LoopAtom, Advances, SizeAll, At;
    AtSnoc(m.fetch, pc, AtomCode(q, 0), ISplit(!q.greedy, -(SizeAll(AtomCode(q, 0)) + 5)));
  }

  lemma {:induction false} PlusRun(m: Machine, q: Loop, min: nat, pc: nat, x: St, words: Words, g: Goal, stk: Stack)
    requires PlusPlaced(m, q, pc, g.exit) && min <= 1
    requires InLoop(m, q, 0, x, words) && LoopGoal(m, q, g, words)
    ensures Yields(m, Run(pc, x.pos, words, stk), g,
                   Iterate(m.inp, q.b, min, Infinite, q.greedy, q.base, q.back, x), stk)
    decreases q.b, 20, 0, Room(m.inp, q.back, x.pos), 2
  {
    hide WellFormed, Regs, Match, AtomCode, Groups;
    PassFacts(m.inp, q, x);
    AtomRun(m, q, 0, pc, x, words, stk);
    PlusEach(m, q, min, pc, x, words, Run(pc, x.pos, words, stk), PassOutcomes(m.inp, q, x), g, stk);
  }

  lemma {:induction false} PlusEach(m: Machine, q: Loop, min: nat, pc: nat, x: St, words: Words, s: State, ys: seq<St>,
                                    g: Goal, stk: Stack)
    requires PlusPlaced(m, q, pc, g.exit) && min <= 1
    requires InLoop(m, q, 0, x, words) && LoopGoal(m, q, g, words)
    requires Yields(m, s, AtomGoal(q, 0, pc, words), ys, stk)
    requires AllPassed(m.inp, q, x, ys) && AllFollow(m.inp, q.back, x, ys)
    ensures Yields(m, s, g, RepeatEach(m.inp, q.b, min, Infinite, q.greedy, q.base, q.back, x, ys), stk)
    decreases q.b, 20, 0, Room(m.inp, q.back, x.pos), 1, |ys|
  {
    hide WellFormed, Regs, Match, AtomCode, Groups, Repeat, InLoop, LoopGoal, PlusPlaced, RepeatEach, ValidSt;
    InLoopFacts(m, q, 0, x, words);
    var ga := AtomGoal(q, 0, pc, words);
    if ys == [] {
      EachNone(m.inp, q, min, Infinite, x);
      YieldsNone(m, s, g, stk);
    } else {
      var w, t :| YieldsAs(m, s, ga, ys, stk, w, t);
      PassedTail(m.inp, q, x, ys);
      PlusEach(m, q, min, pc, x, words, State.Back(stk + t), ys[1..], g, stk);
      PlusNext(m, q, pc, x, ys[0], words, w, g, stk + t);
      assert ys[0].pos != x.pos by { PlusMoves(m, q, pc, g.exit, x, ys[0]); }
      EachChain(m, q, min, Infinite, x, s, Run(ga.exit, ys[0].pos, w, stk + t), ys, g, stk, t);
    }
  }

  lemma EachNone(inp: Input, q: Loop, min: nat, max: Bound, x: St)
    requires ValidSt(inp, x) && q.base + Groups(q.b) <= |x.caps|
    ensures RepeatEach(inp, q.b, min, max, q.greedy, q.base, q.back, x, []) == []
  {
  }

  lemma PlusMoves(m: Machine, q: Loop, pc: nat, exit: nat, x: St, y: St)
    requires PlusPlaced(m, q, pc, exit) && Passed(m.inp, q, x, y)
    ensures y.pos != x.pos
  {
  }

  lemma {:induction false} PlusNext(m: Machine, q: Loop, pc: nat, x: St, y: St, words: Words, w: Words, g: Goal,
                                    stk: Stack)
    requires PlusPlaced(m, q, pc, g.exit)
    requires InLoop(m, q, 0, x, words) && LoopGoal(m, q, g, words)
    requires Passed(m.inp, q, x, y) && Arrives(m, AtomGoal(q, 0, pc, words), y, w)
    ensures Yields(m, Run(AtomGoal(q, 0, pc, words).exit, y.pos, w, stk), g,
                   Repeat(m.inp, q.b, 0, Infinite, q.greedy, q.base, q.back, y), stk)
    decreases q.b, 20, 0, Room(m.inp, q.back, x.pos), 0
  {
    hide InLoop, LoopGoal, PlusPlaced, Passed, Arrives, AtomCode, Repeat, Yields, Shows, Groups, ValidSt, SizeAll;
    var pcs := pc + SizeAll(AtomCode(q, 0));
    PlusReached(m, q, pc, x, y, words, w, g);
    PlusFork(m, q, pc, pcs, x, y, w, g, stk);
  }

  lemma {:induction false} PlusFork(m: Machine, q: Loop, pc: nat, pcs: nat, x: St, y: St, w: Words, g: Goal, stk: Stack)
    requires PlusPlaced(m, q, pc, g.exit) && x.pos <= |m.inp.units|
    requires InLoop(m, q, 0, y, w) && LoopGoal(m, q, g, w) && Shows(m, w, y, q.open, {})
    requires ValidSt(m.inp, y) && q.base + Groups(q.b) <= |y.caps|
    requires Room(m.inp, q.back, y.pos) < Room(m.inp, q.back, x.pos)
    requires pcs + 5 == g.exit && m.fetch(pcs) == Some(ISplit(!q.greedy, pc - g.exit))
    ensures Yields(m, Run(pcs, y.pos, w, stk), g, Repeat(m.inp, q.b, 0, Infinite, q.greedy, q.base, q.back, y), stk)
    decreases q.b, 20, 0, Room(m.inp, q.back, x.pos), 0, 0
  {
    hide InLoop, LoopGoal, PlusPlaced, Match, Yields, Shows, Groups, ValidSt, Iterate;
    var i := ISplit(!q.greedy, pc - g.exit);
    var again := Iterate(m.inp, q.b, 0, Infinite, q.greedy, q.base, q.back, y);
    if q.greedy {
      var f := Frame(g.exit, y.pos, w, KSplit);
      PlusRun(m, q, 0, pc, y, w, g, stk + [f]);
      Leave(m, q, y, w, g, stk);
      ForkRun(m, pcs, i, y, w, g, again, [y], stk, Run(pc, y.pos, w, stk + [f]), f);
    } else {
      var f := Frame(pc, y.pos, w, KSplit);
      PlusRun(m, q, 0, pc, y, w, g, stk);
      Leave(m, q, y, w, g, stk + [f]);
      ForkRun(m, pcs, i, y, w, g, [y], again, stk, Run(g.exit, y.pos, w, stk + [f]), f);
    }
  }

  lemma PlusReached(m: Machine, q: Loop, pc: nat, x: St, y: St, words: Words, w: Words, g: Goal)
    requires PlusPlaced(m, q, pc, g.exit)
    requires InLoop(m, q, 0, x, words) && LoopGoal(m, q, g, words)
    requires Passed(m.inp, q, x, y) && Arrives(m, AtomGoal(q, 0, pc, words), y, w)
    ensures InLoop(m, q, 0, y, w) && LoopGoal(m, q, g, w) && Shows(m, w, y, q.open, {})
    ensures ValidSt(m.inp, y) && q.base + Groups(q.b) <= |y.caps| && x.pos <= |m.inp.units|
    ensures Room(m.inp, q.back, y.pos) < Room(m.inp, q.back, x.pos)
    ensures var pcs := pc + SizeAll(AtomCode(q, 0));
            pcs + 5 == g.exit && m.fetch(pcs) == Some(ISplit(!q.greedy, pc - g.exit))
  {
    hide WellFormed, Regs, Match, AtomCode, Groups, SlotsAgree, At;
    AfterPass(m, q, 0, pc, x, y, words, words, w, g);
  }

  // ----- counted loops ------------------------------------------------------

  function LoopInstr(simple: bool, check: bool, greedy: bool, d: nat, limit: nat, off: int): Instr {
    if simple then ILoop(d, off) else ILoopSplit(check, !greedy, d, limit, off)
  }

  function LoopSize(simple: bool): nat {
    if simple then 6 else 10
  }

  /** The layout of the repeated part, which starts at `pc`. */
  ghost predicate CountedPlaced(m: Machine, q: Loop, simple: bool, check: bool, limit: nat, pc: nat, exit: nat) {
    var pca := pc + 2 * Flag(check);
    var pcc := pca + SizeAll(AtomCode(q, 1 + Flag(check)));
    && (if simple then !check && limit == 0 else check == !Advances(q.b, q.back))
    && (check ==> m.fetch(pc) == Some(ISetPos(q.d + 1)))
    && At(m.fetch, pca, AtomCode(q, 1 + Flag(check)))
    && m.fetch(pcc) == Some(LoopInstr(simple, check, q.greedy, q.d, limit, pc - exit))
    && exit == pcc + LoopSize(simple)
  }

  lemma CountedAt(m: Machine, q: Loop, simple: bool, check: bool, limit: nat, pc: nat)
    requires if simple then !check && limit == 0 else check == !Advances(q.b, q.back)
    requires At(m.fetch, pc, CountedBody(AtomCode(q, 1 + Flag(check)), simple, check, q.greedy, limit, q.d, true))
    ensures CountedPlaced(m, q, simple, check, limit, pc,
                          pc + SizeAll(CountedBody(AtomCode(q, 1 + Flag(check)), simple, check, q.greedy, limit, q.d,
                                                   true)))
  {
    hide LoopAtom, AtomCode, Advances, SizeAll, At;
    var atom, mark := AtomCode(q, 1 + Flag(check)), SetPosCode(check, q.d + 1, true);
    var len := SizeAll(atom) + 2 * Flag(check);
    var i := LoopInstr(simple, check, q.greedy, q.d, limit, -(len + LoopSize(simple)));
    assert CountedBody(atom, simple, check, q.greedy, limit, q.d, true) == mark + (atom + [i]);
    AtAppend(m.fetch, pc, mark, atom + [i]);
    AtOptional(m.fetch, pc, check, ISetPos(q.d + 1));
    AtSnoc(m.fetch, pc + 2 * Flag(check), atom, i);
  }

  /** The counter `v` at the start of a pass: how many passes are still
      mandatory, and how many are still allowed. */
  ghost predicate Counts(m: Machine, q: Loop, limit: nat, words: Words, v: nat, min: nat, max: Bound) {
    && v >= 1 && 2 * m.ngroups + q.d < |words| && words[2 * m.ngroups + q.d] == Cnt(v)
    && min == (if v > limit then v - limit else 0)
    && max == Finite(v)
  }

  lemma CountedFetch(m: Machine, q: Loop, simple: bool, check: bool, limit: nat, pc: nat, exit: nat)
    requires CountedPlaced(m, q, simple, check, limit, pc, exit)
    ensures check ==> m.fetch(pc) == Some(ISetPos(q.d + 1))
    ensures At(m.fetch, pc + 2 * Flag(check), AtomCode(q, 1 + Flag(check)))
  {
  }

  lemma {:induction false} CountedRun(m: Machine, q: Loop, simple: bool, check: bool, limit: nat, pc: nat, x: St,
                                      words: Words, v: nat, min: nat, max: Bound, g: Goal, stk: Stack)
    requires CountedPlaced(m, q, simple, check, limit, pc, g.exit)
    requires InLoop(m, q, 1 + Flag(check), x, words) && LoopGoal(m, q, g, words)
    requires Counts(m, q, limit, words, v, min, max)
    ensures Yields(m, Run(pc, x.pos, words, stk), g, Iterate(m.inp, q.b, min, max, q.greedy, q.base, q.back, x), stk)
    decreases q.b, 20, min, Room(m.inp, q.back, x.pos), 2
  {
    hide WellFormed, Regs, Match, CountedPlaced, AtomCode, Groups;
    CountedFetch(m, q, simple, check, limit, pc, g.exit);
    PassFacts(m.inp, q, x);
    var pca, ys := pc + 2 * Flag(check), PassOutcomes(m.inp, q, x);
    var s, r := Run(pc, x.pos, words, stk), 2 * m.ngroups + q.d + 1;
    if check {
      SetRegister(m, q, 2, x, words, g, q.d + 1, Pos(x.pos));
      var words1 := words[r := Pos(x.pos)];
      var s1 := Run(pca, x.pos, words1, stk);
      OneStep(m, pc, ISetPos(q.d + 1), x.pos, words, stk, s1);
      AtomRun(m, q, 2, pca, x, words1, stk);
      CountedEach(m, q, simple, check, limit, pc, x, words, words1, v, min, max, s1, ys, g, stk);
      YieldsReach(m, s, s1, g, RepeatEach(m.inp, q.b, min, max, q.greedy, q.base, q.back, x, ys), stk);
    } else {
      AtomRun(m, q, 1, pca, x, words, stk);
      CountedEach(m, q, simple, check, limit, pc, x, words, words, v, min, max, s, ys, g, stk);
    }
  }

  /** The registers of the loop while its atom runs. */
  ghost predicate Registers(m: Machine, q: Loop, check: bool, x: St, words: Words, words1: Words, v: nat) {
    && Untouched(words, words1, m.ngroups, q.base, q.base + Groups(q.b), q.d)
    && 2 * m.ngroups + q.d + Flag(check) < |words1|
    && words1[2 * m.ngroups + q.d] == Cnt(v)
    && (check ==> words1[2 * m.ngroups + q.d + 1] == Pos(x.pos))
  }

  lemma {:induction false} CountedEach(m: Machine, q: Loop, simple: bool, check: bool, limit: nat, pc: nat, x: St,
                                       words: Words, words1: Words, v: nat, min: nat, max: Bound, s: State, ys: seq<St>,
                                       g: Goal, stk: Stack)
    requires CountedPlaced(m, q, simple, check, limit, pc, g.exit)
    requires InLoop(m, q, 1 + Flag(check), x, words) && LoopGoal(m, q, g, words)
    requires Counts(m, q, limit, words, v, min, max) && Registers(m, q, check, x, words, words1, v)
    requires Yields(m, s, AtomGoal(q, 1 + Flag(check), pc + 2 * Flag(check), words1), ys, stk)
    requires AllPassed(m.inp, q, x, ys) && AllFollow(m.inp, q.back, x, ys)
    ensures Yields(m, s, g, RepeatEach(m.inp, q.b, min, max, q.greedy, q.base, q.back, x, ys), stk)
    decreases q.b, 20, min, Room(m.inp, q.back, x.pos), 1, |ys|
  {
    hide WellFormed, Regs, Match, CountedPlaced, AtomCode, Groups, Repeat, InLoop, LoopGoal, RepeatEach, ValidSt,
         GoOn, Counts, Registers;
    InLoopFacts(m, q, 1 + Flag(check), x, words);
    var ga := AtomGoal(q, 1 + Flag(check), pc + 2 * Flag(check), words1);
    if ys == [] {
      EachNone(m.inp, q, min, max, x);
      YieldsNone(m, s, g, stk);
    } else {
      var w, t :| YieldsAs(m, s, ga, ys, stk, w, t);
      PassedTail(m.inp, q, x, ys);
      CountedEach(m, q, simple, check, limit, pc, x, words, words1, v, min, max, State.Back(stk + t), ys[1..], g, stk);
      CountedNext(m, q, simple, check, limit, pc, x, ys[0], words, words1, w, v, min, max, g, stk + t);
      EachChain(m, q, min, max, x, s, Run(ga.exit, ys[0].pos, w, stk + t), ys, g, stk, t);
    }
  }

  /** Control is at the loop instruction, at `pcc`, after a pass from `x` to `y`. */
  ghost predicate AtCount(m: Machine, q: Loop, simple: bool, check: bool, limit: nat, pc: nat, pcc: nat, x: St, y: St,
                          w: Words, v: nat, min: nat, max: Bound, g: Goal)
  {
    && CountedPlaced(m, q, simple, check, limit, pc, g.exit) && pcc + LoopSize(simple) == g.exit
    && x.pos <= |m.inp.units| && q.base + Groups(q.b) <= |x.caps| && Passed(m.inp, q, x, y)
    && InLoop(m, q, 1 + Flag(check), y, w) && LoopGoal(m, q, g, w)
    && Counts(m, q, limit, w, v, min, max)
    && (check ==> 2 * m.ngroups + q.d + 1 < |w| && w[2 * m.ngroups + q.d + 1] == Pos(x.pos))
  }

  lemma CountInstr(m: Machine, q: Loop, simple: bool, check: bool, limit: nat, pc: nat, pcc: nat, x: St, y: St,
                   w: Words, v: nat, min: nat, max: Bound, g: Goal)
    requires AtCount(m, q, simple, check, limit, pc, pcc, x, y, w, v, min, max, g)
    ensures m.fetch(pcc) == Some(LoopInstr(simple, check, q.greedy, q.d, limit, pc - g.exit))
    ensures CountedPlaced(m, q, simple, check, limit, pc, g.exit) && pcc + LoopSize(simple) == g.exit
    ensures ValidSt(m.inp, y) && |y.caps| == |x.caps| && q.base + Groups(q.b) <= |x.caps| && x.pos <= |m.inp.units|
    ensures Room(m.inp, q.back, y.pos) <= Room(m.inp, q.back, x.pos)
    ensures y.pos != x.pos ==> Room(m.inp, q.back, y.pos) < Room(m.inp, q.back, x.pos)
    ensures 2 * m.ngroups + q.d < |w| && w[2 * m.ngroups + q.d] == Cnt(v) && v >= 1
    ensures min == if v > limit then v - limit else 0
    ensures simple ==> !check && limit == 0
    ensures !simple && !check ==> y.pos != x.pos
    ensures check ==> 2 * m.ngroups + q.d + 1 < |w| && w[2 * m.ngroups + q.d + 1] == Pos(x.pos)
    ensures max == Finite(v)
  {
    hide InLoop, LoopGoal, AtomCode, At;
  }

  /** The counter after the decrement. */
  lemma CounterDown(m: Machine, q: Loop, simple: bool, check: bool, limit: nat, pc: nat, pcc: nat, x: St, y: St,
                    w: Words, v: nat, min: nat, max: Bound, g: Goal)
    requires AtCount(m, q, simple, check, limit, pc, pcc, x, y, w, v, min, max, g)
    ensures 2 * m.ngroups + q.d < |w| && v >= 1
    ensures var w1 := w[2 * m.ngroups + q.d := Cnt(v - 1)];
            && InLoop(m, q, 1 + Flag(check), y, w1) && LoopGoal(m, q, g, w1) && Shows(m, w1, y, q.open, {})
            && (v > 1 && !(min == 0 && y.pos == x.pos) ==>
                  Counts(m, q, limit, w1, v - 1, NextMin(min), Less(max)))
  {
    hide WellFormed, Regs, AtomCode, At, Groups, LoopGoal, CountedPlaced, Untouched, Linear, Writes, SlotsAgree,
         Advances;
    SetRegister(m, q, 1 + Flag(check), y, w, g, q.d, Cnt(v - 1));
  }

  /** The loop instruction after one pass. */
  lemma {:induction false} CountedNext(m: Machine, q: Loop, simple: bool, check: bool, limit: nat, pc: nat, x: St,
                                       y: St, words: Words, words1: Words, w: Words, v: nat, min: nat, max: Bound,
                                       g: Goal, stk: Stack)
    requires CountedPlaced(m, q, simple, check, limit, pc, g.exit)
    requires InLoop(m, q, 1 + Flag(check), x, words) && LoopGoal(m, q, g, words)
    requires Counts(m, q, limit, words, v, min, max) && Registers(m, q, check, x, words, words1, v)
    requires Passed(m.inp, q, x, y)
    requires Arrives(m, AtomGoal(q, 1 + Flag(check), pc + 2 * Flag(check), words1), y, w)
    ensures Yields(m, Run(AtomGoal(q, 1 + Flag(check), pc + 2 * Flag(check), words1).exit, y.pos, w, stk), g,
                   GoOn(m.inp, q, min, max, x, y), stk)
    decreases q.b, 20, min, Room(m.inp, q.back, x.pos), 0, 2
  {
    hide AtCount, InLoop, LoopGoal, Counts, Registers, Arrives, CountedPlaced, Repeat, AtomCode, Yields, SizeAll,
         GoOn, Groups, Dead, Advances;
    var pcc := pc + 2 * Flag(check) + SizeAll(AtomCode(q, 1 + Flag(check)));
    CountReached(m, q, simple, check, limit, pc, x, y, words, words1, w, v, min, max, g);
    CountedTurn(m, q, simple, check, limit, pc, pcc, x, y, w, v, min, max, g, stk);
  }

  lemma {:induction false} CountedTurn(m: Machine, q: Loop, simple: bool, check: bool, limit: nat, pc: nat, pcc: nat,
                                       x: St, y: St, w: Words, v: nat, min: nat, max: Bound, g: Goal, stk: Stack)
    requires AtCount(m, q, simple, check, limit, pc, pcc, x, y, w, v, min, max, g)
    ensures Yields(m, Run(pcc, y.pos, w, stk), g, GoOn(m.inp, q, min, max, x, y), stk)
    decreases q.b, 20, min, Room(m.inp, q.back, x.pos), 0, 1
  {
    hide AtCount, Repeat, Yields, ValidSt, Groups;
    CountInstr(m, q, simple, check, limit, pc, pcc, x, y, w, v, min, max, g);
    if min == 0 && y.pos == x.pos {
      CountedStuck(m, q, simple, check, limit, pc, pcc, x, y, w, v, min, max, g, stk);
    } else if v - 1 > limit {
      CountedMore(m, q, simple, check, limit, pc, pcc, x, y, w, v, min, max, g, stk);
    } else if v == 1 {
      CountedDone(m, q, simple, check, limit, pc, pcc, x, y, w, v, min, max, g, stk);
    } else {
      CountedFork(m, q, check, limit, pc, pcc, x, y, w, v, min, max, g, stk);
    }
  }

  lemma CountReached(m: Machine, q: Loop, simple: bool, check: bool, limit: nat, pc: nat, x: St, y: St, words: Words,
                     words1: Words, w: Words, v: nat, min: nat, max: Bound, g: Goal)
    requires CountedPlaced(m, q, simple, check, limit, pc, g.exit)
    requires InLoop(m, q, 1 + Flag(check), x, words) && LoopGoal(m, q, g, words)
    requires Counts(m, q, limit, words, v, min, max) && Registers(m, q, check, x, words, words1, v)
    requires Passed(m.inp, q, x, y)
    requires Arrives(m, AtomGoal(q, 1 + Flag(check), pc + 2 * Flag(check), words1), y, w)
    ensures AtCount(m, q, simple, check, limit, pc, pc + 2 * Flag(check) + SizeAll(AtomCode(q, 1 + Flag(check))), x,
                    y, w, v, min, max, g)
  {
    hide WellFormed, Regs, AtomCode, Groups, SizeAll, SlotsAgree, Linear, Writes, Advances, Repeat;
    AfterPass(m, q, 1 + Flag(check), pc + 2 * Flag(check), x, y, words, words1, w, g);
  }

  lemma CountedStuck(m: Machine, q: Loop, simple: bool, check: bool, limit: nat, pc: nat, pcc: nat, x: St, y: St,
                     w: Words, v: nat, min: nat, max: Bound, g: Goal, stk: Stack)
    requires AtCount(m, q, simple, check, limit, pc, pcc, x, y, w, v, min, max, g) && min == 0 && y.pos == x.pos
    ensures Yields(m, Run(pcc, y.pos, w, stk), g, [], stk)
  {
    hide AtCount, Yields;
    CountInstr(m, q, simple, check, limit, pc, pcc, x, y, w, v, min, max, g);
    OneStep(m, pcc, LoopInstr(simple, check, q.greedy, q.d, limit, pc - g.exit), y.pos, w, stk, State.Back(stk));
    YieldsNone(m, Run(pcc, y.pos, w, stk), g, stk);
  }

  lemma {:induction false} CountedMore(m: Machine, q: Loop, simple: bool, check: bool, limit: nat, pc: nat, pcc: nat,
                                       x: St, y: St, w: Words, v: nat, min: nat, max: Bound, g: Goal, stk: Stack)
    requires AtCount(m, q, simple, check, limit, pc, pcc, x, y, w, v, min, max, g) && v - 1 > limit
    ensures Yields(m, Run(pcc, y.pos, w, stk), g, GoOn(m.inp, q, min, max, x, y), stk)
    decreases q.b, 20, min, Room(m.inp, q.back, x.pos), 0, 0
  {
    hide AtCount, InLoop, LoopGoal, Counts, CountedPlaced, Iterate, AtomCode, Yields, Shows;
    CountInstr(m, q, simple, check, limit, pc, pcc, x, y, w, v, min, max, g);
    CounterDown(m, q, simple, check, limit, pc, pcc, x, y, w, v, min, max, g);
    var s, w1 := Run(pcc, y.pos, w, stk), w[2 * m.ngroups + q.d := Cnt(v - 1)];
    OneStep(m, pcc, LoopInstr(simple, check, q.greedy, q.d, limit, pc - g.exit), y.pos, w, stk,
            Run(pc, y.pos, w1, stk));
    CountedRun(m, q, simple, check, limit, pc, y, w1, v - 1, min - 1, Less(max), g, stk);
    YieldsReach(m, s, Run(pc, y.pos, w1, stk), g,
                Iterate(m.inp, q.b, min - 1, Less(max), q.greedy, q.base, q.back, y), stk);
  }

  lemma CountedDone(m: Machine, q: Loop, simple: bool, check: bool, limit: nat, pc: nat, pcc: nat, x: St, y: St,
                    w: Words, v: nat, min: nat, max: Bound, g: Goal, stk: Stack)
    requires AtCount(m, q, simple, check, limit, pc, pcc, x, y, w, v, min, max, g) && v == 1
             && !(min == 0 && y.pos == x.pos)
    ensures Yields(m, Run(pcc, y.pos, w, stk), g, GoOn(m.inp, q, min, max, x, y), stk)
  {
    hide AtCount, InLoop, LoopGoal, Counts, CountedPlaced, Iterate, AtomCode, Yields, Shows;
    CountInstr(m, q, simple, check, limit, pc, pcc, x, y, w, v, min, max, g);
    CounterDown(m, q, simple, check, limit, pc, pcc, x, y, w, v, min, max, g);
    var s, w1 := Run(pcc, y.pos, w, stk), w[2 * m.ngroups + q.d := Cnt(v - 1)];
    OneStep(m, pcc, LoopInstr(simple, check, q.greedy, q.d, limit, pc - g.exit), y.pos, w, stk,
            Run(g.exit, y.pos, w1, stk));
    Leave(m, q, y, w1, g, stk);
    YieldsReach(m, s, Run(g.exit, y.pos, w1, stk), g, [y], stk);
  }

  /** The loop instruction offers both another pass and the end of the loop. */
  lemma {:induction false} CountedFork(m: Machine, q: Loop, check: bool, limit: nat, pc: nat, pcc: nat, x: St, y: St,
                                       w: Words, v: nat, min: nat, max: Bound, g: Goal, stk: Stack)
    requires AtCount(m, q, false, check, limit, pc, pcc, x, y, w, v, min, max, g)
    requires 1 < v <= limit + 1 && !(min == 0 && y.pos == x.pos)
    ensures Yields(m, Run(pcc, y.pos, w, stk), g, GoOn(m.inp, q, min, max, x, y), stk)
    decreases q.b, 20, min, Room(m.inp, q.back, x.pos), 0, 0
  {
    hide AtCount, InLoop, LoopGoal, Counts, CountedPlaced, Iterate, AtomCode, Yields, Shows, ValidSt;
    CountInstr(m, q, false, check, limit, pc, pcc, x, y, w, v, min, max, g);
    CounterDown(m, q, false, check, limit, pc, pcc, x, y, w, v, min, max, g);
    var i, w1 := ILoopSplit(check, !q.greedy, q.d, limit, pc - g.exit), w[2 * m.ngroups + q.d := Cnt(v - 1)];
    var again := Iterate(m.inp, q.b, 0, Less(max), q.greedy, q.base, q.back, y);
    if q.greedy {
      var f := Frame(g.exit, y.pos, w1, KSplit);
      CountedRun(m, q, false, check, limit, pc, y, w1, v - 1, 0, Less(max), g, stk + [f]);
      Leave(m, q, y, w1, g, stk);
      ForkRun(m, pcc, i, y, w, g, again, [y], stk, Run(pc, y.pos, w1, stk + [f]), f);
    } else {
      var f := Frame(pc, y.pos, w1, KSplit);
      CountedRun(m, q, false, check, limit, pc, y, w1, v - 1, 0, Less(max), g, stk);
      Leave(m, q, y, w1, g, stk + [f]);
      ForkRun(m, pcc, i, y, w, g, [y], again, stk, Run(g.exit, y.pos, w1, stk + [f]), f);
    }
  }

  // ----- quantifiers --------------------------------------------------------

  function LoopOf(n: Node, base: nat, back: bool, d: nat, open: set<nat>): Loop
    requires n.Quant?
  {
    Loop(n.body, base, back, n.greedy, d, open)
  }

  /** Entering a counted loop: the counter is set, and a loop that may run zero
      times first chooses whether to run at all. */
  lemma {:induction false} CountedEntry(m: Machine, q: Loop, optional: bool, simple: bool, check: bool, min: nat,
                                        max: Bound, pc: nat, x: St, words: Words, g: Goal, stk: Stack)
    requires if simple then !check && !optional && min == IntMax(max) else check == !Advances(q.b, q.back)
    requires if optional then min == 0 else min > 0
    requires max.Finite? && min <= max.n && max.n > 0
    requires At(m.fetch, pc,
                CountedLoop(AtomCode(q, 1 + Flag(check)), optional, simple, check, q.greedy, min, IntMax(max), q.d,
                            true))
    requires g.exit == pc
             + SizeAll(CountedLoop(AtomCode(q, 1 + Flag(check)), optional, simple, check, q.greedy, min, IntMax(max),
                                   q.d, true))
    requires InLoop(m, q, 1 + Flag(check), x, words) && LoopGoal(m, q, g, words)
    ensures Yields(m, Run(pc, x.pos, words, stk), g, Repeat(m.inp, q.b, min, max, q.greedy, q.base, q.back, x), stk)
    decreases q.b, 21
  {
    hide WellFormed, Regs, Match, AtomCode, Groups, SizeAll, At;
    var atom, limit := AtomCode(q, 1 + Flag(check)), IntMax(max) - min;
    var body := CountedBody(atom, simple, check, q.greedy, limit, q.d, true);
    var split := ISplit(q.greedy, 6 + 2 * Flag(check) + SizeAll(atom) + 10);
    var entry, load := if optional then [split] else [], ISet(q.d, IntMax(max));
    assert CountedLoop(atom, optional, simple, check, q.greedy, min, IntMax(max), q.d, true) == entry + ([load] + body);
    AtAppend(m.fetch, pc, entry, [load] + body);
    AtOptional(m.fetch, pc, optional, split);
    var pc1 := pc + 5 * Flag(optional);
    AtCons(m.fetch, pc1, load, body);
    CountedAt(m, q, simple, check, limit, pc1 + 6);
    CountedLoad(m, q, simple, check, limit, pc1, x, words, min, max, g,
                if optional && q.greedy then stk + [Frame(g.exit, x.pos, words, KSplit)] else stk);
    if optional {
      assert m.fetch(pc) == Some(ISplit(q.greedy, g.exit - (pc + 5))) by {
        CountedSize(atom, check, q.greedy, limit, q.d);
      }
      var again := Iterate(m.inp, q.b, min, max, q.greedy, q.base, q.back, x);
      EntryFork(m, q, pc, x, words, again, g, stk);
    }
  }

  lemma CountedSize(atom: seq<Instr>, check: bool, greedy: bool, limit: nat, d: nat)
    ensures SizeAll(CountedBody(atom, false, check, greedy, limit, d, true)) == 2 * Flag(check) + SizeAll(atom) + 10
  {
    hide At;
    var mark, len := SetPosCode(check, d + 1, true), SizeAll(atom) + 2 * Flag(check);
    var i := ILoopSplit(check, !greedy, d, limit, -(len + 10));
    SizeAppend(mark, atom + [i]);
    SizeAppend(atom, [i]);
    assert SizeAll([]) == 0;
  }

  lemma {:induction false} CountedLoad(m: Machine, q: Loop, simple: bool, check: bool, limit: nat, pc: nat, x: St,
                                       words: Words, min: nat, max: Bound, g: Goal, stk: Stack)
    requires m.fetch(pc) == Some(ISet(q.d, IntMax(max))) && CountedPlaced(m, q, simple, check, limit, pc + 6, g.exit)
    requires max.Finite? && min <= max.n && max.n > 0 && limit == max.n - min
    requires simple ==> min == IntMax(max)
    requires InLoop(m, q, 1 + Flag(check), x, words) && LoopGoal(m, q, g, words)
    ensures Yields(m, Run(pc, x.pos, words, stk), g, Iterate(m.inp, q.b, min, max, q.greedy, q.base, q.back, x), stk)
    decreases q.b, 20, min + 1
  {
    hide WellFormed, Regs, Match, AtomCode, Groups;
    var r, v := 2 * m.ngroups + q.d, IntMax(max);
    SetRegister(m, q, 1 + Flag(check), x, words, g, q.d, Cnt(v));
    var words1 := words[r := Cnt(v)];
    OneStep(m, pc, ISet(q.d, v), x.pos, words, stk, Run(pc + 6, x.pos, words1, stk));
    assert Counts(m, q, limit, words1, v, min, max);
    CountedRun(m, q, simple, check, limit, pc + 6, x, words1, v, min, max, g, stk);
    YieldsReach(m, Run(pc, x.pos, words, stk), Run(pc + 6, x.pos, words1, stk), g,
                Iterate(m.inp, q.b, min, max, q.greedy, q.base, q.back, x), stk);
  }

  lemma EntryFork(m: Machine, q: Loop, pc: nat, x: St, words: Words, again: seq<St>, g: Goal, stk: Stack)
    requires m.fetch(pc) == Some(ISplit(q.greedy, g.exit - (pc + 5)))
    requires Shows(m, words, x, q.open, {}) && LoopGoal(m, q, g, words)
    requires var f := Frame(g.exit, x.pos, words, KSplit);
             Yields(m, Run(pc + 5, x.pos, words, if q.greedy then stk + [f] else stk), g, again,
                    if q.greedy then stk + [f] else stk)
    ensures Yields(m, Run(pc, x.pos, words, stk), g, if q.greedy then again + [x] else [x] + again, stk)
  {
    var i := ISplit(q.greedy, g.exit - (pc + 5));
    if q.greedy {
      var f := Frame(g.exit, x.pos, words, KSplit);
      Leave(m, q, x, words, g, stk);
      ForkRun(m, pc, i, x, words, g, again, [x], stk, Run(pc + 5, x.pos, words, stk + [f]), f);
    } else {
      var f := Frame(pc + 5, x.pos, words, KSplit);
      Leave(m, q, x, words, g, stk + [f]);
      ForkRun(m, pc, i, x, words, g, [x], again, stk, Run(g.exit, x.pos, words, stk + [f]), f);
    }
  }

  /** The loop of a quantifier, whatever its shape. */
  lemma {:induction false} LoopRun(m: Machine, q: Loop, min: nat, max: Bound, pc: nat, x: St, words: Words, g: Goal,
                                   stk: Stack)
    requires CountsFit(q.b, min, max, q.back) && IntMax(max) > 0
    requires var s := ShapeOf(q.b, min, max, q.back);
             var code := LoopCode(AtomCode(q, ShapeRegs(s)), s, min, max, q.greedy, q.d, true);
             At(m.fetch, pc, code) && g.exit == pc + SizeAll(code)
    requires InLoop(m, q, ShapeRegs(ShapeOf(q.b, min, max, q.back)), x, words) && LoopGoal(m, q, g, words)
    ensures Yields(m, Run(pc, x.pos, words, stk), g, Repeat(m.inp, q.b, min, max, q.greedy, q.base, q.back, x), stk)
    decreases q.b, 22
  {
    hide WellFormed, Regs, Match, AtomCode, Groups, SizeAll, At, SplitLoop, PlusLoop, CountedLoop, Iterate, Advances;
    match ShapeOf(q.b, min, max, q.back)
    case Split(many, check) =>
      SplitAt(m, q, many, check, pc);
      SplitRun(m, q, many, check, pc, x, words, g, stk);
    case Plus =>
      PlusAt(m, q, pc);
      PlusRun(m, q, 1, pc, x, words, g, stk);
    case Counted(optional, simple, check) =>
      CountedEntry(m, q, optional, simple, check, min, max, pc, x, words, g, stk);
  }

  /** Before the loop, the code clears the groups of a straight-line atom: they
      are clear already, so this only makes stale slots good again. */
  lemma ResetFirst(m: Machine, n: Node, base: nat, back: bool, d: nat, pc: nat, x: St, words: Words,
                   open: set<nat>, stale: set<nat>, stk: Stack) returns (words1: Words)
    requires n.Quant? && Ready(m, n, base, back, d, x, words, open, stale)
    requires At(m.fetch, pc, ResetCode(n.min == 0 && Linear(n.body), base, Groups(n.body)))
    requires stale == {} || n.max == Finite(0)
    ensures Reaches(m, Run(pc, x.pos, words, stk),
                    Run(pc + SizeAll(ResetCode(n.min == 0 && Linear(n.body), base, Groups(n.body))), x.pos, words1,
                        stk))
    ensures Shows(m, words1, x, open, stale - Writes(n, base))
    ensures Untouched(words, words1, m.ngroups, base, base + Groups(n), d)
  {
    hide WellFormed, Regs, Linear, SizeAll, At, SlotsAgree, Apart, Clear, Reaches;
    QuantBounds(n, m.ngroups, back);
    var emit, count := n.min == 0 && Linear(n.body), Groups(n.body);
    if emit && count > 0 {
      words1 := ResetWords(words, 2 * base, 2 * (base + count));
      ResetDone(m, n, base, back, d, pc, x, words, words1, open, stale, stk);
    } else {
      words1 := words;
      assert SizeAll([]) == 0 by { NothingSized(); }
      ReachesSelf(m, Run(pc, x.pos, words, stk));
      NoWrites(n, base, stale);
    }
  }

  lemma QuantBounds(n: Node, ngroups: nat, back: bool)
    requires n.Quant? && WellFormed(n, ngroups, back)
    ensures CountsFit(n.body, n.min, n.max, back)
  {
  }

  lemma NothingSized()
    ensures SizeAll([]) == 0
  {
  }

  lemma ResetDone(m: Machine, n: Node, base: nat, back: bool, d: nat, pc: nat, x: St, words: Words, words1: Words,
                  open: set<nat>, stale: set<nat>, stk: Stack)
    requires n.Quant? && Ready(m, n, base, back, d, x, words, open, stale)
    requires n.min == 0 && Linear(n.body) && Groups(n.body) > 0
             && At(m.fetch, pc, ResetCode(true, base, Groups(n.body)))
    requires words1 == ResetWords(words, 2 * base, 2 * (base + Groups(n.body)))
    ensures Reaches(m, Run(pc, x.pos, words, stk),
                    Run(pc + SizeAll(ResetCode(true, base, Groups(n.body))), x.pos, words1, stk))
    ensures Shows(m, words1, x, open, stale - Writes(n, base))
    ensures Untouched(words, words1, m.ngroups, base, base + Groups(n), d)
  {
    hide WellFormed, Regs, Linear;
    var count := Groups(n.body);
    AtOne(m.fetch, pc, IReset(base, base + count - 1));
    OneStep(m, pc, IReset(base, base + count - 1), x.pos, words, stk, Run(pc + 3, x.pos, words1, stk));
    hide At, SizeAll, Reaches;
    ResetShows(m, n, base, back, d, x, words, words1, open, stale);
  }

  lemma ResetShows(m: Machine, n: Node, base: nat, back: bool, d: nat, x: St, words: Words, words1: Words,
                   open: set<nat>, stale: set<nat>)
    requires n.Quant? && Ready(m, n, base, back, d, x, words, open, stale) && Linear(n.body)
    requires words1 == ResetWords(words, 2 * base, 2 * (base + Groups(n.body)))
    ensures Shows(m, words1, x, open, stale - Writes(n, base))
    ensures Untouched(words, words1, m.ngroups, base, base + Groups(n), d)
  {
    hide WellFormed, Regs, Linear;
    forall g | 0 <= g < |x.caps| && g !in stale - Writes(n, base)
      ensures if g in open then x.caps[g] == None && !(words1[2 * g].Pos? && words1[2 * g + 1].Pos?)
              else SlotMatches(words1[2 * g], words1[2 * g + 1], x.caps[g])
    {
      assert x.caps[g] == x.caps[g];
    }
  }

  lemma NoWrites(n: Node, base: nat, stale: set<nat>)
    requires n.Quant? && !(n.min == 0 && Linear(n.body) && Groups(n.body) > 0)
    requires stale == {} || (n.max == Finite(0) && n.min == 0)
    ensures stale - Writes(n, base) == stale
  {
  }

  lemma {:induction false} QuantCase(m: Machine, n: Node, base: nat, back: bool, d: nat, pc: nat, x: St, words: Words,
                                     open: set<nat>, stale: set<nat>, stk: Stack)
    requires n.Quant? && Ready(m, n, base, back, d, x, words, open, stale)
    requires At(m.fetch, pc, Code(n, base, back, d, true))
    ensures Yields(m, Run(pc, x.pos, words, stk), NodeGoal(n, base, back, d, pc, words, open, stale),
                   Match(m.inp, n, base, back, x), stk)
    decreases n, 8
  {
    hide Code, Match, Regs, Writes, LoopAtom, LoopCode, SizeAll, At;
    var q, s := LoopOf(n, base, back, d, open), ShapeOf(n.body, n.min, n.max, back);
    var reset := ResetCode(n.min == 0 && Linear(n.body), base, Groups(n.body));
    var code := LoopCode(AtomCode(q, ShapeRegs(s)), s, n.min, n.max, n.greedy, d, true);
    CodeOfQuant(n, base, back, d, true);
    AtAppend(m.fetch, pc, reset, code);
    var g := NodeGoal(n, base, back, d, pc, words, open, stale);
    var words1 := ResetFirst(m, n, base, back, d, pc, x, words, open, stale, stk);
    var s1 := Run(pc + SizeAll(reset), x.pos, words1, stk);
    QuantLoop(m, n, base, back, d, pc + SizeAll(reset), x, words, words1, open, stale, g, stk);
    YieldsReach(m, Run(pc, x.pos, words, stk), s1, g, Match(m.inp, n, base, back, x), stk);
  }

  lemma QuantMatch(inp: Input, n: Node, base: nat, back: bool, x: St)
    requires n.Quant? && ValidSt(inp, x) && base + Groups(n) <= |x.caps|
    ensures Match(inp, n, base, back, x) == Repeat(inp, n.body, n.min, n.max, n.greedy, base, back, x)
  {
  }

  lemma {:induction false} QuantLoop(m: Machine, n: Node, base: nat, back: bool, d: nat, pc: nat, x: St, words: Words,
                                     words1: Words, open: set<nat>, stale: set<nat>, g: Goal, stk: Stack)
    requires n.Quant? && Ready(m, n, base, back, d, x, words, open, stale)
    requires Shows(m, words1, x, open, g.stale) && Untouched(words, words1, m.ngroups, base, base + Groups(n), d)
    requires g == Goal(g.exit, open, stale - Writes(n, base), words, base, base + Groups(n), d)
    requires var s := ShapeOf(n.body, n.min, n.max, back);
             var code := LoopCode(AtomCode(LoopOf(n, base, back, d, open), ShapeRegs(s)), s, n.min, n.max, n.greedy,
                                  d, true);
             At(m.fetch, pc, code) && g.exit == pc + SizeAll(code)
    ensures Yields(m, Run(pc, x.pos, words1, stk), g, Match(m.inp, n, base, back, x), stk)
    decreases n, 7
  {
    hide Code, Match, Regs, WellFormed, Writes, Repeat, LoopAtom, LoopCode, SizeAll, At, Ready, Shows, Untouched,
         InLoop, LoopGoal, Yields;
    var q, s := LoopOf(n, base, back, d, open), ShapeOf(n.body, n.min, n.max, back);
    if n.max == Finite(0) {
      QuantNever(m, n, base, back, d, pc, x, words, words1, open, stale, g, stk);
    } else {
      QuantReady(m, n, base, back, d, x, words, words1, open, stale, g);
      LoopRun(m, q, n.min, n.max, pc, x, words1, g, stk);
    }
  }

  lemma QuantNever(m: Machine, n: Node, base: nat, back: bool, d: nat, pc: nat, x: St, words: Words, words1: Words,
                   open: set<nat>, stale: set<nat>, g: Goal, stk: Stack)
    requires n.Quant? && n.max == Finite(0) && Ready(m, n, base, back, d, x, words, open, stale)
    requires Shows(m, words1, x, open, g.stale) && Untouched(words, words1, m.ngroups, base, base + Groups(n), d)
    requires g == Goal(g.exit, open, stale - Writes(n, base), words, base, base + Groups(n), d)
    requires var s := ShapeOf(n.body, n.min, n.max, back);
             var code := LoopCode(AtomCode(LoopOf(n, base, back, d, open), ShapeRegs(s)), s, n.min, n.max, n.greedy,
                                  d, true);
             At(m.fetch, pc, code) && g.exit == pc + SizeAll(code)
    ensures Yields(m, Run(pc, x.pos, words1, stk), g, Match(m.inp, n, base, back, x), stk)
  {
    assert g.exit == pc && Match(m.inp, n, base, back, x) == [x] && Arrives(m, g, x, words1) by {
      NeverArrives(m, n, base, back, d, pc, x, words, words1, open, stale, g);
    }
    hide Code, Regs, Writes, Match, LoopCode, SizeAll, At, ShapeOf, LoopAtom, WellFormed, Linear, Arrives, Ready, Shows,
         Untouched, Yields, Groups;
    ReachesSelf(m, Run(pc, x.pos, words1, stk));
    YieldsOne(m, Run(pc, x.pos, words1, stk), g, x, words1, stk);
  }

  lemma NeverArrives(m: Machine, n: Node, base: nat, back: bool, d: nat, pc: nat, x: St, words: Words, words1: Words,
                     open: set<nat>, stale: set<nat>, g: Goal)
    requires n.Quant? && n.max == Finite(0) && Ready(m, n, base, back, d, x, words, open, stale)
    requires Shows(m, words1, x, open, g.stale) && Untouched(words, words1, m.ngroups, base, base + Groups(n), d)
    requires g == Goal(g.exit, open, stale - Writes(n, base), words, base, base + Groups(n), d)
    requires var s := ShapeOf(n.body, n.min, n.max, back);
             var code := LoopCode(AtomCode(LoopOf(n, base, back, d, open), ShapeRegs(s)), s, n.min, n.max, n.greedy,
                                  d, true);
             At(m.fetch, pc, code) && g.exit == pc + SizeAll(code)
    ensures g.exit == pc && Match(m.inp, n, base, back, x) == [x] && Arrives(m, g, x, words1)
  {
    hide Code, Regs, Writes, Match, LoopCode, SizeAll, At, ShapeOf, LoopAtom, WellFormed, Linear, SlotsAgree, Apart,
         Clear;
    QuantBounds(n, m.ngroups, back);
    NeverLoops(m, LoopOf(n, base, back, d, open), n, pc, g.exit);
    QuantMatch(m.inp, n, base, back, x);
    NeverRepeats(m.inp, n.body, n.min, n.greedy, base, back, x);
  }

  lemma NeverRepeats(inp: Input, b: Node, min: nat, greedy: bool, base: nat, back: bool, x: St)
    requires ValidSt(inp, x) && base + Groups(b) <= |x.caps|
    ensures Repeat(inp, b, min, Finite(0), greedy, base, back, x) == [x]
  {
  }

  /** A quantifier that never runs its atom has no code. */
  lemma NeverLoops(m: Machine, q: Loop, n: Node, pc: nat, exit: nat)
    requires n.Quant? && n.max == Finite(0) && n.min <= IntMax(n.max)
    requires var s := ShapeOf(n.body, n.min, n.max, q.back);
             exit == pc + SizeAll(LoopCode(AtomCode(q, ShapeRegs(s)), s, n.min, n.max, n.greedy, q.d, true))
    ensures exit == pc
  {
    hide LoopAtom;
  }

  lemma QuantReady(m: Machine, n: Node, base: nat, back: bool, d: nat, x: St, words: Words, words1: Words,
                   open: set<nat>, stale: set<nat>, g: Goal)
    requires n.Quant? && n.max != Finite(0) && Ready(m, n, base, back, d, x, words, open, stale)
    requires Shows(m, words1, x, open, g.stale) && Untouched(words, words1, m.ngroups, base, base + Groups(n), d)
    requires g == Goal(g.exit, open, stale - Writes(n, base), words, base, base + Groups(n), d)
    ensures var q, s := LoopOf(n, base, back, d, open), ShapeOf(n.body, n.min, n.max, back);
            InLoop(m, q, ShapeRegs(s), x, words1) && LoopGoal(m, q, g, words1)
    ensures CountsFit(n.body, n.min, n.max, back) && IntMax(n.max) > 0
    ensures Match(m.inp, n, base, back, x) == Repeat(m.inp, n.body, n.min, n.max, n.greedy, base, back, x)
  {
    QuantMatch(m.inp, n, base, back, x);
    QuantFits(m, n, base, back, d, words1);
    hide Code, Match, Repeat, Fits, Regs, Writes;
    assert g.stale == {};
  }

  lemma QuantFits(m: Machine, n: Node, base: nat, back: bool, d: nat, words: Words)
    requires n.Quant? && n.max != Finite(0) && Fits(m, n, base, back, d, words)
    ensures var s := ShapeOf(n.body, n.min, n.max, back);
            && Fits(m, n.body, base, back, d + ShapeRegs(s), words)
            && CountsFit(n.body, n.min, n.max, back) && IntMax(n.max) > 0
  {
  }
}
