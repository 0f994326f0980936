/** In UTF-16 mode the engine never stops between the two halves of a pair. */
module RegexpBoundary {
  import opened RegexpInput
  import opened RegexpSemantics
  import opened RegexpInstr
  import opened RegexpMachine

  /** The first n recorded positions. */
  ghost predicate WordsOk(inp: Input, words: Words, n: nat) {
    forall k :: 0 <= k < |words| && k < n && words[k].Pos? ==> Boundary(inp, words[k].p)
  }

  ghost predicate StackOk(inp: Input, stk: Stack, n: nat) {
    forall k :: 0 <= k < |stk| ==> Boundary(inp, stk[k].pos) && WordsOk(inp, stk[k].words, n)
  }

  /** The position, the first n recorded positions (the captures and perhaps
      registers), and all of them in every choice point. */
  ghost predicate OnBoundaries(inp: Input, s: State, n: nat) {
    match s
    case Run(_, pos, words, stk) => Boundary(inp, pos) && WordsOk(inp, words, n) && StackOk(inp, stk, n)
    case Back(stk) => StackOk(inp, stk, n)
    case Matched(words) => WordsOk(inp, words, n)
    case _ => true
  }

  lemma {:induction false} RefKeepsBoundary(inp: Input, lo: nat, hi: nat, back: bool, p: nat)
    requires lo <= hi <= |inp.units| && Boundary(inp, p)
    ensures var q := RefEnd(inp, lo, hi, back, p); q.Some? ==> Boundary(inp, q.value)
    decreases hi - lo
  {
    StepsKeepBoundaries(inp, p);
    if lo == hi {
    } else if back {
      if p != 0 { RefKeepsBoundary(inp, lo, Prev(inp, hi, lo), back, Prev(inp, p, 0)); }
    } else {
      if p != |inp.units| { RefKeepsBoundary(inp, Next(inp, lo, hi), hi, back, Next(inp, p, |inp.units|)); }
    }
  }

  lemma {:induction false} BackRefKeeps(m: Machine, back: bool, groups: seq<nat>, next: nat, pos: nat, words: Words,
                                        stk: Stack, n: nat)
    requires 2 * m.ngroups <= n && OnBoundaries(m.inp, Run(next, pos, words, stk), n)
    ensures OnBoundaries(m.inp, StepRef(m, back, groups, next, pos, words, stk), n)
    decreases |groups|
  {
    hide WordsOk, StackOk, Boundary, RefEnd;
    assert pos <= |m.inp.units| by { AtMost(m.inp, pos); }
    if groups != [] && groups[0] < m.ngroups && 2 * groups[0] + 1 < |words| {
      var a, b := words[2 * groups[0]], words[2 * groups[0] + 1];
      if a.Pos? && b.Pos? {
        if a.p < b.p <= |m.inp.units| { RefKeepsBoundary(m.inp, a.p, b.p, back, pos); }
      } else {
        BackRefKeeps(m, back, groups[1..], next, pos, words, stk, n);
      }
    }
  }

  lemma AtMost(inp: Input, pos: nat)
    requires Boundary(inp, pos)
    ensures pos <= |inp.units|
  {
  }

  lemma LoopKeeps(m: Machine, i: Instr, next: nat, pos: nat, words: Words, stk: Stack, n: nat)
    requires 2 * m.ngroups <= n && OnBoundaries(m.inp, Run(next, pos, words, stk), n) && (i.ILoop? || i.ILoopSplit?)
    ensures OnBoundaries(m.inp, StepLoop(m, i, next, pos, words, stk), n)
  {
    hide Boundary;
  }

  lemma CharTestKeeps(m: Machine, i: Instr, next: nat, pos: nat, words: Words, stk: Stack, n: nat)
    requires 2 * m.ngroups <= n && OnBoundaries(m.inp, Run(next, pos, words, stk), n) && pos <= |m.inp.units|
    ensures OnBoundaries(m.inp, StepCharTest(m, i, next, pos, words, stk), n)
  {
    StepsKeepBoundaries(m.inp, pos);
    hide WordsOk, StackOk, Boundary;
  }

  lemma ExecKeeps(m: Machine, i: Instr, next: nat, pos: nat, words: Words, stk: Stack, n: nat)
    requires 2 * m.ngroups <= n && OnBoundaries(m.inp, Run(next, pos, words, stk), n) && pos <= |m.inp.units|
    ensures OnBoundaries(m.inp, Exec(m, i, next, pos, words, stk), n)
  {
    StepsKeepBoundaries(m.inp, pos);
    CharTestKeeps(m, i, next, pos, words, stk, n);
    hide Boundary, StepCharTest, StepLoop, StepRef, Holds;
    if i.IBackRef? {
      BackRefKeeps(m, i.back, i.groups, next, pos, words, stk, n);
    } else if i.ILoop? || i.ILoopSplit? {
      LoopKeeps(m, i, next, pos, words, stk, n);
    }
  }

  /** Every step keeps to code point boundaries, whatever the program. */
  lemma StepKeepsBoundaries(m: Machine, s: State, n: nat)
    requires 2 * m.ngroups <= n && OnBoundaries(m.inp, s, n)
    ensures OnBoundaries(m.inp, Step(m, s), n)
  {
    match s
    case Run(pc, pos, words, stk) =>
      var i := m.fetch(pc);
      hide Exec, WordsOk, StackOk;
      if pos <= |m.inp.units| && i.Some? { ExecKeeps(m, i.value, pc + Size(i.value), pos, words, stk, n); }
    case _ =>
  }

  /** So no run from a boundary ever leaves them. */
  lemma {:induction false} RunKeepsBoundaries(m: Machine, s: State, k: nat, n: nat)
    requires 2 * m.ngroups <= n && OnBoundaries(m.inp, s, n)
    ensures OnBoundaries(m.inp, Iter(m, k, s), n)
    decreases k
  {
    hide Step, OnBoundaries;
    if k > 0 {
      StepKeepsBoundaries(m, s, n);
      RunKeepsBoundaries(m, Step(m, s), k - 1, n);
    }
  }
}
