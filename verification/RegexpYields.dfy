/** A run of the machine delivers outcomes: it stops at an exit with the first
    one, and each time it gives up afterwards it comes back with the next, until
    it gives up on the stack it started with. */
module RegexpYields {
  import opened RegexpSemantics
  import opened RegexpMachine

  /** Slots of one group against the group of the pattern state. */
  ghost predicate SlotMatches(start: Word, end: Word, c: Option<Span>) {
    match c
    case None => start == Null && end == Null
    case Some(s) => start == Pos(s.start) && end == Pos(s.end)
  }

  /** The capture array represents `x`. A group in `open` is being matched: only
      one of its slots is set. Nothing is known of a group in `stale`: its slots
      are left over from the previous iteration of a straight-line atom. */
  ghost predicate SlotsAgree(words: Words, x: St, open: set<nat>, stale: set<nat>) {
    && 2 * |x.caps| <= |words|
    && forall g {:trigger x.caps[g]} :: 0 <= g < |x.caps| && g !in stale ==>
         if g in open then x.caps[g] == None && !(words[2 * g].Pos? && words[2 * g + 1].Pos?)
         else SlotMatches(words[2 * g], words[2 * g + 1], x.caps[g])
  }

  /** Only groups in [lo, hi) and registers from `d` on may differ. */
  ghost predicate Untouched(w0: Words, w1: Words, ngroups: nat, lo: nat, hi: nat, d: nat) {
    && |w1| == |w0|
    && forall k {:trigger w1[k]} :: 0 <= k < |w0| && k < 2 * ngroups + d && !(2 * lo <= k < 2 * hi) ==> w1[k] == w0[k]
  }

  datatype Goal = Goal(exit: nat, open: set<nat>, stale: set<nat>, words0: Words, lo: nat, hi: nat, d: nat)

  ghost predicate Arrives(m: Machine, g: Goal, y: St, w: Words) {
    && ValidSt(m.inp, y) && |y.caps| == m.ngroups
    && SlotsAgree(w, y, g.open, g.stale)
    && Untouched(g.words0, w, m.ngroups, g.lo, g.hi, g.d)
  }

  ghost predicate AllSplit(t: Stack) {
    forall i :: 0 <= i < |t| ==> t[i].kind == KSplit
  }

  ghost predicate Yields(m: Machine, s: State, g: Goal, ys: seq<St>, stk: Stack)
    decreases |ys|, 1
  {
    if ys == [] then Reaches(m, s, State.Back(stk))
    else exists w: Words, t: Stack :: YieldsAs(m, s, g, ys, stk, w, t)
  }

  ghost predicate YieldsAs(m: Machine, s: State, g: Goal, ys: seq<St>, stk: Stack, w: Words, t: Stack)
    requires ys != []
    decreases |ys|, 0
  {
    && AllSplit(t)
    && Arrives(m, g, ys[0], w)
    && Reaches(m, s, Run(g.exit, ys[0].pos, w, stk + t))
    && Yields(m, State.Back(stk + t), g, ys[1..], stk)
  }

  /** What one goal accepts the other accepts. */
  ghost predicate Weaker(m: Machine, g1: Goal, g2: Goal) {
    g1.exit == g2.exit && forall y: St, w: Words :: Arrives(m, g1, y, w) ==> Arrives(m, g2, y, w)
  }

  lemma YieldsReach(m: Machine, a: State, b: State, g: Goal, ys: seq<St>, stk: Stack)
    requires Reaches(m, a, b) && Yields(m, b, g, ys, stk)
    ensures Yields(m, a, g, ys, stk)
  {
    if ys == [] {
      ReachesTrans(m, a, b, State.Back(stk));
    } else {
      var w, t :| YieldsAs(m, b, g, ys, stk, w, t);
      ReachesTrans(m, a, b, Run(g.exit, ys[0].pos, w, stk + t));
      assert YieldsAs(m, a, g, ys, stk, w, t);
    }
  }

  lemma YieldsNone(m: Machine, s: State, g: Goal, stk: Stack)
    requires Reaches(m, s, State.Back(stk))
    ensures Yields(m, s, g, [], stk)
  {
  }

  lemma YieldsOne(m: Machine, s: State, g: Goal, y: St, w: Words, stk: Stack)
    requires Reaches(m, s, Run(g.exit, y.pos, w, stk)) && Arrives(m, g, y, w)
    ensures Yields(m, s, g, [y], stk)
  {
    ReachesSelf(m, State.Back(stk));
    assert stk + [] == stk;
    assert Yields(m, State.Back(stk + []), g, [y][1..], stk);
    assert YieldsAs(m, s, g, [y], stk, w, []);
  }

  /** First the outcome `y`, leaving the choice points `t`, then `zs`. */
  lemma YieldsFirst(m: Machine, s: State, g: Goal, y: St, w: Words, t: Stack, zs: seq<St>, stk: Stack)
    requires AllSplit(t) && Arrives(m, g, y, w)
    requires Reaches(m, s, Run(g.exit, y.pos, w, stk + t))
    requires Yields(m, State.Back(stk + t), g, zs, stk)
    ensures Yields(m, s, g, [y] + zs, stk)
  {
    assert ([y] + zs)[1..] == zs;
    assert YieldsAs(m, s, g, [y] + zs, stk, w, t);
  }

  lemma {:induction false} YieldsWeaken(m: Machine, s: State, g1: Goal, g2: Goal, ys: seq<St>, stk: Stack)
    requires Weaker(m, g1, g2) && Yields(m, s, g1, ys, stk)
    ensures Yields(m, s, g2, ys, stk)
    decreases |ys|
  {
    if ys != [] {
      var w, t :| YieldsAs(m, s, g1, ys, stk, w, t);
      YieldsWeaken(m, State.Back(stk + t), g1, g2, ys[1..], stk);
      assert Arrives(m, g2, ys[0], w);
      assert YieldsAs(m, s, g2, ys, stk, w, t);
    }
  }

  /** When the outcomes on a higher stack are exhausted, those of the choice
      points underneath follow. */
  lemma {:induction false} YieldsAppend(m: Machine, s: State, g: Goal, ys: seq<St>, zs: seq<St>, stk: Stack, t: Stack)
    requires AllSplit(t)
    requires Yields(m, s, g, ys, stk + t)
    requires Yields(m, State.Back(stk + t), g, zs, stk)
    ensures Yields(m, s, g, ys + zs, stk)
    decreases |ys|
  {
    if ys == [] {
      assert ys + zs == zs;
      YieldsReach(m, s, State.Back(stk + t), g, zs, stk);
    } else {
      var w, t1 :| YieldsAs(m, s, g, ys, stk + t, w, t1);
      assert stk + t + t1 == stk + (t + t1);
      YieldsAppend(m, State.Back(stk + t + t1), g, ys[1..], zs, stk, t);
      assert ys == [ys[0]] + ys[1..];
      YieldsFirst(m, s, g, ys[0], w, t + t1, ys[1..] + zs, stk);
      assert ys + zs == [ys[0]] + (ys[1..] + zs);
    }
  }
}
