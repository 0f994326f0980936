/** lre_exec_backtrack and lre_exec: one capture array, one stack buffer, and
    the registers pc, cptr, sp and bp, all updated in place.

    Every method is specified by the snapshots its stack stands for, so the
    loop as a whole runs through the states of RegexpMachine. */
module RegexpExec {
  import opened RegexpInput
  import opened RegexpSemantics
  import opened RegexpInstr
  import opened RegexpClass
  import opened RegexpBytecode
  import opened RegexpMachine
  import opened RegexpUndo

  /** How one pass through the switch ends: `break`, `goto no_match`, `return 1`. */
  datatype Outcome = Continue | GoNoMatch | ReturnMatch

  /** What no_match does to a stack of snapshots. */
  function Resume(stk: Stack): (r: State)
    ensures r.Run? || r == Failed
    decreases |stk|
  {
    if stk == [] then Failed
    else
      var f := stk[|stk| - 1];
      if f.kind == KLook then Resume(stk[..|stk| - 1]) else Run(f.pc, f.pos, f.words, stk[..|stk| - 1])
  }

  lemma ResumeTop(stk: Stack, f: Frame)
    ensures Resume(stk + [f]) == if f.kind == KLook then Resume(stk) else Run(f.pc, f.pos, f.words, stk)
  {
    assert (stk + [f])[..|stk|] == stk;
  }

  predicate Halted(s: State) {
    s.Matched? || s == Failed
  }

  /** The machine halts in `end` after at most `k` steps. */
  ghost predicate Ends(m: Machine, s: State, k: nat, end: State) {
    Iter(m, k, s) == end && Halted(end)
  }

  lemma EndsStep(m: Machine, s: State, k: nat, end: State)
    requires Ends(m, s, k, end) && !Halted(s)
    ensures k > 0 && Ends(m, Step(m, s), k - 1, end) && s != Stuck && Step(m, s) != Stuck
  {
    if s == Stuck { StuckForever(m, k); }
    if Step(m, s) == Stuck { StuckForever(m, k - 1); }
  }

  lemma {:induction false} StuckForever(m: Machine, k: nat)
    ensures Iter(m, k, Stuck) == Stuck
  {
    if k > 0 { StuckForever(m, k - 1); }
  }

  lemma {:induction false} EndsResume(m: Machine, stk: Stack, k: nat, end: State) returns (j: nat)
    requires Ends(m, State.Back(stk), k, end)
    ensures j < k && Ends(m, Resume(stk), j, end)
    decreases |stk|
  {
    EndsStep(m, State.Back(stk), k, end);
    j := k - 1;
    if stk != [] && stk[|stk| - 1].kind == KLook {
      j := EndsResume(m, stk[..|stk| - 1], k - 1, end);
    }
  }

  lemma {:induction false} HaltedForever(m: Machine, s: State, k: nat)
    requires Halted(s)
    ensures Iter(m, k, s) == s
  {
    if k > 0 { HaltedForever(m, s, k - 1); }
  }

  class Executor {
    const inp: Input
    const code: seq<byte>
    const captureCount: nat
    const capture: array<Word>
    var stack: seq<Elem>
    var sp: nat
    var bp: nat
    var pc: nat
    var pos: nat

    ghost predicate Valid()
      reads this
    {
      sp <= |stack| && Stacked(stack[..sp], bp, capture.Length) && 2 * captureCount <= capture.Length
    }

    /** The snapshots the stack stands for. */
    ghost function Choices(): Stack
      reads this, capture
      requires Valid()
    {
      Frames(stack[..sp], bp, capture[..])
    }

    ghost function Engine(): Machine {
      Machine(Fetcher(code), inp, captureCount)
    }

    /** The state of the snapshot machine this object is in. */
    ghost function Snapshot(): State
      reads this, capture
      requires Valid()
    {
      Run(pc, pos, capture[..], Choices())
    }

    /** The object after one pass through the switch, as the machine sees it. */
    ghost predicate Shows(s: State, r: Outcome)
      reads this, capture
      requires Valid()
    {
      match s
      case Run(_, _, _, _) => r == Continue && Snapshot() == s
      case Back(stk) => r == GoNoMatch && Choices() == stk
      case Matched(words) => r == ReturnMatch && capture[..] == words
      case _ => false
    }

    constructor (inp: Input, code: seq<byte>, captureCount: nat, capture: array<Word>, pos: nat)
      requires 2 * captureCount <= capture.Length
      ensures this.inp == inp && this.code == code && this.captureCount == captureCount && this.capture == capture
      ensures Valid() && Snapshot() == Run(0, pos, capture[..], [])
    {
      this.inp := inp;
      this.code := code;
      this.captureCount := captureCount;
      this.capture := capture;
      this.stack := [];
      this.sp := 0;
      this.bp := 0;
      this.pc := 0;
      this.pos := pos;
    }

    // ----- the stack ----------------------------------------------------------

    /** `*sp++ = e`; the buffer grows when it is full (stack_realloc). */
    method Push(e: Elem)
      requires sp <= |stack|
      modifies this`stack, this`sp
      ensures sp == old(sp) + 1 <= |stack| && stack[..sp] == old(stack[..sp]) + [e]
    {
      if sp < |stack| {
        stack := stack[sp := e];
      } else {
        stack := stack + [e];
      }
      sp := sp + 1;
    }

    /** A new choice point: continue at `pc1` from here. */
    method PushFrame(pc1: nat, kind: Kind)
      requires Valid()
      modifies this`stack, this`sp, this`bp
      ensures Valid() && Choices() == old(Choices()) + [Frame(pc1, pos, capture[..], kind)]
    {
      hide Frames, Stacked;
      PushedFrame(stack[..sp], bp, capture[..], pc1, pos, kind);
      ghost var st := stack[..sp];
      Push(Pc(pc1));
      Push(Cp(pos));
      Push(Bp(bp, kind));
      assert stack[..sp] == st + [Pc(pc1), Cp(pos), Bp(bp, kind)];
      bp := sp;
    }

    /** SAVE_CAPTURE */
    method SaveCapture(k: nat, v: Word)
      requires Valid() && k < capture.Length
      modifies this`stack, this`sp, capture
      ensures Valid() && Choices() == old(Choices()) && capture[..] == old(capture[..])[k := v]
    {
      hide Frames, Stacked;
      SavedWord(stack[..sp], bp, capture[..], k, v);
      ghost var st := stack[..sp];
      Push(Idx(k));
      Push(Old(capture[k]));
      assert stack[..sp] == st + [Idx(k), Old(capture[k])];
      capture[k] := v;
    }

    /** SAVE_CAPTURE_CHECK */
    method SaveCaptureCheck(k: nat, v: Word)
      requires Valid() && k < capture.Length
      modifies this`stack, this`sp, capture
      ensures Valid() && Choices() == old(Choices()) && capture[..] == old(capture[..])[k := v]
    {
      hide Frames, Stacked;
      StackedPairs(stack[..sp], bp, capture.Length);
      ghost var log := stack[..sp][bp..];
      assert log[..sp - bp] == log;
      var sp1 := sp;
      while sp1 > bp && stack[sp1 - 2] != Idx(k)
        invariant bp <= sp1 <= sp <= |stack| && (sp - sp1) % 2 == 0 && (sp - bp) % 2 == 0
        invariant Logged(log, k) <==> Logged(log[..sp1 - bp], k)
      {
        assert log[..sp1 - bp][..sp1 - bp - 2] == log[..sp1 - 2 - bp];
        assert log[..sp1 - bp][sp1 - bp - 2] == stack[sp1 - 2];
        sp1 := sp1 - 2;
      }
      if sp1 > bp {
        assert log[..sp1 - bp][sp1 - bp - 2] == stack[sp1 - 2];
        SavedOnce(stack[..sp], bp, capture[..], k, v);
        capture[k] := v;
      } else {
        SaveCapture(k, v);
      }
    }

    /** `while (sp > bp)` undo */
    method UndoToBp()
      requires Valid()
      modifies this`sp, capture
      ensures Valid() && sp == bp && Choices() == old(Choices())
      ensures stack[..bp] == old(stack[..bp])
      ensures capture[..] == old(Undo(stack[..sp][bp..], capture[..]))
    {
      hide Frames, Stacked;
      StackedPairs(stack[..sp], bp, capture.Length);
      ghost var log, words := stack[..sp][bp..], capture[..];
      while sp > bp
        invariant bp <= sp <= old(sp) && Pairs(stack[..sp][bp..], capture.Length)
        invariant Undo(stack[..sp][bp..], capture[..]) == Undo(log, words)
      {
        ghost var top := stack[..sp][bp..];
        PairsPrefix(top, capture.Length);
        assert top[|top| - 2] == stack[sp - 2] && top[|top| - 1] == stack[sp - 1];
        ghost var before := capture[..];
        capture[stack[sp - 2].k] := stack[sp - 1].w;
        assert capture[..] == before[top[|top| - 2].k := top[|top| - 1].w];
        sp := sp - 2;
        assert stack[..sp][bp..] == top[..|top| - 2];
      }
      assert stack[..sp][bp..] == [];
      assert stack[..sp][..bp] == old(stack[..sp])[..bp];
      LogReplaced(old(stack[..sp]), bp, words, stack[..sp], capture[..]);
    }

    /** Leave the innermost choice point, at the state it was made in. */
    method PopFrame() returns (kind: Kind)
      requires Valid() && bp != 0
      modifies this`pc, this`pos, this`sp, this`bp, capture
      ensures Valid()
      ensures bp < old(bp)
      ensures old(Choices()) == Choices() + [Frame(pc, pos, capture[..], kind)]
    {
      hide Frames, Stacked, Pairs, Undo;
      UndoToBp();
      ghost var st := stack[..sp];
      Top(st, bp, capture[..]);
      assert Undo(st[bp..], capture[..]) == capture[..] by { NothingToUndo(st[bp..], capture[..]); }
      assert stack[..sp - 3] == st[..bp - 3];
      assert stack[sp - 3] == st[bp - 3] && stack[sp - 2] == st[bp - 2] && stack[sp - 1] == st[bp - 1];
      pc := stack[sp - 3].pc;
      pos := stack[sp - 2].pos;
      kind := stack[sp - 1].kind;
      bp := stack[sp - 1].bp;
      sp := sp - 3;
    }

    // ----- backtracking -------------------------------------------------------

    /** no_match: resume at the innermost choice point that is not a lookahead. */
    method NoMatch() returns (more: bool)
      requires Valid()
      modifies this`pc, this`pos, this`sp, this`bp, capture
      ensures Valid()
      ensures if more then Snapshot() == old(Resume(Choices())) else old(Resume(Choices())) == Failed
    {
      hide Frames, Stacked, Resume;
      ghost var all := Resume(Choices());
      while true
        invariant Valid() && Resume(Choices()) == all
        decreases bp
      {
        if bp == 0 {
          assert Choices() == [] by { NoFrames(stack[..sp], capture[..]); }
          assert all == Failed by { ResumeNothing(); }
          return false;
        }
        ghost var was := Choices();
        var kind := PopFrame();
        ResumeTop(Choices(), Frame(pc, pos, capture[..], kind));
        if kind != KLook {
          return true;
        }
      }
    }

    /** lookahead_match: leave the lookahead but keep what it captured. The
        choice points above it are removed while sp and bp walk down, each Bp
        being overwritten by a link upward; then the undo pairs are copied down
        along these links. */
    method LookaheadMatch()
      requires Valid() && Innermost(Choices(), KLook).Some?
      modifies this`pc, this`pos, this`sp, this`bp, this`stack
      ensures Valid()
      ensures var fs := old(Choices()); var k := Innermost(fs, KLook).value;
              Snapshot() == Run(fs[k].pc, fs[k].pos, old(capture[..]), fs[..k])
    {
      hide Frames, Stacked, Pairs, Undo, Innermost, Collected;
      ghost var st0, bp0, n := stack[..sp], bp, capture.Length;
      LookIsInnermost(st0, bp, capture[..]);
      Unwound(st0, bp, capture[..]);
      ghost var base, low, log := LookBase(st0, bp, n), LookBp(st0, bp, n), Gathered(st0, bp, n);
      var top := sp;
      UnwindToLook(st0, top);
      assert stack[..sp] == st0[..base];
      assert pc == st0[base].pc && pos == st0[base + 1].pos && bp == low;
      if sp != 0 {
        CopyDown(top, st0[..base], log);
        assert stack[..sp] == st0[..base] + log;
      }
      Compacted(st0, bp0, capture[..], stack[..sp]);
    }

    /** The first loop of lookahead_match. */
    method UnwindToLook(ghost st0: Elems, top: nat)
      requires Valid() && st0 == stack[..sp] && top == sp && HasLook(st0, bp, capture.Length)
      modifies this`pc, this`pos, this`sp, this`bp, this`stack
      ensures |stack| == old(|stack|)
      ensures sp == LookBase(st0, old(bp), capture.Length) && bp == LookBp(st0, old(bp), capture.Length)
      ensures stack[..sp] == st0[..sp] && st0[sp].Pc? && pc == st0[sp].pc && st0[sp + 1].Cp? && pos == st0[sp + 1].pos
      ensures Chained(stack, sp, top) && Collected(stack, sp, top) == Gathered(st0, old(bp), capture.Length)
    {
      hide Stacked, HasLook, LookBase, LookBp, Gathered, Collected, Chained;
      ghost var n := capture.Length;
      assert Chained(stack, sp, top) && Collected(stack, sp, top) == [] by { EmptyChain(stack, top); }
      while true
        invariant |stack| == old(|stack|) && sp <= top <= |stack| && stack[..sp] == st0[..sp]
        invariant Stacked(stack[..sp], bp, n) && HasLook(stack[..sp], bp, n)
        invariant LookBase(stack[..sp], bp, n) == LookBase(st0, old(bp), n)
        invariant LookBp(stack[..sp], bp, n) == LookBp(st0, old(bp), n)
        invariant Chained(stack, sp, top)
        invariant Gathered(stack[..sp], bp, n) + Collected(stack, sp, top) == Gathered(st0, old(bp), n)
        decreases bp
      {
        var sp1 := sp;
        UnwindOnce(stack, sp, bp, top, n);
        sp := bp;
        pc := stack[sp - 3].pc;
        pos := stack[sp - 2].pos;
        var kind := stack[sp - 1].kind;
        bp := stack[sp - 1].bp;
        assert stack[..sp - 1] == st0[..sp - 1];
        stack := stack[sp - 1 := Link(sp1)];
        sp := sp - 3;
        if kind == KLook {
          break;
        }
      }
    }

    /** The inner loop: the pairs of one removed choice point move down. */
    method CopyPairs(from: nat, next: nat, ghost top: nat)
      requires sp < from <= next <= |stack| && Chained(stack, next, top)
      modifies this`sp, this`stack
      ensures sp <= next <= |stack| && Chained(stack, next, top)
              && Collected(stack, next, top) == old(Collected(stack, next, top))
      ensures stack[..sp] == old(stack[..sp] + stack[from..next])
    {
      hide Chained, Collected;
      ghost var all, rest := stack[..sp] + stack[from..next], Collected(stack, next, top);
      var sp1 := from;
      while sp1 < next
        invariant sp < sp1 <= next <= |stack| && Chained(stack, next, top) && Collected(stack, next, top) == rest
        invariant stack[..sp] + stack[sp1..next] == all
      {
        CopyOnce(stack, sp, sp1, next, top);
        stack := stack[sp := stack[sp1]];
        sp, sp1 := sp + 1, sp1 + 1;
      }
      assert stack[..sp] + stack[sp1..next] == stack[..sp];
    }

    /** The second loop: copy the undo pairs down over the gaps. */
    method CopyDown(top: nat, ghost below: Elems, ghost log: Elems)
      requires sp <= top <= |stack| && Chained(stack, sp, top) && stack[..sp] == below
               && Collected(stack, sp, top) == log
      modifies this`sp, this`stack
      ensures sp <= |stack| && stack[..sp] == below + log
    {
      hide Chained, Collected;
      var sp1 := sp;
      while sp1 < top
        invariant sp <= sp1 <= |stack| && Chained(stack, sp1, top)
        invariant stack[..sp] + Collected(stack, sp1, top) == below + log
        decreases top - sp1
      {
        ChainTop(stack, sp1, top);
        var next := stack[sp1 + 2].p;
        sp1 := sp1 + 3;
        ghost var rest := Collected(stack, next, top);
        assert stack[..sp] + (stack[sp1..next] + rest) == (stack[..sp] + stack[sp1..next]) + rest;
        CopyPairs(sp1, next, top);
        sp1 := next;
      }
      ChainTop(stack, sp1, top);
      assert stack[..sp] + [] == stack[..sp];
    }

    /** negative_lookahead_match up to `goto no_match`: drop everything above
        the negative lookahead, and the lookahead itself, undoing all of it. */
    method NegativeLookaheadMatch()
      requires Valid() && Innermost(Choices(), KNegLook).Some?
      modifies this`pc, this`pos, this`sp, this`bp, capture
      ensures Valid()
      ensures var fs := old(Choices()); Choices() == fs[..Innermost(fs, KNegLook).value]
    {
      hide Frames, Stacked, Innermost;
      ghost var fs := Choices();
      ghost var k := Innermost(fs, KNegLook).value;
      while true
        invariant Valid() && Innermost(Choices(), KNegLook) == Some(k) && k <= |Choices()| && Choices()[..k] == fs[..k]
        decreases bp
      {
        ghost var was := Choices();
        assert bp != 0 by {
          if bp == 0 { NoFrames(stack[..sp], capture[..]); InnermostNothing(KNegLook); }
        }
        var kind := PopFrame();
        InnermostTop(Choices(), Frame(pc, pos, capture[..], kind), KNegLook);
        if kind == KNegLook {
          assert was[..k] == Choices();
          break;
        }
        InnermostBelow(Choices(), KNegLook);
        assert was[..k] == Choices()[..k];
      }
    }

    // ----- instructions; pc is already past the operands ------------------------

    /** The binary search of REOP_range and REOP_range32. */
    method SearchRange(pairs: seq<(nat, nat)>, c: nat) returns (found: bool)
      requires pairs != [] && pairs[0].0 <= c
      ensures found == Search(pairs, c, 0, |pairs| - 1)
    {
      hide Search;
      var idxMin: nat, idxMax: nat := 0, |pairs| - 1;
      while idxMin <= idxMax
        invariant idxMax < |pairs|
        invariant Search(pairs, c, idxMin, idxMax) == Search(pairs, c, 0, |pairs| - 1)
        decreases idxMax + 1 - idxMin
      {
        SearchStep(pairs, c, idxMin, idxMax);
        var idx := (idxMin + idxMax) / 2;
        if c < pairs[idx].0 {
          idxMax := idx - 1;
        } else if c > pairs[idx].1 {
          idxMin := idx + 1;
        } else {
          return true;
        }
      }
      SearchStep(pairs, c, idxMin, idxMax);
      return false;
    }

    method TestRange(pairs: seq<(nat, nat)>, c: nat, wide: bool) returns (found: bool)
      requires pairs != []
      ensures found == if wide then Find32(pairs, c) else Find16(pairs, c)
    {
      hide Search;
      if c < pairs[0].0 {
        return false;
      }
      var high := pairs[|pairs| - 1].1;
      if !wide && c >= 0xffff && high == 0xffff {
        return true;
      }
      if c > high {
        return false;
      }
      found := SearchRange(pairs, c);
    }

    /** char, char32, dot, any, range, range32 */
    method ExecCharTest(i: Instr) returns (r: Outcome)
      requires Valid() && pos <= |inp.units|
      requires i.IChar? || i.IChar32? || i.IDot? || i.IAny? || i.IRange? || i.IRange32?
      requires StepCharTest(Engine(), i, pc, pos, capture[..], Choices()) != Stuck
      modifies this`pos
      ensures Valid() && Shows(old(StepCharTest(Engine(), i, pc, pos, capture[..], Choices())), r)
    {
      hide Frames, Stacked, Find16, Find32, IsLineTerminator;
      if pos >= |inp.units| {
        return GoNoMatch;
      }
      var c := CharAt(inp, pos, |inp.units|);
      pos := Next(inp, pos, |inp.units|);
      var accept := true;
      if i.IChar? || i.IChar32? {
        accept := c == i.c;
      } else if i.IDot? {
        accept := !IsLineTerminator(c);
      } else if i.IRange? {
        accept := TestRange(i.pairs, c, false);
      } else if i.IRange32? {
        accept := TestRange(i.pairs, c, true);
      }
      r := if accept then Continue else GoNoMatch;
    }

    /** split_goto_first, split_next_first */
    method ExecSplit(nextFirst: bool, off: int) returns (r: Outcome)
      requires Valid() && pc + off >= 0
      modifies this`stack, this`sp, this`bp, this`pc
      ensures Valid() && Shows(old(Fork(nextFirst, pc, pc + off, pos, capture[..], Choices())), r)
    {
      hide Frames, Stacked;
      var pc1: nat;
      if nextFirst {
        pc1 := pc + off;
      } else {
        pc1 := pc;
        pc := pc + off;
      }
      PushFrame(pc1, KSplit);
      r := Continue;
    }

    /** save_reset */
    method ExecSaveReset(first: nat, last: nat)
      requires Valid() && last < captureCount
      modifies this`stack, this`sp, capture
      ensures Valid() && Choices() == old(Choices())
      ensures capture[..] == old(ResetWords(capture[..], 2 * first, 2 * last + 2))
    {
      hide Frames, Stacked;
      ghost var words := capture[..];
      var val := first;
      while val <= last
        invariant Valid() && Choices() == old(Choices())
        invariant first <= val && (val <= last + 1 || val == first)
        invariant capture[..] == ResetWords(words, 2 * first, 2 * val)
        decreases last + 1 - val
      {
        SaveCapture(2 * val, Null);
        SaveCapture(2 * val + 1, Null);
        val := val + 1;
      }
      assert capture[..] == ResetWords(words, 2 * first, 2 * last + 2);
    }

    /** loop, and the four forms of loop_split */
    method ExecLoop(i: Instr) returns (r: Outcome)
      requires Valid() && (i.ILoop? || i.ILoopSplit?)
      requires StepLoop(Engine(), i, pc, pos, capture[..], Choices()) != Stuck
      modifies this`stack, this`sp, this`bp, this`pc, capture
      ensures Valid() && Shows(old(StepLoop(Engine(), i, pc, pos, capture[..], Choices())), r)
    {
      hide Frames, Stacked;
      var idx := 2 * captureCount + i.reg;
      var val2 := capture[idx].n - 1;
      SaveCaptureCheck(idx, Cnt(val2));
      if i.ILoop? {
        if val2 != 0 {
          pc := pc + i.off;
        }
        return Continue;
      }
      if val2 > i.limit {
        pc := pc + i.off;
        return Continue;
      }
      if i.check && capture[idx + 1] == Pos(pos) && val2 != i.limit {
        return GoNoMatch;
      }
      if val2 != 0 {
        r := ExecSplit(i.nextFirst, i.off);
      } else {
        r := Continue;
      }
    }

    /** The comparison loops of back_reference and backward_back_reference. */
    method CompareText(lo: nat, hi: nat, back: bool) returns (ok: bool)
      requires hi <= |inp.units| && pos <= |inp.units|
      modifies this`pos
      ensures if lo >= hi then ok && pos == old(pos)
              else RefEnd(inp, lo, hi, back, old(pos)) == if ok then Some(pos) else None
    {
      if lo >= hi {
        return true;
      }
      if !back {
        var p := lo;
        while p < hi
          invariant lo <= p <= hi && pos <= |inp.units|
          invariant RefEnd(inp, p, hi, back, pos) == RefEnd(inp, lo, hi, back, old(pos))
          decreases hi - p
        {
          if pos >= |inp.units| {
            return false;
          }
          var c1, c2 := CharAt(inp, p, hi), CharAt(inp, pos, |inp.units|);
          p, pos := Next(inp, p, hi), Next(inp, pos, |inp.units|);
          if c1 != c2 {
            return false;
          }
        }
      } else {
        var p := hi;
        while p > lo
          invariant lo <= p <= hi && pos <= |inp.units|
          invariant RefEnd(inp, lo, p, back, pos) == RefEnd(inp, lo, hi, back, old(pos))
          decreases p
        {
          if pos == 0 {
            return false;
          }
          var p1, pos1 := Prev(inp, p, lo), Prev(inp, pos, 0);
          var c1, c2 := CharAt(inp, p1, p), CharAt(inp, pos1, pos);
          p, pos := p1, pos1;
          if c1 != c2 {
            return false;
          }
        }
      }
      return true;
    }

    /** back_reference, backward_back_reference */
    method ExecBackRef(back: bool, groups: seq<nat>) returns (r: Outcome)
      requires Valid() && pos <= |inp.units|
      requires StepRef(Engine(), back, groups, pc, pos, capture[..], Choices()) != Stuck
      modifies this`pos
      ensures Valid() && Shows(old(StepRef(Engine(), back, groups, pc, pos, capture[..], Choices())), r)
    {
      hide Frames, Stacked, RefEnd;
      ghost var words, stk := capture[..], Choices();
      var i := 0;
      assert groups[0..] == groups;
      while i < |groups|
        invariant i <= |groups| && pos == old(pos)
        invariant StepRef(Engine(), back, groups[i..], pc, pos, words, stk)
                  == StepRef(Engine(), back, groups, pc, pos, words, stk)
      {
        var val := groups[i];
        assert groups[i..][0] == val && groups[i..][1..] == groups[i + 1..];
        if val >= captureCount {
          return GoNoMatch;
        }
        var from, end := capture[2 * val], capture[2 * val + 1];
        if from.Pos? && end.Pos? {
          var ok := CompareText(from.p, end.p, back);
          return if ok then Continue else GoNoMatch;
        }
        i := i + 1;
      }
      r := Continue;
    }

    /** line_start, line_end, word_boundary */
    method ExecAssert(kind: AssertKind) returns (r: Outcome)
      requires pos <= |inp.units|
      ensures r == if Holds(inp, kind, pos) then Continue else GoNoMatch
    {
      match kind
      case LineStart(m) =>
        if pos == 0 {
          return Continue;
        }
        if !m {
          return GoNoMatch;
        }
        var c := CharAt(inp, Prev(inp, pos, 0), pos);
        r := if IsLineTerminator(c) then Continue else GoNoMatch;
      case LineEnd(m) =>
        if pos == |inp.units| {
          return Continue;
        }
        if !m {
          return GoNoMatch;
        }
        var c := CharAt(inp, pos, |inp.units|);
        r := if IsLineTerminator(c) then Continue else GoNoMatch;
      case WordBoundary(positive) =>
        var v1, v2 := false, false;
        if pos != 0 {
          var c := CharAt(inp, Prev(inp, pos, 0), pos);
          v1 := c < 256 && IsWordChar(c);
        }
        if pos < |inp.units| {
          var c := CharAt(inp, pos, |inp.units|);
          v2 := c < 256 && IsWordChar(c);
        }
        r := if (v1 != v2) != positive then GoNoMatch else Continue;
    }

    /** lookahead_match, negative_lookahead_match */
    method ExecLookMatch(negative: bool) returns (r: Outcome)
      requires Valid() && StepLookMatch(negative, capture[..], Choices()) != Stuck
      modifies this`pc, this`pos, this`sp, this`bp, this`stack, capture
      ensures Valid() && Shows(old(StepLookMatch(negative, capture[..], Choices())), r)
    {
      hide Frames, Stacked, Innermost;
      if negative {
        NegativeLookaheadMatch();
        r := GoNoMatch;
      } else {
        LookaheadMatch();
        r := Continue;
      }
    }

    /** The loops and registers that only write one word. */
    method ExecWord(i: Instr) returns (r: Outcome)
      requires Valid() && pos <= |inp.units| && (i.ISave? || i.ISet? || i.ISetPos?)
      requires Exec(Engine(), i, pc, pos, capture[..], Choices()) != Stuck
      modifies this`stack, this`sp, capture
      ensures Valid() && Shows(old(Exec(Engine(), i, pc, pos, capture[..], Choices())), r)
    {
      hide Frames, Stacked;
      if i.ISave? {
        SaveCapture(2 * i.group + if i.end then 1 else 0, Pos(pos));
      } else if i.ISet? {
        SaveCaptureCheck(2 * captureCount + i.reg, Cnt(i.val));
      } else {
        SaveCaptureCheck(2 * captureCount + i.reg, Pos(pos));
      }
      r := Continue;
    }

    /** One pass through the switch. */
    method ExecOne(i: Instr) returns (r: Outcome)
      requires Valid() && pos <= |inp.units|
      requires Exec(Engine(), i, pc, pos, capture[..], Choices()) != Stuck
      modifies this`pc, this`pos, this`sp, this`bp, this`stack, capture
      ensures Valid() && Shows(old(Exec(Engine(), i, pc, pos, capture[..], Choices())), r)
    {
      hide Frames, Stacked, StepCharTest, StepLoop, StepRef, StepLookMatch, Holds, ResetWords, Fork;
      if i.IMatch? {
        r := ReturnMatch;
      } else if i.ILookMatch? {
        r := ExecLookMatch(i.negative);
      } else if i.IChar? || i.IChar32? || i.IDot? || i.IAny? || i.IRange? || i.IRange32? {
        r := ExecCharTest(i);
      } else if i.ISplit? {
        assert pc + i.off >= 0 by { ForkTarget(i.nextFirst, pc, pc + i.off, pos, capture[..], Choices()); }
        r := ExecSplit(i.nextFirst, i.off);
      } else if i.ILook? {
        PushFrame(pc + i.off, if i.negative then KNegLook else KLook);
        r := Continue;
      } else if i.IGoto? {
        pc := pc + i.off;
        r := Continue;
      } else if i.IAssert? {
        r := ExecAssert(i.kind);
      } else if i.ISave? || i.ISet? || i.ISetPos? {
        r := ExecWord(i);
      } else if i.IReset? {
        ExecSaveReset(i.first, i.last);
        r := Continue;
      } else if i.ILoop? || i.ILoopSplit? {
        r := ExecLoop(i);
      } else if i.ICheckAdv? {
        r := if capture[2 * captureCount + i.reg] == Pos(pos) then GoNoMatch else Continue;
      } else if i.IBackRef? {
        r := ExecBackRef(i.back, i.groups);
      } else {
        if pos == 0 {
          return GoNoMatch;
        }
        pos := Prev(inp, pos, 0);
        r := Continue;
      }
    }

    /** lre_exec_backtrack: it halts where the snapshot machine halts, and never
        meets an opcode, index or jump the machine would reject. */
    method Backtrack(ghost k: nat, ghost end: State) returns (matched: bool)
      requires Valid() && Ends(Engine(), Snapshot(), k, end)
      modifies this`pc, this`pos, this`sp, this`bp, this`stack, capture
      ensures Valid()
      ensures end == if matched then Matched(capture[..]) else Failed
    {
      hide Frames, Stacked, Exec, Iter, Resume;
      ghost var left := k;
      while true
        invariant Valid() && Ends(Engine(), Snapshot(), left, end)
        decreases left
      {
        ghost var s := Snapshot();
        EndsStep(Engine(), s, left, end);
        left := left - 1;
        var i := Decode(code, pc);
        pc := pc + Size(i.value);
        var r := ExecOne(i.value);
        if r == ReturnMatch {
          HaltedForever(Engine(), Matched(capture[..]), left);
          return true;
        }
        if r == GoNoMatch {
          left := EndsResume(Engine(), Choices(), left, end);
          var more := NoMatch();
          if !more {
            HaltedForever(Engine(), Failed, left);
            return false;
          }
        }
      }
    }
  }

  lemma NothingToUndo(log: Elems, words: Words)
    requires log == []
    ensures Undo(log, words) == words
  {
  }

  lemma NoFrames(st: Elems, words: Words)
    requires Stacked(st, 0, |words|)
    ensures Frames(st, 0, words) == []
  {
  }

  lemma ForkTarget(nextFirst: bool, next: nat, target: int, pos: nat, words: Words, stk: Stack)
    requires Fork(nextFirst, next, target, pos, words, stk) != Stuck
    ensures target >= 0
  {
  }

  lemma SearchStep(pairs: seq<(nat, nat)>, c: nat, lo: nat, hi: nat)
    requires 0 < |pairs| && hi < |pairs| && pairs[0].0 <= c
    ensures lo > hi ==> !Search(pairs, c, lo, hi)
    ensures lo <= hi ==>
              var mid := (lo + hi) / 2;
              && lo <= mid <= hi && (c < pairs[mid].0 ==> mid > 0)
              && Search(pairs, c, lo, hi)
                 == if c < pairs[mid].0 then Search(pairs, c, lo, mid - 1)
                    else if c > pairs[mid].1 then Search(pairs, c, mid + 1, hi) else true
  {
  }

  lemma ResumeNothing()
    ensures Resume([]) == Failed
  {
  }

  lemma InnermostNothing(kind: Kind)
    ensures Innermost([], kind) == None
  {
  }

  lemma InnermostBelow(fs: Stack, kind: Kind)
    ensures Innermost(fs, kind).Some? ==> Innermost(fs, kind).value < |fs|
  {
  }

  lemma EmptyChain(st: Elems, top: nat)
    requires top <= |st|
    ensures Chained(st, top, top) && Collected(st, top, top) == []
  {
  }

  lemma ChainTop(st: Elems, p: nat, top: nat)
    requires Chained(st, p, top)
    ensures p <= top <= |st|
    ensures p == top ==> Collected(st, p, top) == []
    ensures p < top ==> p + 3 <= top && st[p + 2].Link? && p + 3 <= st[p + 2].p <= top && Chained(st, st[p + 2].p, top)
                        && Collected(st, p, top) == st[p + 3..st[p + 2].p] + Collected(st, st[p + 2].p, top)
  {
  }
}
