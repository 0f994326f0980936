/** The engine's real stack: choice points without snapshots, each followed by
    an undo log of the capture array. This file says which snapshots such a
    stack stands for, and that every way the engine writes to it is exact. */
module RegexpUndo {
  import opened RegexpSemantics
  import opened RegexpMachine

  /** A stack element is an untyped word; the constructor records its use. A
      choice point is Pc, Cp, Bp; an undo pair is Idx, Old. `Link` is what
      lookahead_match writes over a Bp while it unwinds. */
  datatype Elem =
    | Pc(pc: nat)
    | Cp(pos: nat)
    | Bp(bp: nat, kind: Kind)
    | Idx(k: nat)
    | Old(w: Word)
    | Link(p: nat)

  type Elems = seq<Elem>

  ghost predicate Pairs(log: Elems, n: nat) {
    && |log| % 2 == 0
    && forall j {:trigger log[2 * j]} :: 0 <= 2 * j < |log| ==>
       log[2 * j].Idx? && log[2 * j].k < n && log[2 * j + 1].Old?
  }

  /** Well-formed: `bp` is just above the innermost choice point, only undo
      pairs lie above it, and so on downward. */
  ghost predicate Stacked(st: Elems, bp: nat, n: nat)
    decreases |st|
  {
    && bp <= |st| && Pairs(st[bp..], n)
    && (bp == 0 ||
        (&& bp >= 3 && st[bp - 3].Pc? && st[bp - 2].Cp? && st[bp - 1].Bp?
         && st[bp - 1].bp <= bp - 3 && Stacked(st[..bp - 3], st[bp - 1].bp, n)))
  }

  /** Undoing a log, from its top down. */
  function Undo(log: Elems, words: Words): (r: Words)
    ensures |r| == |words|
    decreases |log|
  {
    if |log| < 2 then words
    else
      var i, o := log[|log| - 2], log[|log| - 1];
      Undo(log[..|log| - 2], if i.Idx? && i.k < |words| && o.Old? then words[i.k := o.w] else words)
  }

  /** The snapshots the stack stands for. */
  ghost function Frames(st: Elems, bp: nat, words: Words): Stack
    requires Stacked(st, bp, |words|)
    decreases |st|
  {
    if bp == 0 then []
    else
      var w0 := Undo(st[bp..], words);
      Frames(st[..bp - 3], st[bp - 1].bp, w0) + [Frame(st[bp - 3].pc, st[bp - 2].pos, w0, st[bp - 1].kind)]
  }

  /** A choice point's own words and what lies below depend only on `st[..bp]`. */
  lemma BelowSame(st: Elems, bp: nat, st1: Elems)
    requires 3 <= bp <= |st| && bp <= |st1| && st[..bp] == st1[..bp]
    ensures st[..bp - 3] == st1[..bp - 3]
    ensures st[bp - 1] == st1[bp - 1] && st[bp - 2] == st1[bp - 2] && st[bp - 3] == st1[bp - 3]
  {
    assert st[..bp - 3] == st[..bp][..bp - 3] == st1[..bp - 3];
    assert st[bp - 1] == st[..bp][bp - 1] && st[bp - 2] == st[..bp][bp - 2] && st[bp - 3] == st[..bp][bp - 3];
  }

  /** Only what the log restores matters to the choice points below it. */
  lemma FramesSame(st: Elems, bp: nat, words: Words, st1: Elems, words1: Words)
    requires Stacked(st, bp, |words|) && Stacked(st1, bp, |words1|) && |words| == |words1|
    requires st[..bp] == st1[..bp]
    requires Undo(st[bp..], words) == Undo(st1[bp..], words1)
    ensures Frames(st, bp, words) == Frames(st1, bp, words1)
  {
    hide Undo, Pairs;
    if bp != 0 {
      BelowSame(st, bp, st1);
    }
  }

  lemma StackedSame(st: Elems, bp: nat, n: nat, st1: Elems)
    requires Stacked(st, bp, n) && bp <= |st1| && st[..bp] == st1[..bp] && Pairs(st1[bp..], n)
    ensures Stacked(st1, bp, n)
  {
    hide Pairs;
    if bp != 0 {
      BelowSame(st, bp, st1);
    }
  }

  /** Another log above the same choice point. */
  lemma LogReplaced(st: Elems, bp: nat, words: Words, st1: Elems, words1: Words)
    requires Stacked(st, bp, |words|) && |words| == |words1|
    requires bp <= |st1| && st[..bp] == st1[..bp] && Pairs(st1[bp..], |words|)
    requires Undo(st[bp..], words) == Undo(st1[bp..], words1)
    ensures Stacked(st1, bp, |words1|) && Frames(st1, bp, words1) == Frames(st, bp, words)
  {
    hide Undo, Pairs, Frames, Stacked;
    StackedSame(st, bp, |words|, st1);
    FramesSame(st, bp, words, st1, words1);
  }

  lemma {:induction false} UndoAppend(a: Elems, b: Elems, words: Words)
    requires Pairs(b, |words|)
    ensures Undo(a + b, words) == Undo(a, Undo(b, words))
    decreases |b|
  {
    if b == [] {
      assert a + b == a;
    } else {
      var n := |b| - 2;
      assert b[2 * (n / 2)].Idx?;
      assert (a + b)[..|a + b| - 2] == a + b[..n];
      PairsPrefix(b, |words|);
      UndoAppend(a, b[..n], words[b[n].k := b[n + 1].w]);
    }
  }

  lemma PairsPrefix(log: Elems, n: nat)
    requires Pairs(log, n) && log != []
    ensures |log| >= 2 && Pairs(log[..|log| - 2], n)
    ensures log[|log| - 2].Idx? && log[|log| - 2].k < n && log[|log| - 1].Old?
  {
    var j := (|log| - 2) / 2;
    assert log[2 * j].Idx?;
    forall i | 0 <= 2 * i < |log| - 2
      ensures log[..|log| - 2][2 * i] == log[2 * i] && log[..|log| - 2][2 * i + 1] == log[2 * i + 1]
    {
    }
  }

  lemma PairsAppend(a: Elems, b: Elems, n: nat)
    requires Pairs(a, n) && Pairs(b, n)
    ensures Pairs(a + b, n)
  {
    forall j | 0 <= 2 * j < |a + b|
      ensures (a + b)[2 * j].Idx? && (a + b)[2 * j].k < n && (a + b)[2 * j + 1].Old?
    {
      if 2 * j < |a| {
        assert a[2 * j].Idx?;
      } else {
        var i := j - |a| / 2;
        assert b[2 * i].Idx? && (a + b)[2 * j] == b[2 * i] && (a + b)[2 * j + 1] == b[2 * i + 1];
      }
    }
  }

  // ----- pushing a choice point ---------------------------------------------

  lemma PushedFrame(st: Elems, bp: nat, words: Words, pc: nat, pos: nat, kind: Kind)
    requires Stacked(st, bp, |words|)
    ensures var st1 := st + [Pc(pc), Cp(pos), Bp(bp, kind)];
            && Stacked(st1, |st1|, |words|)
            && Frames(st1, |st1|, words) == Frames(st, bp, words) + [Frame(pc, pos, words, kind)]
  {
    var st1 := st + [Pc(pc), Cp(pos), Bp(bp, kind)];
    assert st1[..|st1| - 3] == st;
    assert st1[|st1|..] == [];
  }

  // ----- saving a word ------------------------------------------------------

  lemma UndoPair(log: Elems, words: Words, k: nat, v: Word)
    requires Pairs(log, |words|) && k < |words|
    ensures var pair := [Idx(k), Old(words[k])];
            Undo(log + pair, words[k := v]) == Undo(log, words) && Pairs(log + pair, |words|)
  {
    var pair := [Idx(k), Old(words[k])];
    assert (log + pair)[..|log|] == log;
    assert words[k := v][k := words[k]] == words;
    PairsAppend(log, pair, |words|);
  }

  /** SAVE_CAPTURE: log the old value, then write. */
  lemma SavedWord(st: Elems, bp: nat, words: Words, k: nat, v: Word)
    requires Stacked(st, bp, |words|) && k < |words|
    ensures var st1, words1 := st + [Idx(k), Old(words[k])], words[k := v];
            Stacked(st1, bp, |words1|) && Frames(st1, bp, words1) == Frames(st, bp, words)
  {
    UndoPair(st[bp..], words, k, v);
    hide Undo, Pairs, Frames;
    var pair := [Idx(k), Old(words[k])];
    assert (st + pair)[bp..] == st[bp..] + pair && (st + pair)[..bp] == st[..bp];
    LogReplaced(st, bp, words, st + pair, words[k := v]);
  }

  /** The log above the innermost choice point has a pair for `k`. */
  predicate Logged(log: Elems, k: nat)
    decreases |log|
  {
    |log| >= 2 && (log[|log| - 2] == Idx(k) || Logged(log[..|log| - 2], k))
  }

  lemma {:induction false} LoggedUndo(log: Elems, words: Words, k: nat, v: Word)
    requires Pairs(log, |words|) && Logged(log, k) && k < |words|
    ensures Undo(log, words[k := v]) == Undo(log, words)
    decreases |log|
  {
    PairsPrefix(log, |words|);
    var i, o := log[|log| - 2].k, log[|log| - 1].w;
    if i == k {
      assert words[k := v][i := o] == words[i := o];
    } else {
      assert words[k := v][i := o] == words[i := o][k := v];
      LoggedUndo(log[..|log| - 2], words[i := o], k, v);
    }
  }

  /** SAVE_CAPTURE_CHECK: a word that is already logged needs no second pair,
      because undoing goes down to the oldest one. */
  lemma SavedOnce(st: Elems, bp: nat, words: Words, k: nat, v: Word)
    requires Stacked(st, bp, |words|) && k < |words| && Logged(st[bp..], k)
    ensures Stacked(st, bp, |words[k := v]|) && Frames(st, bp, words[k := v]) == Frames(st, bp, words)
  {
    LoggedUndo(st[bp..], words, k, v);
    FramesSame(st, bp, words, st, words[k := v]);
  }

  // ----- unwinding a lookahead ----------------------------------------------

  /** One level of `Stacked` and `Frames`. */
  lemma Top(st: Elems, bp: nat, words: Words)
    requires Stacked(st, bp, |words|) && bp != 0
    ensures 3 <= bp <= |st| && st[bp - 3].Pc? && st[bp - 2].Cp? && st[bp - 1].Bp? && st[bp - 1].bp <= bp - 3
    ensures Pairs(st[bp..], |words|) && Stacked(st[..bp - 3], st[bp - 1].bp, |words|)
    ensures var w0 := Undo(st[bp..], words);
            Frames(st, bp, words) == Frames(st[..bp - 3], st[bp - 1].bp, w0)
              + [Frame(st[bp - 3].pc, st[bp - 2].pos, w0, st[bp - 1].kind)]
  {
    hide Undo, Pairs;
  }

  /** Some choice point is a lookahead. */
  ghost predicate HasLook(st: Elems, bp: nat, n: nat)
    requires Stacked(st, bp, n)
    decreases |st|
  {
    bp != 0 && (st[bp - 1].kind == KLook || HasLook(st[..bp - 3], st[bp - 1].bp, n))
  }

  /** Where the innermost one starts. */
  ghost function LookBase(st: Elems, bp: nat, n: nat): (r: nat)
    requires Stacked(st, bp, n) && HasLook(st, bp, n)
    ensures r + 3 <= bp <= |st|
    decreases |st|
  {
    if st[bp - 1].kind == KLook then bp - 3 else LookBase(st[..bp - 3], st[bp - 1].bp, n)
  }

  /** The choice point that becomes the innermost one. */
  ghost function LookBp(st: Elems, bp: nat, n: nat): nat
    requires Stacked(st, bp, n) && HasLook(st, bp, n)
    decreases |st|
  {
    if st[bp - 1].kind == KLook then st[bp - 1].bp else LookBp(st[..bp - 3], st[bp - 1].bp, n)
  }

  /** The undo pairs above the lookahead, in stack order, without the choice
      points between them. */
  ghost function Gathered(st: Elems, bp: nat, n: nat): Elems
    requires Stacked(st, bp, n) && HasLook(st, bp, n)
    decreases |st|
  {
    if st[bp - 1].kind == KLook then st[bp..] else Gathered(st[..bp - 3], st[bp - 1].bp, n) + st[bp..]
  }

  lemma InnermostTop(fs: Stack, f: Frame, kind: Kind)
    ensures Innermost(fs + [f], kind) == if f.kind == kind then Some(|fs|) else Innermost(fs, kind)
  {
    assert (fs + [f])[..|fs|] == fs;
  }

  lemma {:induction false} LookIsInnermost(st: Elems, bp: nat, words: Words)
    requires Stacked(st, bp, |words|)
    ensures HasLook(st, bp, |words|) <==> Innermost(Frames(st, bp, words), KLook).Some?
    decreases |st|
  {
    if bp != 0 {
      Top(st, bp, words);
      var w0 := Undo(st[bp..], words);
      hide Undo, Pairs, Frames, Innermost;
      LookIsInnermost(st[..bp - 3], st[bp - 1].bp, w0);
      InnermostTop(Frames(st[..bp - 3], st[bp - 1].bp, w0),
                   Frame(st[bp - 3].pc, st[bp - 2].pos, w0, st[bp - 1].kind), KLook);
    }
  }

  /** After unwinding: the pairs of all removed frames follow those of the frame
      below, so undoing them all still restores its snapshot. */
  lemma {:induction false} Unwound(st: Elems, bp: nat, words: Words)
    requires Stacked(st, bp, |words|) && HasLook(st, bp, |words|)
    ensures var fs := Frames(st, bp, words);
            var base, low, log := LookBase(st, bp, |words|), LookBp(st, bp, |words|), Gathered(st, bp, |words|);
            && Innermost(fs, KLook).Some?
            && low <= base && Pairs(log, |words|)
            && st[base] == Pc(fs[Innermost(fs, KLook).value].pc)
               && st[base + 1] == Cp(fs[Innermost(fs, KLook).value].pos)
            && Stacked(st[..base], low, |words|)
            && Frames(st[..base], low, Undo(log, words)) == fs[..Innermost(fs, KLook).value]
    decreases |st|
  {
    hide Undo, Pairs, Frames, Stacked, Innermost;
    Top(st, bp, words);
    var w0, below, bp0 := Undo(st[bp..], words), st[..bp - 3], st[bp - 1].bp;
    var fs0, f := Frames(below, bp0, w0), Frame(st[bp - 3].pc, st[bp - 2].pos, w0, st[bp - 1].kind);
    InnermostTop(fs0, f, KLook);
    if f.kind != KLook {
      Unwound(below, bp0, w0);
      var base, log := LookBase(below, bp0, |words|), Gathered(below, bp0, |words|);
      UndoAppend(log, st[bp..], words);
      PairsAppend(log, st[bp..], |words|);
      assert below[..base] == st[..base];
      var k := Innermost(fs0, KLook).value;
      assert (fs0 + [f])[..k] == fs0[..k];
    } else {
      assert (fs0 + [f])[..|fs0|] == fs0;
    }
  }

  /** lookahead_match as a whole: the choice points below the lookahead stand
      for the same snapshots after its pairs have been moved down. */
  lemma Compacted(st: Elems, bp: nat, words: Words, st1: Elems)
    requires Stacked(st, bp, |words|) && HasLook(st, bp, |words|)
    requires var base := LookBase(st, bp, |words|);
             st1 == st[..base] + if base == 0 then [] else Gathered(st, bp, |words|)
    ensures var fs, low := Frames(st, bp, words), LookBp(st, bp, |words|);
            && Innermost(fs, KLook).Some?
            && Stacked(st1, low, |words|) && Frames(st1, low, words) == fs[..Innermost(fs, KLook).value]
  {
    Unwound(st, bp, words);
    var base, low, log := LookBase(st, bp, |words|), LookBp(st, bp, |words|), Gathered(st, bp, |words|);
    hide Undo, Pairs, Stacked, Innermost, HasLook, LookBase, LookBp, Gathered, Frames;
    if base == 0 {
      assert st1 == st[..base];
    } else {
      LogAppended(st[..base], low, log, words);
    }
  }

  /** Pairs added to the log of the innermost choice point are undone first. */
  lemma LogAppended(st: Elems, low: nat, log: Elems, words: Words)
    requires Stacked(st, low, |words|) && low <= |st| && Pairs(log, |words|)
    ensures Stacked(st + log, low, |words|) && Frames(st + log, low, words) == Frames(st, low, Undo(log, words))
  {
    hide Undo, Pairs, Stacked, Frames;
    assert (st + log)[low..] == st[low..] + log && (st + log)[..low] == st[..low];
    StackedPairs(st, low, |words|);
    PairsAppend(st[low..], log, |words|);
    UndoAppend(st[low..], log, words);
    LogReplaced(st, low, Undo(log, words), st + log, words);
  }

  lemma StackedPairs(st: Elems, bp: nat, n: nat)
    requires Stacked(st, bp, n)
    ensures bp <= |st| && Pairs(st[bp..], n)
  {
  }

  // ----- what lookahead_match leaves behind while it unwinds -----------------

  /** From `p` to `top`: choice points whose Bp has been overwritten by a link to
      the next one, each followed by its undo pairs. */
  ghost predicate Chained(st: Elems, p: nat, top: nat)
    decreases top - p
  {
    && p <= top <= |st|
    && (p == top || (p + 3 <= top && st[p + 2].Link? && p + 3 <= st[p + 2].p <= top && Chained(st, st[p + 2].p, top)))
  }

  ghost function Collected(st: Elems, p: nat, top: nat): Elems
    requires Chained(st, p, top)
    decreases top - p
  {
    if p == top then [] else st[p + 3..st[p + 2].p] + Collected(st, st[p + 2].p, top)
  }

  /** A chain does not depend on what lies below it. */
  lemma {:induction false} ChainSame(st: Elems, p: nat, top: nat, st1: Elems)
    requires Chained(st, p, top) && |st1| == |st| && st[p..] == st1[p..]
    ensures Chained(st1, p, top) && Collected(st1, p, top) == Collected(st, p, top)
    decreases top - p
  {
    if p != top {
      assert st1[p + 2] == st1[p..][2] == st[p..][2] == st[p + 2];
      var q := st[p + 2].p;
      assert st1[q..] == st1[p..][q - p..] == st[p..][q - p..] == st[q..];
      assert st1[p + 3..q] == st1[p..][3..q - p] == st[p..][3..q - p] == st[p + 3..q];
      ChainSame(st, q, top, st1);
    }
  }

  /** Linking one more choice point. */
  lemma ChainLonger(st: Elems, bp: nat, p: nat, top: nat)
    requires 3 <= bp <= p && Chained(st, p, top)
    ensures var st1 := st[bp - 1 := Link(p)];
            Chained(st1, bp - 3, top) && Collected(st1, bp - 3, top) == st[bp..p] + Collected(st, p, top)
  {
    var st1 := st[bp - 1 := Link(p)];
    assert st1[p..] == st[p..] && st1[bp..p] == st[bp..p];
    ChainSame(st, p, top, st1);
  }

  /** One round of the first loop of lookahead_match: the innermost choice point
      leaves the stack and joins the chain. */
  lemma UnwindOnce(st: Elems, sp: nat, bp: nat, top: nat, n: nat)
    requires sp <= top <= |st| && Stacked(st[..sp], bp, n) && HasLook(st[..sp], bp, n) && Chained(st, sp, top)
    ensures 3 <= bp <= sp && st[bp - 3].Pc? && st[bp - 2].Cp? && st[bp - 1].Bp? && st[bp - 1].bp <= bp - 3
    ensures var st1, low, sp1, last := st[bp - 1 := Link(sp)], st[bp - 1].bp, bp - 3, st[bp - 1].kind == KLook;
            && st1[..sp1] == st[..sp1] && Chained(st1, sp1, top)
            && (last ==> LookBase(st[..sp], bp, n) == sp1 && LookBp(st[..sp], bp, n) == low
                         && Gathered(st[..sp], bp, n) + Collected(st, sp, top) == Collected(st1, sp1, top))
            && (!last ==> Stacked(st1[..sp1], low, n) && HasLook(st1[..sp1], low, n)
                          && LookBase(st[..sp], bp, n) == LookBase(st1[..sp1], low, n)
                          && LookBp(st[..sp], bp, n) == LookBp(st1[..sp1], low, n)
                          && Gathered(st[..sp], bp, n) + Collected(st, sp, top)
                             == Gathered(st1[..sp1], low, n) + Collected(st1, sp1, top))
  {
    StackedTop(st[..sp], bp, n);
    ChainLonger(st, bp, sp, top);
    var st1 := st[bp - 1 := Link(sp)];
    LookTop(st[..sp], bp, n);
    hide Stacked, HasLook, LookBase, LookBp, Gathered, Collected, Chained, Pairs;
    assert st[..sp][bp - 1] == st[bp - 1] && st[..sp][bp - 2] == st[bp - 2] && st[..sp][bp - 3] == st[bp - 3];
    assert st1[..bp - 3] == st[..bp - 3] == st[..sp][..bp - 3] && st[..sp][bp..] == st[bp..sp];
  }

  lemma StackedTop(st: Elems, bp: nat, n: nat)
    requires Stacked(st, bp, n) && bp != 0
    ensures 3 <= bp <= |st| && st[bp - 3].Pc? && st[bp - 2].Cp? && st[bp - 1].Bp? && st[bp - 1].bp <= bp - 3
    ensures Stacked(st[..bp - 3], st[bp - 1].bp, n)
  {
    hide Pairs;
  }

  lemma LookTop(st: Elems, bp: nat, n: nat)
    requires Stacked(st, bp, n) && HasLook(st, bp, n)
    ensures 3 <= bp <= |st| && st[bp - 1].Bp?
    ensures st[bp - 1].kind == KLook ==>
              LookBase(st, bp, n) == bp - 3 && LookBp(st, bp, n) == st[bp - 1].bp && Gathered(st, bp, n) == st[bp..]
    ensures st[bp - 1].kind != KLook ==>
              && Stacked(st[..bp - 3], st[bp - 1].bp, n) && HasLook(st[..bp - 3], st[bp - 1].bp, n)
              && LookBase(st, bp, n) == LookBase(st[..bp - 3], st[bp - 1].bp, n)
              && LookBp(st, bp, n) == LookBp(st[..bp - 3], st[bp - 1].bp, n)
              && Gathered(st, bp, n) == Gathered(st[..bp - 3], st[bp - 1].bp, n) + st[bp..]
  {
    hide Pairs;
  }

  /** One step of the second loop: a word of the log moves down from `sp1` to
      `sp`; what is still to be copied is not touched. */
  lemma CopyOnce(st: Elems, sp: nat, sp1: nat, next: nat, top: nat)
    requires sp < sp1 < next <= |st| && Chained(st, next, top)
    ensures var st1 := st[sp := st[sp1]];
            && st1[..sp + 1] + st1[sp1 + 1..next] == st[..sp] + st[sp1..next]
            && Chained(st1, next, top) && Collected(st1, next, top) == Collected(st, next, top)
  {
    var st1 := st[sp := st[sp1]];
    assert st1[next..] == st[next..];
    ChainSame(st, next, top, st1);
    hide Chained, Collected;
    assert st1[..sp + 1] == st[..sp] + [st[sp1]] && st1[sp1 + 1..next] == st[sp1 + 1..next];
    assert st[sp1..next] == [st[sp1]] + st[sp1 + 1..next];
  }
}
