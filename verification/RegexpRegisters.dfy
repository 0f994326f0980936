/** Registers are allocated as a stack, by one linear pass over the code. */
module RegexpRegisters {
  import opened RegexpSemantics
  import opened RegexpInstr
  import opened RegexpCompiler
  import RegexpLayout

  /** The state of the pass: registers in use, the most there have been, and
      whether no loop has ended that was not begun. */
  datatype Pass = Pass(used: int, peak: int, balanced: bool)

  predicate Pushes(i: Instr) {
    i.ISet? || i.ISetPos?
  }

  /** How many registers the instruction gives back. */
  function Pops(i: Instr): nat {
    if i.ICheckAdv? || i.ILoop? then 1
    else if i.ILoopSplit? then (if i.check then 2 else 1)
    else 0
  }

  function After(i: Instr, p: Pass): Pass {
    if Pushes(i) then Pass(p.used + 1, if p.used + 1 > p.peak then p.used + 1 else p.peak, p.balanced)
    else Pass(p.used - Pops(i), p.peak, p.balanced && Pops(i) <= p.used)
  }

  function WithReg(i: Instr, r: nat): Instr {
    match i
    case ISet(_, val) => ISet(r, val)
    case ISetPos(_) => ISetPos(r)
    case ICheckAdv(_) => ICheckAdv(r)
    case ILoop(_, off) => ILoop(r, off)
    case ILoopSplit(check, nextFirst, _, limit, off) => ILoopSplit(check, nextFirst, r, limit, off)
    case _ => i
  }

  /** The instruction with its register field filled in. */
  function Filled(i: Instr, p: Pass): Instr {
    if p.used - Pops(i) >= 0 then WithReg(i, p.used - Pops(i)) else i
  }

  function AfterAll(code: seq<Instr>, p: Pass): Pass
    decreases |code|
  {
    if code == [] then p else AfterAll(code[1..], After(code[0], p))
  }

  function FilledAll(code: seq<Instr>, p: Pass): (r: seq<Instr>)
    ensures |r| == |code|
    decreases |code|
  {
    if code == [] then [] else [Filled(code[0], p)] + FilledAll(code[1..], After(code[0], p))
  }

  lemma {:induction false} PassAppend(a: seq<Instr>, b: seq<Instr>, p: Pass)
    ensures AfterAll(a + b, p) == AfterAll(b, AfterAll(a, p))
    ensures FilledAll(a + b, p) == FilledAll(a, p) + FilledAll(b, AfterAll(a, p))
    decreases |a|
  {
    if a == [] {
      assert a + b == b;
    } else {
      assert (a + b)[1..] == a[1..] + b;
      PassAppend(a[1..], b, After(a[0], p));
    }
  }

  lemma PassOne(i: Instr, p: Pass)
    ensures AfterAll([i], p) == After(i, p) && FilledAll([i], p) == [Filled(i, p)]
  {
    assert [i][1..] == [];
  }

  lemma PassCons(i: Instr, b: seq<Instr>, p: Pass)
    ensures AfterAll([i] + b, p) == AfterAll(b, After(i, p))
    ensures FilledAll([i] + b, p) == [Filled(i, p)] + FilledAll(b, After(i, p))
  {
    PassOne(i, p);
    PassAppend([i], b, p);
  }

  lemma PassSnoc(a: seq<Instr>, i: Instr, p: Pass)
    ensures AfterAll(a + [i], p) == After(i, AfterAll(a, p))
    ensures FilledAll(a + [i], p) == FilledAll(a, p) + [Filled(i, AfterAll(a, p))]
  {
    PassAppend(a, [i], p);
    PassOne(i, AfterAll(a, p));
  }

  /** Filling in registers changes no size. */
  lemma {:induction false} FilledSize(code: seq<Instr>, p: Pass)
    ensures SizeAll(FilledAll(code, p)) == SizeAll(code)
    decreases |code|
  {
    if code != [] {
      FilledSize(code[1..], After(code[0], p));
      assert FilledAll(code, p)[1..] == FilledAll(code[1..], After(code[0], p));
    }
  }

  // ----- the pass over compiled code ----------------------------------------

  /** The pass has `d` registers in use and nothing has gone wrong. */
  predicate Steady(p: Pass, d: nat) {
    p.used == d && p.peak >= d && p.balanced
  }

  function Raised(p: Pass, k: nat): Pass {
    p.(peak := if k > p.peak then k else p.peak)
  }

  /** The pass over a node's code gives each loop its own registers on top of
      those in use around it, frees them again, and so leaves the stack as it
      found it; no loop ends that was not begun. */
  lemma {:induction false} PassCode(n: Node, base: nat, back: bool, d: nat, p: Pass)
    requires Steady(p, d)
    ensures FilledAll(Code(n, base, back, 0, false), p) == Code(n, base, back, d, true)
    ensures AfterAll(Code(n, base, back, 0, false), p) == Raised(p, d + Regs(n, back))
    decreases n, 1
  {
    hide Code, FilledAll, AfterAll, Regs;
    RegsOf(n, back);
    match n
    case Cat(a, b) =>
      CodeOfCat(n, base, back, 0, false);
      CodeOfCat(n, base, back, d, true);
      var n1, n2 := if back then b else a, if back then a else b;
      var base1, base2 := if back then base + Groups(a) else base, if back then base else base + Groups(a);
      PassCode(n1, base1, back, d, p);
      PassCode(n2, base2, back, d, Raised(p, d + Regs(n1, back)));
      PassAppend(Code(n1, base1, back, 0, false), Code(n2, base2, back, 0, false), p);
    case Alt(a, b) => PassAlt(n, base, back, d, p);
    case Group(b) =>
      CodeOfGroup(n, base, back, 0, false);
      CodeOfGroup(n, base, back, d, true);
      PassCode(b, base + 1, back, d, p);
      PassBracket(ISave(back, base), Code(b, base + 1, back, 0, false), ISave(!back, base), p);
    case Look(behind, negative, b) =>
      CodeOfLook(n, base, back, 0, false);
      CodeOfLook(n, base, back, d, true);
      var cb := Code(b, base, behind, 0, false);
      PassCode(b, base, behind, d, p);
      FilledSize(cb, p);
      PassBracket(ILook(negative, SizeAll(cb) + 1), cb, ILookMatch(negative), p);
    case Quant(_, _, _, _) => PassQuant(n, base, back, d, p);
    case _ => PassLeaf(n, base, back, d, p);
  }

  lemma RegsOf(n: Node, back: bool)
    ensures n.Cat? ==> Regs(n, back) == Max(Regs(n.first, back), Regs(n.second, back))
    ensures n.Alt? ==> Regs(n, back) == Max(Regs(n.left, back), Regs(n.right, back))
    ensures n.Group? ==> Regs(n, back) == Regs(n.body, back)
    ensures n.Look? ==> Regs(n, back) == Regs(n.body, n.behind)
    ensures n.Quant? ==>
              var s := ShapeOf(n.body, n.min, n.max, back);
              Regs(n, back) == if s == Never then 0 else ShapeRegs(s) + Regs(n.body, back)
  {
  }

  lemma PassBracket(i: Instr, code: seq<Instr>, j: Instr, p: Pass)
    requires !Pushes(i) && Pops(i) == 0 && !Pushes(j) && Pops(j) == 0 && p.used >= 0
    requires AfterAll(code, p).used >= 0
    ensures FilledAll([i] + (code + [j]), p) == [i] + (FilledAll(code, p) + [j])
    ensures AfterAll([i] + (code + [j]), p) == AfterAll(code, p)
  {
    hide FilledAll, AfterAll;
    PassCons(i, code + [j], p);
    PassSnoc(code, j, p);
  }

  lemma {:induction false} PassAlt(n: Node, base: nat, back: bool, d: nat, p: Pass)
    requires n.Alt? && Steady(p, d)
    ensures FilledAll(Code(n, base, back, 0, false), p) == Code(n, base, back, d, true)
    ensures AfterAll(Code(n, base, back, 0, false), p) == Raised(p, d + Regs(n, back))
    decreases n, 0
  {
    hide Code, FilledAll, AfterAll, Regs, SizeAll;
    RegsOf(n, back);
    var base2 := base + Groups(n.left);
    var ca, cb := Code(n.left, base, back, 0, false), Code(n.right, base2, back, 0, false);
    CodeOfAlt(n, base, back, 0, false);
    CodeOfAlt(n, base, back, d, true);
    var q := Raised(p, d + Regs(n.left, back));
    var i, j := ISplit(true, SizeAll(ca) + 5), IGoto(SizeAll(cb));
    PassCode(n.left, base, back, d, p);
    PassCode(n.right, base2, back, d, q);
    FilledSize(ca, p);
    FilledSize(cb, q);
    PassCons(i, ca + ([j] + cb), p);
    PassAppend(ca, [j] + cb, p);
    PassCons(j, cb, q);
  }

  lemma PassLeaf(n: Node, base: nat, back: bool, d: nat, p: Pass)
    requires n.Empty? || n.Assert? || n.BackRef? || IsCharTest(n)
    requires Steady(p, d)
    ensures FilledAll(Code(n, base, back, 0, false), p) == Code(n, base, back, d, true)
    ensures AfterAll(Code(n, base, back, 0, false), p) == Raised(p, d + Regs(n, back))
  {
    hide FilledAll, AfterAll, Filled, After;
    CodeOfTest(n, base, back, 0, false);
    CodeOfTest(n, base, back, d, true);
    if n.Empty? {
      PassOptional(false, IDot, p);
    } else {
      StillLeaf(n, back, p);
      if n.Assert? {
        PassOne(IAssert(n.kind), p);
      } else if n.BackRef? {
        PassOne(IBackRef(back, n.groups), p);
      } else if back {
        PassSnoc([IPrev] + [CharInstr(n)], IPrev, p);
        PassCons(IPrev, [CharInstr(n)], p);
        PassOne(CharInstr(n), p);
      } else {
        PassOne(CharInstr(n), p);
      }
    }
  }

  /** A test uses no registers. */
  lemma StillLeaf(n: Node, back: bool, p: Pass)
    requires (n.Assert? || n.BackRef? || IsCharTest(n)) && p.used >= 0
    ensures n.Assert? ==> Filled(IAssert(n.kind), p) == IAssert(n.kind) && After(IAssert(n.kind), p) == p
    ensures n.BackRef? ==> Filled(IBackRef(back, n.groups), p) == IBackRef(back, n.groups)
                           && After(IBackRef(back, n.groups), p) == p
    ensures IsCharTest(n) ==> Filled(CharInstr(n), p) == CharInstr(n) && After(CharInstr(n), p) == p
    ensures Filled(IPrev, p) == IPrev && After(IPrev, p) == p
  {
  }

  lemma PassOptional(emit: bool, i: Instr, p: Pass)
    ensures AfterAll(if emit then [i] else [], p) == if emit then After(i, p) else p
    ensures FilledAll(if emit then [i] else [], p) == if emit then [Filled(i, p)] else []
  {
    PassOne(i, p);
  }

  lemma {:induction false} PassAtom(b: Node, base: nat, back: bool, d: nat, p: Pass)
    requires Steady(p, d)
    ensures FilledAll(LoopAtom(b, base, back, 0, false), p) == LoopAtom(b, base, back, d, true)
    ensures AfterAll(LoopAtom(b, base, back, 0, false), p) == Raised(p, d + Regs(b, back))
    decreases b, 2
  {
    hide Code, FilledAll, AfterAll, Regs;
    var emit, count := !Linear(b), Groups(b);
    PassAppend(ResetCode(emit, base, count), Code(b, base, back, 0, false), p);
    PassOptional(emit && count > 0, IReset(base, base + (if count > 0 then count - 1 else 0)), p);
    PassCode(b, base, back, d, p);
  }

  lemma {:induction false} PassQuant(n: Node, base: nat, back: bool, d: nat, p: Pass)
    requires n.Quant? && Steady(p, d)
    ensures FilledAll(Code(n, base, back, 0, false), p) == Code(n, base, back, d, true)
    ensures AfterAll(Code(n, base, back, 0, false), p) == Raised(p, d + Regs(n, back))
    decreases n, 0
  {
    hide Code, FilledAll, AfterAll, Regs, LoopAtom, LoopCode, SizeAll, Advances;
    RegsOf(n, back);
    var b, s := n.body, ShapeOf(n.body, n.min, n.max, back);
    var emit, count := n.min == 0 && Linear(b), Groups(b);
    CodeOfQuant(n, base, back, 0, false);
    CodeOfQuant(n, base, back, d, true);
    AtomSame(b, base, back, ShapeRegs(s));
    var raw := LoopAtom(b, base, back, 0, false);
    var loop := LoopCode(raw, s, n.min, n.max, n.greedy, 0, false);
    PassAppend(ResetCode(emit, base, count), loop, p);
    PassOptional(emit && count > 0, IReset(base, base + (if count > 0 then count - 1 else 0)), p);
    PassLoop(b, s, n.min, n.max, n.greedy, base, back, d, p);
  }

  lemma AtomSame(b: Node, base: nat, back: bool, d: nat)
    ensures LoopAtom(b, base, back, d, false) == LoopAtom(b, base, back, 0, false)
  {
    RegexpLayout.AtomWithoutRegisters(b, base, back, d, 0);
  }

  /** The registers of one loop: pushed before its atom, popped behind it. */
  lemma {:induction false} PassLoop(b: Node, s: Shape, min: nat, max: Bound, greedy: bool, base: nat, back: bool,
                                    d: nat, p: Pass)
    requires Steady(p, d) && (s.Counted? && s.simple ==> !s.check)
    ensures var raw, atom := LoopAtom(b, base, back, 0, false), LoopAtom(b, base, back, d + ShapeRegs(s), true);
            var loop := LoopCode(raw, s, min, max, greedy, 0, false);
            && FilledAll(loop, p) == LoopCode(atom, s, min, max, greedy, d, true)
            && AfterAll(loop, p) == Raised(p, if s == Never then d else d + ShapeRegs(s) + Regs(b, back))
    decreases b, 5
  {
    hide FilledAll, AfterAll, Regs, LoopAtom, SizeAll, SplitLoop, PlusLoop, CountedLoop;
    var raw := LoopAtom(b, base, back, 0, false);
    match s
    case Never => PassOptional(false, IDot, p);
    case Split(many, check) => PassSplit(b, many, check, greedy, base, back, d, p);
    case Plus => PassPlus(b, greedy, base, back, d, p);
    case Counted(optional, simple, check) =>
      PassCounted(b, optional, simple, check, greedy, min, IntMax(max), base, back, d, p);
  }

  lemma {:induction false} PassPlus(b: Node, greedy: bool, base: nat, back: bool, d: nat, p: Pass)
    requires Steady(p, d)
    ensures var raw, atom := LoopAtom(b, base, back, 0, false), LoopAtom(b, base, back, d, true);
            && FilledAll(PlusLoop(raw, greedy), p) == PlusLoop(atom, greedy)
            && AfterAll(PlusLoop(raw, greedy), p) == Raised(p, d + Regs(b, back))
    decreases b, 3
  {
    hide FilledAll, AfterAll, Regs, LoopAtom, SizeAll;
    var raw := LoopAtom(b, base, back, 0, false);
    PassAtom(b, base, back, d, p);
    FilledSize(raw, p);
    PassSnoc(raw, ISplit(!greedy, -(SizeAll(raw) + 5)), p);
  }

  lemma {:induction false} PassSplit(b: Node, many: bool, check: bool, greedy: bool, base: nat, back: bool, d: nat,
                                     p: Pass)
    requires Steady(p, d)
    ensures var k := if check then 1 else 0;
            var raw, atom := LoopAtom(b, base, back, 0, false), LoopAtom(b, base, back, d + k, true);
            && FilledAll(SplitLoop(raw, many, check, greedy, 0, false), p)
               == SplitLoop(atom, many, check, greedy, d, true)
            && AfterAll(SplitLoop(raw, many, check, greedy, 0, false), p) == Raised(p, d + k + Regs(b, back))
    decreases b, 3
  {
    hide FilledAll, AfterAll, Regs, LoopAtom, SizeAll, SplitLoop, Filled, After, Raised;
    var k := if check then 1 else 0;
    var raw := LoopAtom(b, base, back, 0, false);
    var extra, jump, len: int := if check then 2 else 0, if many then 5 else 0, SizeAll(raw);
    var split, again := ISplit(greedy, len + jump + 2 * extra), IGoto(-(5 + len + jump + 2 * extra));
    var mark, adv, last := SetPosCode(check, 0, false), CheckAdvCode(check, 0, false), if many then [again] else [];
    var q := if check then After(ISetPos(0), p) else p;
    var q1 := Raised(q, d + k + Regs(b, back));
    MarkPass(check, d, d + k + Regs(b, back), p, again);
    SplitUnfilled(raw, many, check, greedy);
    PassAtom(b, base, back, d + k, q);
    FilledSize(raw, q);
    PassOptional(check, ISetPos(0), p);
    PassOptional(check, ICheckAdv(0), q1);
    PassOptional(many, again, if check then After(ICheckAdv(0), q1) else q1);
    PassFive(split, mark, raw, adv, last, p);
    SplitFilled(LoopAtom(b, base, back, d + k, true), many, check, greedy, d);
  }

  /** The two instructions around an atom that must advance use one register. */
  lemma MarkPass(check: bool, d: nat, high: nat, p: Pass, again: Instr)
    requires Steady(p, d) && again.IGoto? && high >= d + if check then 1 else 0
    ensures var q := if check then After(ISetPos(0), p) else p;
            && Steady(q, d + if check then 1 else 0) && Filled(ISetPos(0), p) == ISetPos(d)
            && (check ==> Filled(ICheckAdv(0), Raised(q, high)) == ICheckAdv(d))
            && (if check then After(ICheckAdv(0), Raised(q, high)) else Raised(q, high)) == Raised(p, high)
    ensures Filled(again, Raised(p, high)) == again && After(again, Raised(p, high)) == Raised(p, high)
  {
  }

  lemma PassFive(i: Instr, a: seq<Instr>, b: seq<Instr>, c: seq<Instr>, e: seq<Instr>, p: Pass)
    requires !Pushes(i) && Pops(i) == 0 && p.used >= 0
    ensures var q := AfterAll(a, p);
            var q1 := AfterAll(b, q);
            var q2 := AfterAll(c, q1);
            && FilledAll([i] + (a + (b + (c + e))), p) == [i]
               + (FilledAll(a, p) + (FilledAll(b, q) + (FilledAll(c, q1) + FilledAll(e, q2))))
            && AfterAll([i] + (a + (b + (c + e))), p) == AfterAll(e, q2)
  {
    assert Filled(i, p) == i && After(i, p).used == p.used && After(i, p) == p;
    hide FilledAll, AfterAll, Filled, After;
    PassCons(i, a + (b + (c + e)), p);
    PassAppend(a, b + (c + e), p);
    PassAppend(b, c + e, AfterAll(a, p));
    PassAppend(c, e, AfterAll(b, AfterAll(a, p)));
  }

  lemma SplitUnfilled(raw: seq<Instr>, many: bool, check: bool, greedy: bool)
    ensures var extra := if check then 2 else 0;
            var jump := if many then 5 else 0;
            SplitLoop(raw, many, check, greedy, 0, false)
            == [ISplit(greedy, SizeAll(raw) + jump + 2 * extra)]
               + (SetPosCode(check, 0, false)
                  + (raw + (CheckAdvCode(check, 0, false)
                            + (if many then [IGoto(-(5 + SizeAll(raw) + jump + 2 * extra))] else []))))
  {
  }

  lemma SplitFilled(atom: seq<Instr>, many: bool, check: bool, greedy: bool, d: nat)
    ensures var extra := if check then 2 else 0;
            var jump := if many then 5 else 0;
            SplitLoop(atom, many, check, greedy, d, true)
            == [ISplit(greedy, SizeAll(atom) + jump + 2 * extra)]
               + ((if check then [ISetPos(d)] else [])
                  + (atom + ((if check then [ICheckAdv(d)] else [])
                             + (if many then [IGoto(-(5 + SizeAll(atom) + jump + 2 * extra))] else []))))
  {
  }

  lemma {:induction false} PassCounted(b: Node, optional: bool, simple: bool, check: bool, greedy: bool, min: nat,
                                       max: nat, base: nat, back: bool, d: nat, p: Pass)
    requires Steady(p, d)
    requires simple ==> !check
    ensures var k := if check then 2 else 1;
            var raw, atom := LoopAtom(b, base, back, 0, false), LoopAtom(b, base, back, d + k, true);
            && FilledAll(CountedLoop(raw, optional, simple, check, greedy, min, max, 0, false), p)
               == CountedLoop(atom, optional, simple, check, greedy, min, max, d, true)
            && AfterAll(CountedLoop(raw, optional, simple, check, greedy, min, max, 0, false), p)
               == Raised(p, d + k + Regs(b, back))
    decreases b, 4
  {
    hide FilledAll, AfterAll, Regs, LoopAtom, SizeAll, CountedBody;
    var raw := LoopAtom(b, base, back, 0, false);
    var extra, limit := if check then 2 else 0, if min <= max then max - min else 0;
    var split, load := ISplit(greedy, 6 + extra + SizeAll(raw) + 10), ISet(0, max);
    var entry, body := if optional then [split] else [], CountedBody(raw, simple, check, greedy, limit, 0, false);
    PassAppend(entry, [load] + body, p);
    PassOptional(optional, split, p);
    PassCons(load, body, p);
    PassBody(b, simple, check, greedy, limit, base, back, d, After(load, p));
    AtomSizes(b, base, back, d + if check then 2 else 1);
  }

  lemma AtomSizes(b: Node, base: nat, back: bool, d: nat)
    ensures SizeAll(LoopAtom(b, base, back, d, true)) == SizeAll(LoopAtom(b, base, back, 0, false))
    decreases b, 3
  {
    hide LoopAtom, SizeAll, AfterAll;
    PassAtom(b, base, back, d, Pass(d, d, true));
    FilledSize(LoopAtom(b, base, back, 0, false), Pass(d, d, true));
  }

  /** The counter of the loop is in use: `d` is the number of registers below it. */
  lemma {:induction false} PassBody(b: Node, simple: bool, check: bool, greedy: bool, limit: nat, base: nat, back: bool,
                                    d: nat, p: Pass)
    requires Steady(p, d + 1)
    requires simple ==> !check
    ensures var k := if check then 2 else 1;
            var raw, atom := LoopAtom(b, base, back, 0, false), LoopAtom(b, base, back, d + k, true);
            && FilledAll(CountedBody(raw, simple, check, greedy, limit, 0, false), p)
               == CountedBody(atom, simple, check, greedy, limit, d, true)
            && AfterAll(CountedBody(raw, simple, check, greedy, limit, 0, false), p)
               == Pass(d, Raised(p, d + k + Regs(b, back)).peak, true)
    decreases b, 3
  {
    hide FilledAll, AfterAll, Regs, LoopAtom, SizeAll;
    var k := if check then 2 else 1;
    var raw := LoopAtom(b, base, back, 0, false);
    var len := SizeAll(raw) + if check then 2 else 0;
    var end := if simple then ILoop(0, -(len + 6)) else ILoopSplit(check, !greedy, 0, limit, -(len + 10));
    var q := if check then After(ISetPos(0), p) else p;
    PassAppend(SetPosCode(check, 1, false), raw + [end], p);
    PassOptional(check, ISetPos(0), p);
    PassAtom(b, base, back, d + k, q);
    FilledSize(raw, q);
    PassSnoc(raw, end, q);
  }
}
