/** Operand bounds of compiled code: what makes it fit into its bytes. */
module RegexpBounds {
  import opened RegexpSemantics
  import opened RegexpInstr
  import opened RegexpBytecode
  import opened RegexpClass
  import opened RegexpCompiler

  predicate Within(off: int, size: nat) {
    0 <= off + size && off <= size
  }

  /** `ngroups` and `nregs` bound the group and register numbers, `size` the
      jump distances. */
  ghost predicate Bounded(i: Instr, ngroups: nat, nregs: nat, size: nat) {
    match i
    case IChar(c) => c < 0x1_0000
    case IChar32(c) => c < TWO32
    case IGoto(off) => Within(off, size)
    case ISplit(_, off) => Within(off, size)
    case ISave(_, g) => g < ngroups
    case IReset(first, last) => first <= last < ngroups
    case ILoop(reg, off) => reg < nregs && Within(off, size)
    case ILoopSplit(_, _, reg, limit, off) => reg < nregs && limit <= INT32_MAX && Within(off, size)
    case ISet(reg, val) => reg < nregs && val <= INT32_MAX
    case IBackRef(_, groups) => |groups| < 256 && forall k :: 0 <= k < |groups| ==> groups[k] < ngroups
    case IRange(pairs) => |pairs| < 0x1_0000 && PairsBelow(pairs, 0x1_0000)
    case IRange32(pairs) => |pairs| < 0x1_0000 && PairsBelow(pairs, TWO32)
    case ILook(_, off) => Within(off, size)
    case ISetPos(reg) => reg < nregs
    case ICheckAdv(reg) => reg < nregs
    case _ => true
  }

  ghost predicate AllBounded(code: seq<Instr>, ngroups: nat, nregs: nat, size: nat) {
    forall k :: 0 <= k < |code| ==> Bounded(code[k], ngroups, nregs, size)
  }

  /** The counts that the linear passes read from the code fit their fields. */
  predicate LengthFits(i: Instr) {
    (i.IRange? ==> |i.pairs| < 0x1_0000) && (i.IRange32? ==> |i.pairs| < 0x1_0000) && (i.IBackRef? ==> |i.groups| < 256)
  }

  ghost predicate LengthsFit(code: seq<Instr>) {
    forall k :: 0 <= k < |code| ==> LengthFits(code[k])
  }

  lemma BoundedLengths(code: seq<Instr>, ngroups: nat, nregs: nat, size: nat)
    requires AllBounded(code, ngroups, nregs, size)
    ensures LengthsFit(code)
  {
    forall k | 0 <= k < |code|
      ensures LengthFits(code[k])
    {
      assert Bounded(code[k], ngroups, nregs, size);
    }
  }

  /** Bounded code can be encoded. */
  lemma BoundedEncodable(code: seq<Instr>, ngroups: nat, nregs: nat, size: nat)
    requires AllBounded(code, ngroups, nregs, size) && ngroups <= 256 && nregs <= 256 && size < TWO31
    ensures AllEncodable(code)
  {
    forall k | 0 <= k < |code|
      ensures Encodable(code[k])
    {
      assert Bounded(code[k], ngroups, nregs, size);
    }
  }

  lemma BoundedAppend(a: seq<Instr>, b: seq<Instr>, ngroups: nat, nregs: nat, size: nat)
    ensures AllBounded(a + b, ngroups, nregs, size) <==>
            AllBounded(a, ngroups, nregs, size) && AllBounded(b, ngroups, nregs, size)
  {
    if AllBounded(a + b, ngroups, nregs, size) {
      forall k | 0 <= k < |a|
        ensures Bounded(a[k], ngroups, nregs, size)
      {
        assert a[k] == (a + b)[k];
      }
      forall k | 0 <= k < |b|
        ensures Bounded(b[k], ngroups, nregs, size)
      {
        assert b[k] == (a + b)[|a| + k];
      }
    }
  }

  lemma BoundedCons(i: Instr, b: seq<Instr>, ngroups: nat, nregs: nat, size: nat)
    ensures AllBounded([i] + b, ngroups, nregs, size) <==>
            Bounded(i, ngroups, nregs, size) && AllBounded(b, ngroups, nregs, size)
  {
    BoundedAppend([i], b, ngroups, nregs, size);
    assert AllBounded([i], ngroups, nregs, size) <==> Bounded([i][0], ngroups, nregs, size);
  }

  lemma BoundedSnoc(a: seq<Instr>, i: Instr, ngroups: nat, nregs: nat, size: nat)
    ensures AllBounded(a + [i], ngroups, nregs, size) <==>
            AllBounded(a, ngroups, nregs, size) && Bounded(i, ngroups, nregs, size)
  {
    BoundedAppend(a, [i], ngroups, nregs, size);
    assert AllBounded([i], ngroups, nregs, size) <==> Bounded([i][0], ngroups, nregs, size);
  }

  lemma BoundedOptional(emit: bool, i: Instr, ngroups: nat, nregs: nat, size: nat)
    requires emit ==> Bounded(i, ngroups, nregs, size)
    ensures AllBounded(if emit then [i] else [], ngroups, nregs, size)
  {
  }

  lemma ClassBounded(iv: Intervals, ngroups: nat, nregs: nat, size: nat)
    requires Sorted(iv)
    ensures Bounded(ClassInstr(iv), ngroups, nregs, size)
  {
    if iv != [] {
      var n := |iv| - 1;
      forall i | 0 <= i < |iv|
        ensures iv[i].0 <= iv[n].0 && (i < n ==> iv[i].1 <= iv[n].0)
      {
      }
    }
  }

  lemma LeafBounded(n: Node, base: nat, back: bool, d: nat, alloc: bool, ngroups: nat, nregs: nat, size: nat)
    requires Parsed(n, ngroups) && (n.Empty? || n.Assert? || n.BackRef? || IsCharTest(n))
    ensures AllBounded(Code(n, base, back, d, alloc), ngroups, nregs, size)
  {
    if n.Class? {
      ClassBounded(n.intervals, ngroups, nregs, size);
    }
  }

  lemma LoopBounded(atom: seq<Instr>, s: Shape, min: nat, max: Bound, greedy: bool, d: nat, alloc: bool, ngroups: nat,
                    nregs: nat, size: nat)
    requires AllBounded(atom, ngroups, nregs, size) && SizeAll(atom) + 20 <= size
    requires Reg(d + ShapeRegs(s), alloc) <= nregs && 0 < nregs && min <= IntMax(max) <= INT32_MAX
    ensures AllBounded(LoopCode(atom, s, min, max, greedy, d, alloc), ngroups, nregs, size)
  {
    hide AllBounded, SizeAll;
    match s
    case Never => BoundedOptional(false, IDot, ngroups, nregs, size);
    case Split(many, check) =>
      var extra, jump, len: int := if check then 2 else 0, if many then 5 else 0, SizeAll(atom);
      var split, back := ISplit(greedy, len + jump + 2 * extra), IGoto(-(5 + len + jump + 2 * extra));
      var mark, adv, again := SetPosCode(check, d, alloc), CheckAdvCode(check, d, alloc), if many then [back] else [];
      BoundedOptional(check, ISetPos(Reg(d, alloc)), ngroups, nregs, size);
      BoundedOptional(check, ICheckAdv(Reg(d, alloc)), ngroups, nregs, size);
      BoundedOptional(many, back, ngroups, nregs, size);
      BoundedAppend(adv, again, ngroups, nregs, size);
      BoundedAppend(atom, adv + again, ngroups, nregs, size);
      BoundedAppend(mark, atom + (adv + again), ngroups, nregs, size);
      BoundedCons(split, mark + (atom + (adv + again)), ngroups, nregs, size);
    case Plus => BoundedSnoc(atom, ISplit(!greedy, -(SizeAll(atom) + 5)), ngroups, nregs, size);
    case Counted(optional, simple, check) =>
      CountedBounded(atom, optional, simple, check, min, IntMax(max), greedy, d, alloc, ngroups, nregs, size);
  }

  lemma CountedBounded(atom: seq<Instr>, optional: bool, simple: bool, check: bool, min: nat, max: nat, greedy: bool,
                       d: nat, alloc: bool, ngroups: nat, nregs: nat, size: nat)
    requires AllBounded(atom, ngroups, nregs, size) && SizeAll(atom) + 20 <= size
    requires Reg(d + 1 + (if check then 1 else 0), alloc) <= nregs && 0 < nregs && min <= max <= INT32_MAX
    ensures AllBounded(CountedLoop(atom, optional, simple, check, greedy, min, max, d, alloc), ngroups, nregs, size)
  {
    hide AllBounded, SizeAll;
    var extra := if check then 2 else 0;
    var len := SizeAll(atom) + extra;
    var end := if simple then ILoop(Reg(d, alloc), -(len + 6))
      else ILoopSplit(check, !greedy, Reg(d, alloc), max - min, -(len + 10));
    var mark, split := SetPosCode(check, d + 1, alloc), ISplit(greedy, 6 + extra + SizeAll(atom) + 10);
    var entry, body := if optional then [split] else [], CountedBody(atom, simple, check, greedy, max - min, d, alloc);
    BoundedOptional(check, ISetPos(Reg(d + 1, alloc)), ngroups, nregs, size);
    BoundedOptional(optional, split, ngroups, nregs, size);
    BoundedSnoc(atom, end, ngroups, nregs, size);
    BoundedAppend(mark, atom + [end], ngroups, nregs, size);
    BoundedCons(ISet(Reg(d, alloc), max), body, ngroups, nregs, size);
    BoundedAppend(entry, [ISet(Reg(d, alloc), max)] + body, ngroups, nregs, size);
  }

  lemma AtomSize(b: Node, base: nat, back: bool, d: nat, alloc: bool)
    ensures SizeAll(Code(b, base, back, d, alloc)) <= SizeAll(LoopAtom(b, base, back, d, alloc))
            <= SizeAll(Code(b, base, back, d, alloc)) + 3
  {
    hide Code;
    var reset := ResetCode(!Linear(b), base, Groups(b));
    SizeAppend(reset, Code(b, base, back, d, alloc));
    assert SizeAll(reset) <= 3 by {
      if reset != [] { assert reset[1..] == []; }
    }
  }

  /** Every instruction of a compiled pattern stays within the number of groups,
      the number of registers and the size of the code. */
  lemma {:induction false} CodeBounded(n: Node, base: nat, back: bool, d: nat, alloc: bool, ngroups: nat, nregs: nat,
                                       size: nat)
    requires Parsed(n, ngroups) && base + Groups(n) <= ngroups
    requires Reg(d + Regs(n, back), alloc) <= nregs && 0 < nregs
    requires SizeAll(Code(n, base, back, d, alloc)) + 20 <= size
    ensures AllBounded(Code(n, base, back, d, alloc), ngroups, nregs, size)
    decreases n, 1
  {
    hide Code, AllBounded, SizeAll, Parsed, Regs, Groups;
    if n.Cat? {
      CatBounded(n, base, back, d, alloc, ngroups, nregs, size);
    } else if n.Alt? {
      AltBounded(n, base, back, d, alloc, ngroups, nregs, size);
    } else if n.Group? {
      GroupBounded(n, base, back, d, alloc, ngroups, nregs, size);
    } else if n.Look? {
      LookBounded(n, base, back, d, alloc, ngroups, nregs, size);
    } else if n.Quant? {
      QuantBounded(n, base, back, d, alloc, ngroups, nregs, size);
    } else {
      LeafBounded(n, base, back, d, alloc, ngroups, nregs, size);
    }
  }

  /** What a node asks of its parts. */
  lemma Parts(n: Node, back: bool, ngroups: nat)
    requires Parsed(n, ngroups)
    ensures n.Cat? ==> Parsed(n.first, ngroups) && Parsed(n.second, ngroups)
                       && Groups(n) == Groups(n.first) + Groups(n.second)
                          && Regs(n, back) == Max(Regs(n.first, back), Regs(n.second, back))
    ensures n.Alt? ==> Parsed(n.left, ngroups) && Parsed(n.right, ngroups)
                       && Groups(n) == Groups(n.left) + Groups(n.right)
                          && Regs(n, back) == Max(Regs(n.left, back), Regs(n.right, back))
    ensures n.Group? ==> Parsed(n.body, ngroups) && Groups(n) == 1 + Groups(n.body)
                         && Regs(n, back) == Regs(n.body, back)
    ensures n.Look? ==> Parsed(n.body, ngroups) && Groups(n) == Groups(n.body)
                        && Regs(n, back) == Regs(n.body, n.behind)
  {
  }

  lemma {:induction false} CatBounded(n: Node, base: nat, back: bool, d: nat, alloc: bool, ngroups: nat, nregs: nat,
                                      size: nat)
    requires n.Cat? && Parsed(n, ngroups) && base + Groups(n) <= ngroups
    requires Reg(d + Regs(n, back), alloc) <= nregs && 0 < nregs
    requires SizeAll(Code(n, base, back, d, alloc)) + 20 <= size
    ensures AllBounded(Code(n, base, back, d, alloc), ngroups, nregs, size)
    decreases n, 0
  {
    hide Code, AllBounded, SizeAll, Parsed, Regs, Groups;
    Parts(n, back, ngroups);
    var ca, cb := Code(n.first, base, back, d, alloc), Code(n.second, base + Groups(n.first), back, d, alloc);
    CodeOfCat(n, base, back, d, alloc);
    SizeAppend(ca, cb);
    SizeAppend(cb, ca);
    CodeBounded(n.first, base, back, d, alloc, ngroups, nregs, size);
    CodeBounded(n.second, base + Groups(n.first), back, d, alloc, ngroups, nregs, size);
    BoundedAppend(ca, cb, ngroups, nregs, size);
    BoundedAppend(cb, ca, ngroups, nregs, size);
  }

  lemma {:induction false} GroupBounded(n: Node, base: nat, back: bool, d: nat, alloc: bool, ngroups: nat, nregs: nat,
                                        size: nat)
    requires n.Group? && Parsed(n, ngroups) && base + Groups(n) <= ngroups
    requires Reg(d + Regs(n, back), alloc) <= nregs && 0 < nregs
    requires SizeAll(Code(n, base, back, d, alloc)) + 20 <= size
    ensures AllBounded(Code(n, base, back, d, alloc), ngroups, nregs, size)
    decreases n, 0
  {
    hide Code, AllBounded, SizeAll, Parsed, Regs, Groups;
    Parts(n, back, ngroups);
    var cb := Code(n.body, base + 1, back, d, alloc);
    CodeOfGroup(n, base, back, d, alloc);
    BracketSize(ISave(back, base), cb, ISave(!back, base));
    CodeBounded(n.body, base + 1, back, d, alloc, ngroups, nregs, size);
    BoundedSnoc(cb, ISave(!back, base), ngroups, nregs, size);
    BoundedCons(ISave(back, base), cb + [ISave(!back, base)], ngroups, nregs, size);
  }

  lemma {:induction false} LookBounded(n: Node, base: nat, back: bool, d: nat, alloc: bool, ngroups: nat, nregs: nat,
                                       size: nat)
    requires n.Look? && Parsed(n, ngroups) && base + Groups(n) <= ngroups
    requires Reg(d + Regs(n, back), alloc) <= nregs && 0 < nregs
    requires SizeAll(Code(n, base, back, d, alloc)) + 20 <= size
    ensures AllBounded(Code(n, base, back, d, alloc), ngroups, nregs, size)
    decreases n, 0
  {
    hide Code, AllBounded, SizeAll, Parsed, Regs, Groups;
    Parts(n, back, ngroups);
    var cb := Code(n.body, base, n.behind, d, alloc);
    CodeOfLook(n, base, back, d, alloc);
    BracketSize(ILook(n.negative, SizeAll(cb) + 1), cb, ILookMatch(n.negative));
    CodeBounded(n.body, base, n.behind, d, alloc, ngroups, nregs, size);
    BoundedSnoc(cb, ILookMatch(n.negative), ngroups, nregs, size);
    BoundedCons(ILook(n.negative, SizeAll(cb) + 1), cb + [ILookMatch(n.negative)], ngroups, nregs, size);
  }

  lemma BracketSize(i: Instr, code: seq<Instr>, j: Instr)
    ensures SizeAll([i] + (code + [j])) == Size(i) + SizeAll(code) + Size(j)
  {
    SizeAppend([i], code + [j]);
    SizeAppend(code, [j]);
    assert [i][1..] == [] && [j][1..] == [];
  }

  lemma AltFits(n: Node, base: nat, back: bool, d: nat, alloc: bool, ngroups: nat, nregs: nat, size: nat)
    requires n.Alt? && Parsed(n, ngroups) && base + Groups(n) <= ngroups
    requires Reg(d + Regs(n, back), alloc) <= nregs
    requires SizeAll(Code(n, base, back, d, alloc)) + 20 <= size
    ensures Parsed(n.left, ngroups) && Parsed(n.right, ngroups)
    ensures base + Groups(n.left) + Groups(n.right) <= ngroups
    ensures Reg(d + Regs(n.left, back), alloc) <= nregs && Reg(d + Regs(n.right, back), alloc) <= nregs
    ensures var la, lb := SizeAll(Code(n.left, base, back, d, alloc)),
            SizeAll(Code(n.right, base + Groups(n.left), back, d, alloc));
            la + lb + 30 <= size && Bounded(ISplit(true, la + 5), ngroups, nregs, size)
              && Bounded(IGoto(lb), ngroups, nregs, size)
  {
    hide Code, SizeAll, Parsed, Regs, Groups;
    Parts(n, back, ngroups);
    var ca, cb := Code(n.left, base, back, d, alloc), Code(n.right, base + Groups(n.left), back, d, alloc);
    CodeOfAlt(n, base, back, d, alloc);
    AltSize(ISplit(true, SizeAll(ca) + 5), ca, IGoto(SizeAll(cb)), cb);
  }

  lemma {:induction false} AltBounded(n: Node, base: nat, back: bool, d: nat, alloc: bool, ngroups: nat, nregs: nat,
                                      size: nat)
    requires n.Alt? && Parsed(n, ngroups) && base + Groups(n) <= ngroups
    requires Reg(d + Regs(n, back), alloc) <= nregs && 0 < nregs
    requires SizeAll(Code(n, base, back, d, alloc)) + 20 <= size
    ensures AllBounded(Code(n, base, back, d, alloc), ngroups, nregs, size)
    decreases n, 0
  {
    hide Code, AllBounded, SizeAll, Parsed, Regs, Bounded, Groups;
    AltFits(n, base, back, d, alloc, ngroups, nregs, size);
    var ca, cb := Code(n.left, base, back, d, alloc), Code(n.right, base + Groups(n.left), back, d, alloc);
    var i, j := ISplit(true, SizeAll(ca) + 5), IGoto(SizeAll(cb));
    CodeOfAlt(n, base, back, d, alloc);
    CodeBounded(n.left, base, back, d, alloc, ngroups, nregs, size);
    CodeBounded(n.right, base + Groups(n.left), back, d, alloc, ngroups, nregs, size);
    BoundedCons(j, cb, ngroups, nregs, size);
    BoundedAppend(ca, [j] + cb, ngroups, nregs, size);
    BoundedCons(i, ca + ([j] + cb), ngroups, nregs, size);
  }

  lemma AltSize(i: Instr, ca: seq<Instr>, j: Instr, cb: seq<Instr>)
    ensures SizeAll([i] + (ca + ([j] + cb))) == Size(i) + SizeAll(ca) + Size(j) + SizeAll(cb)
  {
    SizeAppend([i], ca + ([j] + cb));
    SizeAppend(ca, [j] + cb);
    SizeAppend([j], cb);
    assert [i][1..] == [] && [j][1..] == [];
  }

  lemma NeverCode(atom: seq<Instr>, min: nat, max: Bound, greedy: bool, d: nat, alloc: bool)
    ensures LoopCode(atom, Never, min, max, greedy, d, alloc) == []
  {
  }

  /** A loop contains its atom. */
  lemma AtomInLoop(atom: seq<Instr>, s: Shape, min: nat, max: Bound, greedy: bool, d: nat, alloc: bool)
    requires s != Never
    ensures SizeAll(atom) <= SizeAll(LoopCode(atom, s, min, max, greedy, d, alloc))
  {
    hide SizeAll;
    match s
    case Split(many, check) =>
      var code := SplitLoop(atom, many, check, greedy, d, alloc);
      var k := 1 + if check then 1 else 0;
      assert code == code[..k] + (atom + code[k + |atom|..]);
      SizeAppend(code[..k], atom + code[k + |atom|..]);
      SizeAppend(atom, code[k + |atom|..]);
    case Plus => SizeAppend(atom, [ISplit(!greedy, -(SizeAll(atom) + 5))]);
    case Counted(optional, simple, check) =>
      var code := CountedLoop(atom, optional, simple, check, greedy, min, IntMax(max), d, alloc);
      var k := 1 + (if optional then 1 else 0) + if check then 1 else 0;
      assert code == code[..k] + (atom + code[k + |atom|..]);
      SizeAppend(code[..k], atom + code[k + |atom|..]);
      SizeAppend(atom, code[k + |atom|..]);
  }

  lemma AtomBounded(b: Node, base: nat, back: bool, d: nat, alloc: bool, ngroups: nat, nregs: nat, size: nat)
    requires AllBounded(Code(b, base, back, d, alloc), ngroups, nregs, size) && base + Groups(b) <= ngroups
    ensures AllBounded(LoopAtom(b, base, back, d, alloc), ngroups, nregs, size)
  {
    hide Code, AllBounded;
    var emit, count := !Linear(b), Groups(b);
    BoundedOptional(emit && count > 0, IReset(base, base + (if count > 0 then count - 1 else 0)), ngroups, nregs, size);
    BoundedAppend(ResetCode(emit, base, count), Code(b, base, back, d, alloc), ngroups, nregs, size);
  }

  lemma {:induction false} QuantBounded(n: Node, base: nat, back: bool, d: nat, alloc: bool, ngroups: nat, nregs: nat,
                                        size: nat)
    requires n.Quant? && Parsed(n, ngroups) && base + Groups(n) <= ngroups
    requires Reg(d + Regs(n, back), alloc) <= nregs && 0 < nregs
    requires SizeAll(Code(n, base, back, d, alloc)) + 20 <= size
    ensures AllBounded(Code(n, base, back, d, alloc), ngroups, nregs, size)
    decreases n, 0
  {
    hide Code, AllBounded, SizeAll, LoopAtom, LoopCode;
    var b, s := n.body, ShapeOf(n.body, n.min, n.max, back);
    var emit, r := n.min == 0 && Linear(b), d + ShapeRegs(s);
    var atom := LoopAtom(b, base, back, r, alloc);
    var loop := LoopCode(atom, s, n.min, n.max, n.greedy, d, alloc);
    CodeOfQuant(n, base, back, d, alloc);
    SizeAppend(ResetCode(emit, base, Groups(b)), loop);
    BoundedOptional(emit && Groups(b) > 0, IReset(base, base + (if Groups(b) > 0 then Groups(b) - 1 else 0)), ngroups,
                    nregs, size);
    if s == Never {
      assert loop == [] by { NeverCode(atom, n.min, n.max, n.greedy, d, alloc); }
      BoundedOptional(false, IDot, ngroups, nregs, size);
    } else {
      AtomInLoop(atom, s, n.min, n.max, n.greedy, d, alloc);
      AtomSize(b, base, back, r, alloc);
      CodeBounded(b, base, back, r, alloc, ngroups, nregs, size);
      AtomBounded(b, base, back, r, alloc, ngroups, nregs, size);
      LoopBounded(atom, s, n.min, n.max, n.greedy, d, alloc, ngroups, nregs, size);
    }
    BoundedAppend(ResetCode(emit, base, Groups(b)), loop, ngroups, nregs, size);
  }
}
