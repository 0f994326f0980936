/** lre_compile: emission of the whole program, allocation of its registers in
    place, and the header in front. */
module RegexpCompile {
  import opened RegexpSemantics
  import opened RegexpInstr
  import opened RegexpBytecode
  import opened RegexpCompiler
  import opened RegexpLayout
  import opened RegexpBounds
  import opened RegexpSyntax
  import opened RegexpEmitter
  import opened RegexpRegisters
  import opened RegexpProgram
  import opened RegexpRealizes
  import opened RegexpWalk

  const REGISTER_COUNT_MAX: nat := 255
  const RE_HEADER_LEN: nat := 8
  const RE_HEADER_CAPTURE_COUNT: nat := 2
  const RE_HEADER_REGISTER_COUNT: nat := 3
  const RE_HEADER_BYTECODE_LEN: nat := 4

  datatype CompileError = TooManyCaptures | TooManyQuantifiers | OutOfMemory

  datatype CompileResult = Compiled(bytecode: seq<byte>) | Error(error: CompileError)

  const START: Pass := Pass(0, 0, true)

  lemma {:induction false} PassGrows(code: seq<Instr>, p: Pass)
    ensures AfterAll(code, p).peak >= p.peak
    ensures AfterAll(code, p).balanced ==> p.balanced
    decreases |code|
  {
    if code != [] {
      PassGrows(code[1..], After(code[0], p));
    }
  }

  lemma FilledBytes(i: Instr, p: Pass)
    requires 0 <= p.used - Pops(i) < 256
    ensures Encode(Filled(i, p))
         == if Pushes(i) || Pops(i) > 0 then Encode(i)[1 := p.used - Pops(i)] else Encode(i)
  {
    var r := p.used - Pops(i);
    if Pushes(i) || Pops(i) > 0 {
      var op, reg, more := RegisterFirst(i);
      var op1, reg1, more1 := RegisterFirst(Filled(i, p));
      assert Encode(Filled(i, p)) == Encode(i)[1 := r];
    }
  }

  /** An instruction with a register has it right behind the opcode. */
  lemma RegisterFirst(i: Instr) returns (op: byte, reg: nat, more: seq<byte>)
    requires Pushes(i) || Pops(i) > 0
    ensures op == Opcode(i) && Encode(i) == [op] + Put8(reg) + more
    ensures i.ISet? || i.ISetPos? || i.ICheckAdv? || i.ILoop? || i.ILoopSplit?
    ensures reg == i.reg
    ensures more == if i.ISet? then Put32(i.val) else if i.ILoop? then Put32(i.off)
                    else if i.ILoopSplit? then Put32(i.limit) + Put32(i.off) else []
  {
    hide Put32, Put8;
    op, reg := Opcode(i), i.reg;
    more := if i.ISet? then Put32(i.val) else if i.ILoop? then Put32(i.off)
            else if i.ILoopSplit? then Put32(i.limit) + Put32(i.off) else [];
    assert Operands(i) == Put8(reg) + more;
  }

  lemma RegisterOpcodes(i: Instr)
    ensures var op := Opcode(i);
            && (Pushes(i) <==> op == OP_SET_I32 || op == OP_SET_CHAR_POS)
            && (Pops(i) == 1 <==> op == OP_CHECK_ADVANCE || op == OP_LOOP || op == OP_LOOP_SPLIT_GOTO_FIRST
                                  || op == OP_LOOP_SPLIT_NEXT_FIRST)
            && (Pops(i) == 2 <==> op == OP_LOOP_CHECK_ADV_SPLIT_GOTO_FIRST || op == OP_LOOP_CHECK_ADV_SPLIT_NEXT_FIRST)
            && Pops(i) <= 2 && (Pushes(i) || Pops(i) > 0 ==> Size(i) >= 2)
  {
  }

  /** What the pass has done: the finished part is filled in, the rest is as it was. */
  ghost predicate Progress(bytes: seq<byte>, pos: nat, done: seq<Instr>, rest: seq<Instr>) {
    && RE_HEADER_LEN <= pos <= |bytes|
    && bytes[RE_HEADER_LEN..pos] == EncodeAll(FilledAll(done, START))
    && bytes[pos..] == EncodeAll(rest)
  }

  /** One instruction further. */
  lemma ProgressStep(b0: seq<byte>, b1: seq<byte>, pos: nat, done: seq<Instr>, rest: seq<Instr>)
    requires Progress(b0, pos, done, rest) && rest != [] && LengthFits(rest[0])
    requires var i, p := rest[0], AfterAll(done, START);
             && 0 <= p.used - Pops(i) < 256
             && (Pushes(i) || Pops(i) > 0 ==> pos + 1 < |b0| && b1 == b0[pos + 1 := p.used - Pops(i)])
             && (!(Pushes(i) || Pops(i) > 0) ==> b1 == b0)
    ensures Progress(b1, pos + Size(rest[0]), done + [rest[0]], rest[1..])
    ensures AfterAll(done + [rest[0]], START) == After(rest[0], AfterAll(done, START))
    ensures b1[..RE_HEADER_LEN] == b0[..RE_HEADER_LEN]
  {
    hide EncodeAll, FilledAll, AfterAll, Encode, Filled, LengthFits;
    var i, p := rest[0], AfterAll(done, START);
    SizeSeen(b0, pos, rest);
    RegisterOpcodes(i);
    PassSnoc(done, i, START);
    EncodeSnoc(FilledAll(done, START), Filled(i, p));
    FilledBytes(i, p);
    HeadBytes(b0, pos, rest);
    var n := Size(i);
    assert b1[pos..pos + n] == Encode(Filled(i, p));
    assert b1[RE_HEADER_LEN..pos] == b0[RE_HEADER_LEN..pos];
    assert b1[RE_HEADER_LEN..pos + n] == b1[RE_HEADER_LEN..pos] + b1[pos..pos + n];
    assert b1[pos + n..] == b0[pos + n..];
  }

  lemma HeadBytes(b: seq<byte>, pos: nat, rest: seq<Instr>)
    requires pos <= |b| && b[pos..] == EncodeAll(rest) && rest != []
    ensures pos + Size(rest[0]) <= |b| && b[pos..pos + Size(rest[0])] == Encode(rest[0])
  {
    assert |b[pos..]| == SizeAll(rest);
    assert b[pos..pos + Size(rest[0])] == b[pos..][..Size(rest[0])];
  }

  /** compute_register_count, in place. Its assertions that the stack never
      underflows are proved here for code that is balanced. */
  method ComputeRegisterCount(bc: array<byte>, ghost code: seq<Instr>) returns (count: int)
    requires RE_HEADER_LEN <= bc.Length && bc[RE_HEADER_LEN..] == EncodeAll(code) && LengthsFit(code)
    requires AfterAll(code, START).balanced
    modifies bc
    ensures bc[..RE_HEADER_LEN] == old(bc[..RE_HEADER_LEN])
    ensures count == -1 <==> AfterAll(code, START).peak > REGISTER_COUNT_MAX
    ensures count != -1 ==> count == AfterAll(code, START).peak
                            && bc[RE_HEADER_LEN..] == EncodeAll(FilledAll(code, START))
  {
    hide EncodeAll, FilledAll, Encode, Filled, LengthFits, LengthsFit, AfterAll, Opcode, SizeAt, Progress;
    var stackSize, stackSizeMax, pos := 0, 0, RE_HEADER_LEN;
    ghost var done, rest := [], code;
    assert bc[..][RE_HEADER_LEN..] == bc[RE_HEADER_LEN..];
    NothingDone(bc[..], code);
    while pos < bc.Length
      invariant pos <= bc.Length && code == done + rest && LengthsFit(rest)
      invariant Progress(bc[..], pos, done, rest)
      invariant AfterAll(done, START) == Pass(stackSize, stackSizeMax, true)
      invariant 0 <= stackSize <= stackSizeMax <= REGISTER_COUNT_MAX
      invariant bc[..RE_HEADER_LEN] == old(bc[..RE_HEADER_LEN])
    {
      NextSeen(bc[..], pos, done, rest);
      ghost var b0, i := bc[..], rest[0];
      Remaining(done, rest);
      var len := SizeAt(bc[..], pos);
      stackSize, stackSizeMax := AllocateAt(bc, pos, stackSize, stackSizeMax, i);
      assert bc[..RE_HEADER_LEN] == bc[..][..RE_HEADER_LEN] == b0[..RE_HEADER_LEN];
      if stackSizeMax > REGISTER_COUNT_MAX {
        return -1;
      }
      ProgressStep(b0, bc[..], pos, done, rest);
      assert bc[..RE_HEADER_LEN] == bc[..][..RE_HEADER_LEN];
      pos := pos + len;
      done, rest := done + [i], rest[1..];
    }
    AllDone(bc[..], pos, done, rest);
    assert done == code;
    assert bc[RE_HEADER_LEN..] == bc[..][RE_HEADER_LEN..];
    count := stackSizeMax;
  }

  lemma NextSeen(b: seq<byte>, pos: nat, done: seq<Instr>, rest: seq<Instr>)
    requires Progress(b, pos, done, rest) && pos < |b| && LengthsFit(rest)
    ensures rest != [] && LengthFits(rest[0]) && LengthsFit(rest[1..])
    ensures b[pos] == Opcode(rest[0]) && SizeAt(b, pos) == Size(rest[0]) && pos + Size(rest[0]) <= |b|
    ensures Pushes(rest[0]) || Pops(rest[0]) > 0 ==> pos + 1 < |b|
  {
    hide EncodeAll, FilledAll, Encode, LengthFits, Opcode, SizeAt, SizeAll;
    NothingLeft(b, pos, rest);
    SizeSeen(b, pos, rest);
    RegisterOpcodes(rest[0]);
  }

  lemma AllDone(b: seq<byte>, pos: nat, done: seq<Instr>, rest: seq<Instr>)
    requires Progress(b, pos, done, rest) && pos == |b|
    ensures rest == [] && b[RE_HEADER_LEN..] == EncodeAll(FilledAll(done, START))
  {
    hide EncodeAll, FilledAll;
    NothingLeft(b, pos, rest);
    assert b[RE_HEADER_LEN..pos] == b[RE_HEADER_LEN..];
  }

  /** The switch of the pass: one instruction `i` at `pos`. */
  method AllocateAt(bc: array<byte>, pos: nat, stackSize: int, stackSizeMax: int, ghost i: Instr)
    returns (stackSize1: int, stackSizeMax1: int)
    requires pos + Size(i) <= bc.Length && bc[pos] == Opcode(i)
    requires 0 <= stackSize <= stackSizeMax <= REGISTER_COUNT_MAX && Pops(i) <= stackSize
    modifies bc
    ensures After(i, Pass(stackSize, stackSizeMax, true)) == Pass(stackSize1, stackSizeMax1, true)
    ensures if (Pushes(i) || Pops(i) > 0) && stackSize - Pops(i) < 256
            then pos + 1 < bc.Length && bc[..] == old(bc[..])[pos + 1 := stackSize - Pops(i)]
            else bc[..] == old(bc[..])
  {
    RegisterOpcodes(i);
    var op := bc[pos];
    stackSize1, stackSizeMax1 := stackSize, stackSizeMax;
    if op == OP_SET_I32 || op == OP_SET_CHAR_POS {
      bc[pos + 1] := stackSize1;
      stackSize1 := stackSize1 + 1;
      if stackSize1 > stackSizeMax1 {
        stackSizeMax1 := stackSize1;
      }
    } else if op == OP_CHECK_ADVANCE || op == OP_LOOP || op == OP_LOOP_SPLIT_GOTO_FIRST
      || op == OP_LOOP_SPLIT_NEXT_FIRST {
      assert stackSize1 > 0;
      stackSize1 := stackSize1 - 1;
      bc[pos + 1] := stackSize1;
    } else if op == OP_LOOP_CHECK_ADV_SPLIT_GOTO_FIRST || op == OP_LOOP_CHECK_ADV_SPLIT_NEXT_FIRST {
      assert stackSize1 >= 2;
      stackSize1 := stackSize1 - 2;
      bc[pos + 1] := stackSize1;
    }
  }

  lemma NothingDone(b: seq<byte>, code: seq<Instr>)
    requires RE_HEADER_LEN <= |b| && b[RE_HEADER_LEN..] == EncodeAll(code)
    ensures Progress(b, RE_HEADER_LEN, [], code) && AfterAll([], START) == START
  {
    assert EncodeAll(FilledAll([], START)) == [];
  }

  lemma NothingLeft(b: seq<byte>, pos: nat, rest: seq<Instr>)
    requires pos <= |b| && b[pos..] == EncodeAll(rest)
    ensures rest == [] <==> pos == |b|
  {
    assert |b[pos..]| == SizeAll(rest);
  }

  /** What lies ahead was balanced from the start and only raises the peak. */
  lemma Remaining(done: seq<Instr>, rest: seq<Instr>)
    requires AfterAll(done + rest, START).balanced && rest != []
    ensures After(rest[0], AfterAll(done, START)).balanced
    ensures AfterAll(done + rest, START).peak >= After(rest[0], AfterAll(done, START)).peak
    ensures done + rest == done + [rest[0]] + rest[1..]
  {
    hide AfterAll, FilledAll, After;
    PassAppend(done, rest, START);
    AfterFirst(rest, AfterAll(done, START));
    PassGrows(rest[1..], After(rest[0], AfterAll(done, START)));
  }

  lemma AfterFirst(code: seq<Instr>, p: Pass)
    requires code != []
    ensures AfterAll(code, p) == AfterAll(code[1..], After(code[0], p))
  {
  }

  const LRE_FLAG_STICKY: nat := 0x20

  predicate IsSticky(reFlags: nat) {
    reFlags / LRE_FLAG_STICKY % 2 == 1
  }

  // ----- lre_compile --------------------------------------------------------

  lemma PrefixPass(sticky: bool, p: Pass)
    requires p.used >= 0
    ensures FilledAll(Prefix(sticky), p) == Prefix(sticky) && AfterAll(Prefix(sticky), p) == p
  {
    hide FilledAll, AfterAll;
    if sticky {
      PassOptional(false, IDot, p);
    } else {
      PassCons(ISplit(false, 6), [IAny] + [IGoto(-11)], p);
      PassCons(IAny, [IGoto(-11)], p);
      PassOne(IGoto(-11), p);
    }
  }

  lemma ProgramPass(n: Node, sticky: bool)
    ensures FilledAll(ProgramCode(n, sticky, false), START) == ProgramCode(n, sticky, true)
    ensures AfterAll(ProgramCode(n, sticky, false), START) == Pass(0, Regs(n, false), true)
  {
    hide Code, FilledAll, AfterAll, Regs, Prefix;
    var body := Code(Group(n), 0, false, 0, false);
    PrefixPass(sticky, START);
    PassAppend(Prefix(sticky), body + [IMatch], START);
    PassCode(Group(n), 0, false, 0, START);
    RegsOf(Group(n), false);
    PassSnoc(body, IMatch, START);
  }

  lemma ProgramBounded(n: Node, sticky: bool, alloc: bool, nregs: nat)
    requires Parsed(n, 1 + Groups(n)) && 0 < nregs && (alloc ==> Regs(n, false) <= nregs)
    ensures AllBounded(ProgramCode(n, sticky, alloc), 1 + Groups(n), nregs, SizeAll(ProgramCode(n, sticky, alloc)) + 20)
  {
    hide Code, AllBounded, SizeAll, Regs;
    var ngroups, body, size := 1 + Groups(n), Code(Group(n), 0, false, 0, alloc),
      SizeAll(ProgramCode(n, sticky, alloc)) + 20;
    SizeAppend(Prefix(sticky), body + [IMatch]);
    SizeAppend(body, [IMatch]);
    RegsOf(Group(n), false);
    CodeBounded(Group(n), 0, false, 0, alloc, ngroups, nregs, size);
    BoundedSnoc(body, IMatch, ngroups, nregs, size);
    if sticky {
      BoundedOptional(false, IDot, ngroups, nregs, size);
    } else {
      BoundedOptional(true, IGoto(-11), ngroups, nregs, size);
      BoundedCons(IAny, [IGoto(-11)], ngroups, nregs, size);
      BoundedCons(ISplit(false, 6), [IAny] + [IGoto(-11)], ngroups, nregs, size);
    }
    BoundedAppend(Prefix(sticky), body + [IMatch], ngroups, nregs, size);
  }

  lemma PrefixBytes(sticky: bool)
    ensures EncodeAll(Prefix(sticky))
         == if sticky then [] else ([OP_SPLIT_GOTO_FIRST] + Put32(6)) + [OP_ANY] + ([OP_GOTO] + Put32(-11))
  {
    if !sticky {
      EncodeCons(ISplit(false, 6), [IAny] + [IGoto(-11)]);
      EncodeCons(IAny, [IGoto(-11)]);
      EncodeOne(IGoto(-11));
    }
  }

  lemma ProgramBytes(n: Node, sticky: bool)
    ensures EncodeAll(ProgramCode(n, sticky, false))
         == EncodeAll(Prefix(sticky))
            + (([OP_SAVE_START] + Put8(0)) + Raw(n, 1, false) + ([OP_SAVE_END] + Put8(0)) + [OP_MATCH])
  {
    hide Code, EncodeAll, Put8, Prefix, Encode, Raw;
    var body := Code(Group(n), 0, false, 0, false);
    EncodeAppend(Prefix(sticky), body + [IMatch]);
    EncodeSnoc(body, IMatch);
    CaptureBytes(n, 0, false);
    RawIs(Group(n), 0, false);
    assert Encode(IMatch) == [OP_MATCH] by { MatchByte(); }
  }

  lemma MatchByte()
    ensures Encode(IMatch) == [OP_MATCH]
  {
  }

  /** The emission part: header space, search prefix, and the pattern as group 0.
      `full` tells that a string list did not fit into the buffer. */
  method EmitProgram(d: Disjunction, sticky: bool, reFlags: nat)
    returns (buf: seq<byte>, captureCount: nat, ok: bool, full: bool, ghost n1: Node)
    requires ParsedDisjunction(d, 1 + Groups(DisjunctionNode(d)), false)
    ensures ok <==> 1 + Groups(DisjunctionNode(d)) <= CAPTURE_COUNT_MAX
    ensures ok ==> captureCount == 1 + Groups(DisjunctionNode(d))
                   && Realizes(DisjunctionNode(d), n1, false, 1 + Groups(DisjunctionNode(d)))
    ensures NoListsIn(d) ==> !full && (ok ==> n1 == DisjunctionNode(d))
    ensures ok && !full ==> RE_HEADER_LEN <= |buf| && buf[..2] == Put16(reFlags)
    ensures ok && !full ==> buf[RE_HEADER_LEN..] == EncodeAll(ProgramCode(n1, sticky, false))
  {
    hide Code, EncodeAll, ProgramCode, Put8, Put16, Put32, Raw, Encode, Prefix, DisjunctionNode, Realizes;
    var s := new Emitter();
    var walker := new Walker(s);
    s.buf := Put16(reFlags) + [0, 0] + [0, 0, 0, 0];
    ghost var header := s.buf;
    PrefixBytes(sticky);
    if !sticky {
      var _ := s.EmitOpU32(OP_SPLIT_GOTO_FIRST, 1 + 5);
      s.EmitOp(OP_ANY);
      var _ := s.EmitOpU32(OP_GOTO, -(5 + 1 + 5));
    }
    assert s.buf == header + EncodeAll(Prefix(sticky));
    s.EmitOpU8(OP_SAVE_START, 0);
    ok, n1 := walker.EmitDisjunction(d, false, 1 + Groups(DisjunctionNode(d)));
    full := walker.full;
    if ok && !full {
      s.EmitOpU8(OP_SAVE_END, 0);
      s.EmitOp(OP_MATCH);
      ProgramBytes(n1, sticky);
      assert s.buf == header + EncodeAll(ProgramCode(n1, sticky, false));
    }
    buf, captureCount := s.buf, s.captureCount;
  }

  /** What the engine needs to know of compiled bytecode. */
  ghost predicate IsCompiled(bytecode: seq<byte>, n: Node, sticky: bool) {
    && RE_HEADER_LEN <= |bytecode|
    && bytecode[RE_HEADER_CAPTURE_COUNT] == 1 + Groups(n)
    && bytecode[RE_HEADER_REGISTER_COUNT] == Regs(n, false)
    && Get32(bytecode, RE_HEADER_BYTECODE_LEN) == |bytecode| - RE_HEADER_LEN
    && bytecode[RE_HEADER_LEN..] == EncodeAll(ProgramCode(n, sticky, true))
    && At(Fetcher(bytecode[RE_HEADER_LEN..]), 0, ProgramCode(n, sticky, true))
  }

  /** The bytecode is the program of the pattern, or of the same pattern with its
      strings of equal length in another order. */
  ghost predicate IsBytecodeOf(bytecode: seq<byte>, n: Node, sticky: bool) {
    exists n1 :: Realizes(n, n1, false, 1 + Groups(n)) && IsCompiled(bytecode, n1, sticky)
  }

  lemma CompiledAt(code: seq<byte>, n: Node, sticky: bool)
    requires Parsed(n, 1 + Groups(n)) && 1 + Groups(n) <= CAPTURE_COUNT_MAX && Regs(n, false) <= REGISTER_COUNT_MAX
    requires code == EncodeAll(ProgramCode(n, sticky, true)) && |code| <= INT32_MAX / 2
    ensures At(Fetcher(code), 0, ProgramCode(n, sticky, true))
  {
    hide Regs, ProgramCode, EncodeAll, SizeAll, At;
    var program := ProgramCode(n, sticky, true);
    ProgramBounded(n, sticky, true, 256);
    BoundedEncodable(program, 1 + Groups(n), 256, SizeAll(program) + 20);
    assert |code| == SizeAll(program) && code[0..SizeAll(program)] == code;
    AtEncoded(code, 0, program);
  }

  /** lre_compile succeeds unless there are too many groups, too many nested
      loops or too much code; then its bytecode is the program of the pattern
      with every register in place. */
  method LreCompile(d: Disjunction, reFlags: nat) returns (r: CompileResult)
    requires ParsedDisjunction(d, 1 + Groups(DisjunctionNode(d)), false)
    ensures var n, sticky := DisjunctionNode(d), IsSticky(reFlags);
            && (r.Compiled? ==> IsBytecodeOf(r.bytecode, n, sticky) && r.bytecode[..2] == Put16(reFlags))
            && (r.Compiled? && NoListsIn(d) ==> IsCompiled(r.bytecode, n, sticky))
            && (r == Error(TooManyCaptures) <==> 1 + Groups(n) > CAPTURE_COUNT_MAX)
            && (r == Error(TooManyQuantifiers) ==> Regs(n, false) > REGISTER_COUNT_MAX)
            && (r.Compiled? ==> Regs(n, false) <= REGISTER_COUNT_MAX)
            && (r == Error(OutOfMemory) && NoListsIn(d) ==>
                  RE_HEADER_LEN + SizeAll(ProgramCode(n, sticky, true)) > INT32_MAX / 2)
  {
    hide Code, Regs, ProgramCode, EncodeAll, SizeAll, At, DisjunctionNode, AllBounded, Put8, Put16, Put32, Get32,
         IsCompiled, LengthsFit, AfterAll, FilledAll, Parsed, ParsedDisjunction, Groups, IsSticky, Realizes, NoListsIn;
    var sticky := IsSticky(reFlags);
    ghost var n := DisjunctionNode(d);
    var buf, captureCount, ok, full, n1 := EmitProgram(d, sticky, reFlags);
    if !ok {
      return Error(TooManyCaptures);
    }
    if full {
      return Error(OutOfMemory);
    }
    RealizedFacts(n, n1, false, 1 + Groups(n));
    ghost var code := ProgramCode(n1, sticky, false);
    ProgramPass(n1, sticky);
    FilledSize(code, START);
    if |buf| > INT32_MAX / 2 {
      return Error(OutOfMemory);
    }
    ProgramBounded(n1, sticky, false, 1);
    BoundedLengths(code, 1 + Groups(n1), 1, SizeAll(code) + 20);
    var bc := new byte[|buf|](i requires 0 <= i < |buf| => buf[i]);
    assert bc[..] == buf;
    assert bc[RE_HEADER_LEN..] == bc[..][RE_HEADER_LEN..];
    var registerCount := ComputeRegisterCount(bc, code);
    if registerCount < 0 {
      return Error(TooManyQuantifiers);
    }
    var bytes := bc[..];
    assert bytes[RE_HEADER_LEN..] == bc[RE_HEADER_LEN..];
    assert bytes[..2] == bc[..RE_HEADER_LEN][..2] == buf[..2];
    r := Compiled(bytes[..2] + Put8(captureCount) + Put8(registerCount) + Put32(|bytes| - RE_HEADER_LEN)
                  + bytes[RE_HEADER_LEN..]);
    HeaderCompiled(bytes[..2], captureCount, registerCount, bytes[RE_HEADER_LEN..], n1, sticky);
  }

  lemma HeaderCompiled(flags: seq<byte>, captureCount: nat, registerCount: nat, code: seq<byte>, n: Node, sticky: bool)
    requires |flags| == 2 && captureCount == 1 + Groups(n) <= CAPTURE_COUNT_MAX
             && registerCount == Regs(n, false) <= REGISTER_COUNT_MAX
    requires Parsed(n, 1 + Groups(n)) && code == EncodeAll(ProgramCode(n, sticky, true)) && |code| <= INT32_MAX / 2
    ensures var b := flags + Put8(captureCount) + Put8(registerCount) + Put32(|code|) + code;
            IsCompiled(b, n, sticky) && b[..2] == flags
  {
    hide Regs, ProgramCode, EncodeAll, SizeAll, At, Put8, Put32, Get32, Groups, Parsed;
    HeaderRead(flags, captureCount, registerCount, code);
    CompiledAt(code, n, sticky);
  }

  lemma HeaderRead(flags: seq<byte>, captureCount: nat, registerCount: nat, code: seq<byte>)
    requires |flags| == 2 && captureCount < 256 && registerCount < 256 && |code| < TWO31
    ensures var b := flags + Put8(captureCount) + Put8(registerCount) + Put32(|code|) + code;
            && b[..2] == flags && b[RE_HEADER_LEN..] == code && |b| == RE_HEADER_LEN + |code|
            && b[RE_HEADER_CAPTURE_COUNT] == captureCount && b[RE_HEADER_REGISTER_COUNT] == registerCount
            && Get32(b, RE_HEADER_BYTECODE_LEN) == |code|
  {
    var b := flags + Put8(captureCount) + Put8(registerCount) + Put32(|code|) + code;
    assert b[4..8] == Put32(|code|);
    Get32Put32(b, 4, |code|);
  }
}
