/** The emitter: one growing buffer into which code is appended, inserted,
    rotated and patched. Every method is proved against the code the pattern
    should have, so code that is moved after it was written (by an insertion in
    front of it, or by the reversal of terms in a lookbehind) is still right:
    all its jumps are relative and stay inside the block that moves. */
module RegexpEmitter {
  import opened RegexpSemantics
  import opened RegexpInstr
  import opened RegexpBytecode
  import opened RegexpClass
  import opened RegexpCompiler
  import opened RegexpScan
  import opened RegexpLayout
  import opened RegexpBounds
  import opened RegexpSyntax

  const CAPTURE_COUNT_MAX: nat := 255

  /** reopcode_info: the size of an instruction without its variable part. */
  function OpSize(op: byte): nat {
    if op == OP_CHAR then 3
    else if op == OP_CHAR32 then 5
    else if op == OP_GOTO || op == OP_SPLIT_GOTO_FIRST || op == OP_SPLIT_NEXT_FIRST then 5
    else if op == OP_SAVE_START || op == OP_SAVE_END then 2
    else if op == OP_SAVE_RESET then 3
    else if op == OP_LOOP || op == OP_SET_I32 then 6
    else if OP_LOOP_SPLIT_GOTO_FIRST <= op <= OP_LOOP_CHECK_ADV_SPLIT_NEXT_FIRST then 10
    else if op == OP_BACK_REFERENCE || op == OP_BACKWARD_BACK_REFERENCE then 2
    else if op == OP_RANGE || op == OP_RANGE32 then 3
    else if op == OP_LOOKAHEAD || op == OP_LOOKAHEAD + 1 then 5
    else if op == OP_SET_CHAR_POS || op == OP_CHECK_ADVANCE then 2
    else 1
  }

  /** The size that the linear passes work out from the bytes. */
  function SizeAt(buf: seq<byte>, pos: nat): nat
    requires pos < |buf|
  {
    var op := buf[pos];
    if op == OP_RANGE && pos + 3 <= |buf| then 3 + 4 * Get16(buf, pos + 1)
    else if op == OP_RANGE32 && pos + 3 <= |buf| then 3 + 8 * Get16(buf, pos + 1)
    else if (op == OP_BACK_REFERENCE || op == OP_BACKWARD_BACK_REFERENCE)
      && pos + 2 <= |buf| then 2 + buf[pos + 1] as nat
    else OpSize(op)
  }

  /** At the start of an instruction, the passes see its opcode and its size. */
  lemma SizeSeen(buf: seq<byte>, pos: nat, code: seq<Instr>)
    requires pos <= |buf| && buf[pos..] == EncodeAll(code) && code != [] && LengthFits(code[0])
    ensures pos < |buf| && buf[pos] == Opcode(code[0]) && SizeAt(buf, pos) == Size(code[0])
    ensures pos + Size(code[0]) <= |buf| && buf[pos + Size(code[0])..] == EncodeAll(code[1..])
  {
    var i, t := code[0], EncodeAll(code);
    assert |buf| - pos == SizeAll(code);
    assert buf[pos] == buf[pos..][0] == Opcode(i);
    assert forall k :: 0 <= k < Size(i) ==> buf[pos + k] == buf[pos..][k] == Encode(i)[k];
    LengthSeen(buf, pos, i);
    assert buf[pos..][Size(i)..] == EncodeAll(code[1..]);
    assert buf[pos + Size(i)..] == buf[pos..][Size(i)..];
  }

  lemma LengthSeen(buf: seq<byte>, pos: nat, i: Instr)
    requires pos + Size(i) <= |buf| && LengthFits(i)
    requires forall k :: 0 <= k < Size(i) ==> buf[pos + k] == Encode(i)[k]
    ensures SizeAt(buf, pos) == Size(i)
  {
    hide EncodePairs16, EncodePairs32, EncodeGroups, Put16, Put8, Put32, SizeAt;
    assert buf[pos + 0] == Encode(i)[0] == Opcode(i);
    if i.IRange? || i.IRange32? {
      assert Size(i) >= 3;
      assert buf[pos + 1] == Encode(i)[1] == Operands(i)[0] == Put16(|i.pairs|)[0];
      assert buf[pos + 2] == Encode(i)[2] == Operands(i)[1] == Put16(|i.pairs|)[1];
      CountRead(buf, pos, i);
    } else if i.IBackRef? {
      assert Size(i) >= 2;
      assert buf[pos + 1] == Encode(i)[1] == Operands(i)[0] == Put8(|i.groups|)[0];
      GroupsRead(buf, pos, i);
    } else {
      FixedSize(buf, pos, i);
    }
  }

  lemma CountRead(buf: seq<byte>, pos: nat, i: Instr)
    requires (i.IRange? || i.IRange32?) && pos + 3 <= |buf| && LengthFits(i) && buf[pos] == Opcode(i)
    requires buf[pos + 1] == Put16(|i.pairs|)[0] && buf[pos + 2] == Put16(|i.pairs|)[1]
    ensures SizeAt(buf, pos) == Size(i)
  {
  }

  lemma GroupsRead(buf: seq<byte>, pos: nat, i: Instr)
    requires i.IBackRef? && pos + 2 <= |buf| && LengthFits(i) && buf[pos] == Opcode(i)
    requires buf[pos + 1] == Put8(|i.groups|)[0]
    ensures SizeAt(buf, pos) == Size(i)
  {
  }

  lemma FixedSize(buf: seq<byte>, pos: nat, i: Instr)
    requires !i.IRange? && !i.IRange32? && !i.IBackRef? && pos < |buf| && buf[pos] == Opcode(i)
    ensures SizeAt(buf, pos) == Size(i)
  {
  }

  class Emitter {
    var buf: seq<byte>
    var captureCount: nat

    constructor ()
      ensures buf == [] && captureCount == 1
    {
      buf, captureCount := [], 1;
    }

    // ----- writing to the buffer ----------------------------------------------

    method EmitOp(op: byte)
      modifies `buf
      ensures buf == old(buf) + [op]
    {
      buf := buf + [op];
    }

    method EmitOpU8(op: byte, val: int)
      modifies `buf
      ensures buf == old(buf) + ([op] + Put8(val))
    {
      buf := buf + [op];
      buf := buf + Put8(val);
    }

    method EmitOpU16(op: byte, val: int)
      modifies `buf
      ensures buf == old(buf) + ([op] + Put16(val))
    {
      buf := buf + [op];
      buf := buf + Put16(val);
    }

    /** Returns the position of the operand. */
    method EmitOpU32(op: byte, val: int) returns (pos: nat)
      modifies `buf
      ensures buf == old(buf) + ([op] + Put32(val)) && pos == |old(buf)| + 1
    {
      buf := buf + [op];
      pos := |buf|;
      buf := buf + Put32(val);
    }

    /** A jump to `target`, relative to the end of the instruction. */
    method EmitGoto(op: byte, target: nat)
      modifies `buf
      ensures buf == old(buf) + ([op] + Put32(target - (|old(buf)| + 5)))
    {
      buf := buf + [op];
      var pos := |buf|;
      buf := buf + Put32(target - (pos + 4));
    }

    method EmitGotoU8(op: byte, arg: int, target: nat)
      modifies `buf
      ensures buf == old(buf) + ([op] + (Put8(arg) + Put32(target - (|old(buf)| + 6))))
    {
      buf := buf + [op];
      buf := buf + Put8(arg);
      var pos := |buf|;
      buf := buf + Put32(target - (pos + 4));
    }

    method EmitGotoU8U32(op: byte, arg0: int, arg1: int, target: nat)
      modifies `buf
      ensures buf == old(buf) + ([op] + (Put8(arg0) + Put32(arg1) + Put32(target - (|old(buf)| + 10))))
    {
      buf := buf + [op];
      buf := buf + Put8(arg0);
      buf := buf + Put32(arg1);
      var pos := |buf|;
      buf := buf + Put32(target - (pos + 4));
    }

    /** dbuf_insert, followed by the bytes written into the gap. */
    method Insert(pos: nat, bytes: seq<byte>)
      requires pos <= |buf|
      modifies `buf
      ensures buf == old(buf)[..pos] + bytes + old(buf)[pos..]
    {
      buf := buf[..pos] + bytes + buf[pos..];
    }

    /** put_u32 over an operand already written. */
    method Patch(pos: nat, val: int)
      requires pos + 4 <= |buf|
      modifies `buf
      ensures buf == old(buf)[..pos] + Put32(val) + old(buf)[pos + 4..]
    {
      buf := buf[..pos] + Put32(val) + buf[pos + 4..];
    }

    // ----- the scan of an atom ------------------------------------------------

    /** re_need_check_adv_and_capture_init */
    method ScanAtom(start: nat, ghost code: seq<Instr>) returns (v: Verdict)
      requires start <= |buf| && buf[start..] == EncodeAll(code)
      requires LengthsFit(code)
      ensures v == Scan(code, Verdict(true, false))
    {
      var checkAdv, captureInit, pos := true, false, start;
      ghost var rest := code;
      while pos < |buf|
        invariant start <= pos <= |buf| && buf[pos..] == EncodeAll(rest)
        invariant LengthsFit(rest)
        invariant Scan(code, Verdict(true, false)) == Scan(rest, Verdict(checkAdv, captureInit))
      {
        assert rest != [];
        SizeSeen(buf, pos, rest);
        OpcodeKind(rest[0]);
        var op, len := buf[pos], SizeAt(buf, pos);
        if op == OP_RANGE || op == OP_RANGE32 || op == OP_CHAR || op == OP_CHAR32 || op == OP_DOT || op == OP_ANY {
          checkAdv := false;
        } else if op == OP_LINE_START || op == OP_LINE_START + 1 || op == OP_LINE_END || op == OP_LINE_END + 1
                  || op == OP_SET_I32 || op == OP_SET_CHAR_POS || op == OP_WORD_BOUNDARY || op == OP_NOT_WORD_BOUNDARY
                  || op == OP_PREV || op == OP_SAVE_START || op == OP_SAVE_END || op == OP_SAVE_RESET {
        } else if op == OP_BACK_REFERENCE || op == OP_BACKWARD_BACK_REFERENCE {
          captureInit := true;
        } else {
          captureInit := true;
          return Verdict(checkAdv, captureInit);
        }
        pos := pos + len;
        rest := rest[1..];
      }
      assert |EncodeAll(rest)| == 0;
      assert rest == [];
      v := Verdict(checkAdv, captureInit);
    }

    // ----- atoms that are one piece of code -----------------------------------

    /** re_emit_range: the choice of the encoding. */
    method EmitRange(iv: Intervals)
      requires Sorted(iv)
      modifies `buf
      ensures buf == old(buf) + Encode(ClassInstr(iv))
    {
      if |iv| == 0 {
        var _ := EmitOpU32(OP_CHAR32, -1);
        assert Put32(-1) == Put32(UINT32_MAX);
      } else {
        var last := iv[|iv| - 1];
        var high := if last.1 == UINT32_MAX then last.0 else last.1;
        if high <= 0xffff {
          EmitRange16(iv);
        } else {
          EmitRange32(iv);
        }
      }
    }

    method EmitRange16(iv: Intervals)
      requires Sorted(iv)
      modifies `buf
      ensures buf == old(buf) + Encode(IRange(Pairs16(iv)))
    {
      hide EncodePairs16, Encode, Put16;
      Range16Encoding(Pairs16(iv));
      EmitOpU16(OP_RANGE, |iv|);
      ghost var pairs, head := Pairs16(iv), buf;
      var i := 0;
      assert EncodePairs16([]) == [] by { NoPairs(); }
      while i < |iv|
        invariant 0 <= i <= |iv|
        invariant buf == head + EncodePairs16(pairs[..i])
      {
        buf := buf + Put16(iv[i].0);
        var end := iv[i].1 - 1;
        if end == UINT32_MAX - 1 {
          end := 0xffff;
        }
        buf := buf + Put16(end);
        PairsSnoc16(pairs, i);
        i := i + 1;
      }
      assert pairs[..i] == pairs;
    }

    method EmitRange32(iv: Intervals)
      requires Sorted(iv)
      modifies `buf
      ensures buf == old(buf) + Encode(IRange32(Pairs32(iv)))
    {
      hide EncodePairs32, Encode, Put16, Put32;
      Range32Encoding(Pairs32(iv));
      EmitOpU16(OP_RANGE32, |iv|);
      ghost var pairs, head := Pairs32(iv), buf;
      var i := 0;
      assert EncodePairs32([]) == [] by { NoPairs(); }
      while i < |iv|
        invariant 0 <= i <= |iv|
        invariant buf == head + EncodePairs32(pairs[..i])
      {
        buf := buf + Put32(iv[i].0);
        buf := buf + Put32(iv[i].1 - 1);
        PairsSnoc32(pairs, i);
        i := i + 1;
      }
      assert pairs[..i] == pairs;
    }

    method EmitCharTest(n: Node, ghost ngroups: nat)
      requires IsCharTest(n) && Parsed(n, ngroups)
      modifies `buf
      ensures buf == old(buf) + Encode(CharInstr(n))
    {
      if n.Char? {
        if n.c <= 0xffff {
          EmitOpU16(OP_CHAR, n.c);
        } else {
          var _ := EmitOpU32(OP_CHAR32, n.c);
        }
      } else if n.Dot? {
        EmitOp(OP_DOT);
      } else if n.Class? {
        assert Proper(n.intervals);
        EmitRange(n.intervals);
      } else {
        EmitOp(OP_ANY);
      }
    }

    method EmitAssert(kind: AssertKind)
      modifies `buf
      ensures buf == old(buf) + Encode(IAssert(kind))
    {
      match kind
      case LineStart(multiline) => EmitOp(if multiline then OP_LINE_START + 1 else OP_LINE_START);
      case LineEnd(multiline) => EmitOp(if multiline then OP_LINE_END + 1 else OP_LINE_END);
      case WordBoundary(positive) => EmitOp(if positive then OP_WORD_BOUNDARY else OP_NOT_WORD_BOUNDARY);
    }

    method EmitBackRef(groups: seq<nat>, back: bool)
      modifies `buf
      ensures buf == old(buf) + Encode(IBackRef(back, groups))
    {
      hide EncodeGroups, Encode, Put8;
      BackRefEncoding(IBackRef(back, groups));
      EmitOpU8(if back then OP_BACKWARD_BACK_REFERENCE else OP_BACK_REFERENCE, |groups|);
      ghost var head := buf;
      var i := 0;
      assert EncodeGroups([]) == [] by { NoPairs(); }
      while i < |groups|
        invariant 0 <= i <= |groups|
        invariant buf == head + EncodeGroups(groups[..i])
      {
        buf := buf + Put8(groups[i]);
        GroupsSnoc(groups, i);
        i := i + 1;
      }
      assert groups[..i] == groups;
    }

    /** Matching backward, a character test is wrapped in two steps to the left. */
    method EmitTest(n: Node, ghost base: nat, back: bool, ghost ngroups: nat)
      requires IsTest(n) && Parsed(n, ngroups)
      modifies `buf
      ensures buf == old(buf) + Raw(n, base, back)
    {
      hide Encode, EncodeAll, Parsed;
      TestBytes(n, base, back);
      if n.Assert? {
        EmitAssert(n.kind);
      } else if n.BackRef? {
        EmitBackRef(n.groups, back);
      } else {
        if back {
          EmitOp(OP_PREV);
        }
        EmitCharTest(n, ngroups);
        if back {
          EmitOp(OP_PREV);
        }
      }
    }

    // ----- quantifiers --------------------------------------------------------

    /** ? and *: the fork goes in front of the atom, the rest behind it. */
    method EmitSplitLoop(start: nat, many: bool, check: bool, greedy: bool, ghost atom: seq<Instr>)
      requires start <= |buf| && buf[start..] == EncodeAll(atom)
      modifies `buf
      ensures buf == old(buf)[..start] + EncodeAll(SplitLoop(atom, many, check, greedy, 0, false))
    {
      hide EncodeAll, SizeAll, SplitLoop, Put32, Put8, Encode, OptionalBytes;
      var len := |buf| - start;
      ghost var pre, body := buf[..start], EncodeAll(atom);
      var size := len + (if many then 5 else 0) + (if check then 4 else 0);
      var entry := [if greedy then OP_SPLIT_NEXT_FIRST else OP_SPLIT_GOTO_FIRST] + Put32(size);
      var mark := if check then [OP_SET_CHAR_POS, 0] else [];
      Insert(start, entry + mark);
      if check {
        EmitOpU8(OP_CHECK_ADVANCE, 0);
      }
      ghost var head := buf;
      SplitPieces(greedy, size, check, many, start - (|buf| + 5));
      assert head == pre + (Encode(ISplit(greedy, size)) + OptionalBytes(check, ISetPos(0))) + body
             + OptionalBytes(check, ICheckAdv(0));
      if many {
        EmitGoto(OP_GOTO, start);
      }
      SplitAssembled(pre, atom, many, check, greedy);
      assert buf == head + OptionalBytes(many, IGoto(start - (|head| + 5)));
    }

    /** Counted loops: the counter is loaded in front of the atom. */
    method EmitCountedLoop(start: nat, optional: bool, check: bool, min: nat, max: nat, greedy: bool,
                           ghost atom: seq<Instr>)
      requires start <= |buf| && buf[start..] == EncodeAll(atom) && min <= max
      requires optional ==> min == 0 && min != max
      modifies `buf
      ensures buf == old(buf)[..start]
                  + EncodeAll(CountedLoop(atom, optional, min == max, check && min != max, greedy, min, max, 0, false))
    {
      hide EncodeAll, SizeAll, CountedLoop, CountedBody, Put32, Put8, Encode;
      var len := |buf| - start;
      ghost var pre, body := buf[..start], EncodeAll(atom);
      var check1 := check && min != max;
      var mark := if check1 then [OP_SET_CHAR_POS, 0] else [];
      var load := [OP_SET_I32] + (Put8(0) + Put32(max));
      var entry := if optional then [if greedy then OP_SPLIT_NEXT_FIRST else OP_SPLIT_GOTO_FIRST]
                                    + Put32(6 + |mark| + len + 10) else [];
      Insert(start, entry + load + mark);
      var last := start + |entry| + |load|;
      assert buf == pre + (entry + load + mark) + body;
      ghost var head := buf;
      if min == max {
        EmitGotoU8(OP_LOOP, 0, last);
      } else {
        var op := if check1 then OP_LOOP_CHECK_ADV_SPLIT_NEXT_FIRST else OP_LOOP_SPLIT_NEXT_FIRST;
        EmitGotoU8U32(if greedy then op - 1 else op, 0, max - min, last);
      }
      CountedAssembled(pre, atom, optional, min == max, check1, greedy, min, max);
    }

    /** Put a quantifier around the atom written from `start` on. */
    method EmitQuantifier(start: nat, lastCaptureCount: nat, q: Quantifier, ghost b: Node, back: bool,
                          ghost ngroups: nat)
      requires start <= |buf| && buf[start..] == Raw(b, lastCaptureCount, back)
      requires captureCount == lastCaptureCount + Groups(b) <= ngroups && Parsed(b, ngroups)
      requires q.min <= q.max <= INT32_MAX
      modifies `buf
      ensures buf == old(buf)[..start] + Raw(Quant(b, q.min, BoundOf(q.max), q.greedy), lastCaptureCount, back)
    {
      hide Code, EncodeAll, SizeAll, LoopAtom, Encode, Put8, Linear, Advances, Parsed, Scan, LoopBytesOf, Raw, RawAtom,
           AllBounded, LengthsFit, Groups, Regs;
      ghost var code, pre := Code(b, lastCaptureCount, back, 0, false), buf[..start];
      assert Raw(b, lastCaptureCount, back) == EncodeAll(code) by { RawIs(b, lastCaptureCount, back); }
      assert Reg(0 + Regs(b, back), false) == 0;
      CodeBounded(b, lastCaptureCount, back, 0, false, ngroups, 1, SizeAll(code) + 20);
      BoundedLengths(code, ngroups, 1, SizeAll(code) + 20);
      var v := ScanAtom(start, code);
      ScanVerdict(b, lastCaptureCount, back, 0, false, ngroups);
      var differ := lastCaptureCount != captureCount;
      var reset := [OP_SAVE_RESET] + Put8(lastCaptureCount) + Put8(captureCount - 1);
      if v.captureInit && differ {
        Insert(start, reset);
      }
      ghost var atom := RawAtom(b, lastCaptureCount, back);
      if differ {
        ResetWritten(lastCaptureCount, Groups(b));
      }
      assert buf == pre + EncodeAll(atom) by {
        AtomBytes(b, lastCaptureCount, back);
      }
      var last := start;
      if q.min == 0 && !v.captureInit && differ {
        Insert(start, reset);
        last := start + 3;
      }
      EmitLoop(last, v.checkAdv, q, atom);
      QuantBytes(b, q, lastCaptureCount, back);
    }

    /** The loop proper, by the shape of the quantifier. */
    method EmitLoop(start: nat, check: bool, q: Quantifier, ghost atom: seq<Instr>)
      requires start <= |buf| && buf[start..] == EncodeAll(atom)
      requires q.min <= q.max <= INT32_MAX
      modifies `buf
      ensures buf == old(buf)[..start] + EncodeAll(LoopBytesOf(atom, check, q))
    {
      hide EncodeAll, SizeAll, SplitLoop, CountedLoop;
      if q.min == 0 {
        if q.max == 0 {
          buf := buf[..start];
          assert EncodeAll([]) == [] by { NothingEncoded(); }
        } else if q.max == 1 || q.max == INT32_MAX {
          EmitSplitLoop(start, q.max == INT32_MAX, check, q.greedy, atom);
        } else {
          EmitCountedLoop(start, true, check, 0, q.max, q.greedy, atom);
        }
      } else if q.min == 1 && q.max == INT32_MAX && !check {
        EmitGoto(if q.greedy then OP_SPLIT_GOTO_FIRST else OP_SPLIT_NEXT_FIRST, start);
        PlusBytes(atom, q.greedy);
        assert old(buf) == old(buf)[..start] + EncodeAll(atom);
      } else {
        EmitCountedLoop(start, false, check, q.min, q.max, q.greedy, atom);
      }
    }
  }

  lemma OpcodeKind(i: Instr)
    ensures var op := Opcode(i);
            && (Consumes(i) <==> op == OP_RANGE || op == OP_RANGE32 || op == OP_CHAR || op == OP_CHAR32
                                 || op == OP_DOT || op == OP_ANY)
            && (NoEffect(i) <==> op == OP_LINE_START || op == OP_LINE_START + 1 || op == OP_LINE_END
                                 || op == OP_LINE_END + 1
                                 || op == OP_SET_I32 || op == OP_SET_CHAR_POS || op == OP_WORD_BOUNDARY
                                 || op == OP_NOT_WORD_BOUNDARY
                                 || op == OP_PREV || op == OP_SAVE_START || op == OP_SAVE_END || op == OP_SAVE_RESET)
            && (i.IBackRef? <==> op == OP_BACK_REFERENCE || op == OP_BACKWARD_BACK_REFERENCE)
  {
  }

  lemma NothingEncoded()
    ensures EncodeAll([]) == []
  {
  }

  /** The loop the emitter chooses, given the verdict of the scan. */
  ghost function LoopBytesOf(atom: seq<Instr>, check: bool, q: Quantifier): seq<Instr>
    requires q.min <= q.max
  {
    if q.min == 0 then
      if q.max == 0 then []
      else if q.max == 1 || q.max == INT32_MAX then SplitLoop(atom, q.max == INT32_MAX, check, q.greedy, 0, false)
      else CountedLoop(atom, true, false, check, q.greedy, 0, q.max, 0, false)
    else if q.min == 1 && q.max == INT32_MAX && !check then PlusLoop(atom, q.greedy)
    else CountedLoop(atom, false, q.min == q.max, check && q.min != q.max, q.greedy, q.min, q.max, 0, false)
  }

  /** It is the loop of the compiler. */
  lemma LoopChosen(b: Node, q: Quantifier, back: bool, atom: seq<Instr>)
    requires q.min <= q.max <= INT32_MAX
    ensures LoopBytesOf(atom, !Advances(b, back), q)
         == LoopCode(atom, ShapeOf(b, q.min, BoundOf(q.max), back), q.min, BoundOf(q.max), q.greedy, 0, false)
  {
    hide SplitLoop, CountedLoop, PlusLoop, Advances;
  }

  lemma QuantBytes(b: Node, q: Quantifier, base: nat, back: bool)
    requires q.min <= q.max <= INT32_MAX
    ensures var loop := LoopBytesOf(RawAtom(b, base, back), !Advances(b, back), q);
            Raw(Quant(b, q.min, BoundOf(q.max), q.greedy), base, back)
            == if q.min == 0 && Linear(b) && Groups(b) > 0 then Encode(IReset(base, base + Groups(b) - 1))
              + EncodeAll(loop)
               else EncodeAll(loop)
  {
    hide Code, LoopAtom, EncodeAll, Encode, LoopCode, LoopBytesOf, Advances;
    var n, s := Quant(b, q.min, BoundOf(q.max), q.greedy), ShapeOf(b, q.min, BoundOf(q.max), back);
    CodeOfQuant(n, base, back, 0, false);
    AtomWithoutRegisters(b, base, back, ShapeRegs(s), 0);
    var atom := RawAtom(b, base, back);
    LoopChosen(b, q, back, atom);
    ResetBytes(q.min == 0 && Linear(b), base, Groups(b), LoopBytesOf(atom, !Advances(b, back), q));
  }

  lemma {:induction false} PairsSnoc16(pairs: seq<(nat, nat)>, i: nat)
    requires i < |pairs|
    ensures EncodePairs16(pairs[..i + 1]) == EncodePairs16(pairs[..i]) + Put16(pairs[i].0) + Put16(pairs[i].1)
    decreases i
  {
    var a, b := pairs[..i + 1], pairs[..i];
    if i > 0 {
      PairsSnoc16(pairs[1..], i - 1);
      assert a[1..] == pairs[1..][..i] && b[1..] == pairs[1..][..i - 1];
    } else {
      assert a[1..] == [] && b == [];
    }
  }

  lemma {:induction false} PairsSnoc32(pairs: seq<(nat, nat)>, i: nat)
    requires i < |pairs|
    ensures EncodePairs32(pairs[..i + 1]) == EncodePairs32(pairs[..i]) + Put32(pairs[i].0) + Put32(pairs[i].1)
    decreases i
  {
    var a, b := pairs[..i + 1], pairs[..i];
    if i > 0 {
      PairsSnoc32(pairs[1..], i - 1);
      assert a[1..] == pairs[1..][..i] && b[1..] == pairs[1..][..i - 1];
    } else {
      assert a[1..] == [] && b == [];
    }
  }

  lemma {:induction false} GroupsSnoc(groups: seq<nat>, i: nat)
    requires i < |groups|
    ensures EncodeGroups(groups[..i + 1]) == EncodeGroups(groups[..i]) + Put8(groups[i])
    decreases i
  {
    var a, b := groups[..i + 1], groups[..i];
    if i > 0 {
      GroupsSnoc(groups[1..], i - 1);
      assert a[1..] == groups[1..][..i] && b[1..] == groups[1..][..i - 1];
    } else {
      assert a[1..] == [] && b == [];
    }
  }

  // The instructions that carry a list: a count and the items.

  lemma Range16Encoding(pairs: seq<(nat, nat)>)
    ensures Encode(IRange(pairs)) == [OP_RANGE] + Put16(|pairs|) + EncodePairs16(pairs)
  {
    hide EncodePairs16, Put16;
  }

  lemma Range32Encoding(pairs: seq<(nat, nat)>)
    ensures Encode(IRange32(pairs)) == [OP_RANGE32] + Put16(|pairs|) + EncodePairs32(pairs)
  {
    hide EncodePairs32, Put16;
  }

  lemma BackRefEncoding(i: Instr)
    requires i.IBackRef?
    ensures Encode(i)
         == [if i.back then OP_BACKWARD_BACK_REFERENCE else OP_BACK_REFERENCE] + Put8(|i.groups|)
           + EncodeGroups(i.groups)
  {
    hide EncodeGroups, Put8;
  }

  lemma NoPairs()
    ensures EncodePairs16([]) == [] && EncodePairs32([]) == [] && EncodeGroups([]) == []
  {
  }

  lemma TestBytes(n: Node, base: nat, back: bool)
    requires IsTest(n)
    ensures n.Assert? ==> Raw(n, base, back) == Encode(IAssert(n.kind))
    ensures n.BackRef? ==> Raw(n, base, back) == Encode(IBackRef(back, n.groups))
    ensures IsCharTest(n) ==>
              Raw(n, base, back) == if back then [OP_PREV] + Encode(CharInstr(n)) + [OP_PREV] else Encode(CharInstr(n))
  {
    hide CharInstr, Code, EncodeAll, Encode;
    CodeOfTest(n, base, back, 0, false);
    if n.Assert? {
      EncodeOne(IAssert(n.kind));
    } else if n.BackRef? {
      EncodeOne(IBackRef(back, n.groups));
    } else {
      var i := CharInstr(n);
      EncodeOne(i);
      EncodeSnoc([IPrev] + [i], IPrev);
      EncodeCons(IPrev, [i]);
      assert Encode(IPrev) == [OP_PREV] by { PrevByte(); }
    }
  }

  lemma PrevByte()
    ensures Encode(IPrev) == [OP_PREV]
  {
  }

  lemma AtomBytes(b: Node, base: nat, back: bool)
    ensures EncodeAll(RawAtom(b, base, back))
         == if !Linear(b) && Groups(b) > 0 then Encode(IReset(base, base + Groups(b) - 1)) + Raw(b, base, back)
           else Raw(b, base, back)
  {
    hide Code, EncodeAll, Encode;
    ResetBytes(!Linear(b), base, Groups(b), Code(b, base, back, 0, false));
  }

  lemma RawIs(n: Node, base: nat, back: bool)
    ensures Raw(n, base, back) == EncodeAll(Code(n, base, back, 0, false))
  {
  }

  lemma Regroup(pre: seq<byte>, a: seq<byte>, b: seq<byte>, c: seq<byte>, d: seq<byte>, e: seq<byte>)
    ensures pre + (a + b + c) + d + e == pre + (a + (b + (c + (d + e))))
  {
  }

  lemma ResetWritten(base: nat, count: nat)
    requires count > 0
    ensures [OP_SAVE_RESET] + Put8(base) + Put8(base + count - 1) == Encode(IReset(base, base + count - 1))
  {
  }

  /** The bytes written by EmitSplitLoop. */
  lemma SplitAssembled(pre: seq<byte>, atom: seq<Instr>, many: bool, check: bool, greedy: bool)
    ensures var body := EncodeAll(atom);
            var size := |body| + (if many then 5 else 0) + (if check then 4 else 0);
            var head := pre + (Encode(ISplit(greedy, size)) + OptionalBytes(check, ISetPos(0))) + body
              + OptionalBytes(check, ICheckAdv(0));
            head + OptionalBytes(many, IGoto(|pre| - (|head| + 5)))
              == pre + EncodeAll(SplitLoop(atom, many, check, greedy, 0, false))
  {
    hide EncodeAll, SizeAll, SplitLoop;
    var body := EncodeAll(atom);
    var size := |body| + (if many then 5 else 0) + (if check then 4 else 0);
    SplitBytes(atom, many, check, greedy);
    OptionalSize(check, ISetPos(0));
    OptionalSize(check, ICheckAdv(0));
    hide OptionalBytes, Encode;
    var entry, mark, adv := Encode(ISplit(greedy, size)), OptionalBytes(check, ISetPos(0)),
      OptionalBytes(check, ICheckAdv(0));
    var head := pre + (entry + mark) + body + adv;
    assert many ==> |pre| - (|head| + 5) == -(5 + size);
    var last := OptionalBytes(many, IGoto(-(5 + size)));
    assert OptionalBytes(many, IGoto(|pre| - (|head| + 5)))
           == last by { NoOptional(many, |pre| - (|head| + 5), -(5 + size)); }
    Regroup4(pre, entry, mark, body, adv, last);
  }

  lemma OptionalSize(emit: bool, i: Instr)
    ensures |OptionalBytes(emit, i)| == if emit then Size(i) else 0
  {
  }

  lemma NoOptional(emit: bool, off: int, off1: int)
    requires emit ==> off == off1
    ensures OptionalBytes(emit, IGoto(off)) == OptionalBytes(emit, IGoto(off1))
  {
  }

  lemma Regroup4(pre: seq<byte>, a: seq<byte>, b: seq<byte>, c: seq<byte>, d: seq<byte>, e: seq<byte>)
    ensures pre + (a + b) + c + d + e == pre + (a + (b + (c + (d + e))))
  {
  }

  /** What the emitter writes for each piece. */
  lemma SplitPieces(greedy: bool, size: int, check: bool, many: bool, off: int)
    ensures Encode(ISplit(greedy, size)) == [if greedy then OP_SPLIT_NEXT_FIRST else OP_SPLIT_GOTO_FIRST] + Put32(size)
    ensures OptionalBytes(check, ISetPos(0)) == if check then [OP_SET_CHAR_POS, 0] else []
    ensures OptionalBytes(check, ICheckAdv(0)) == if check then [OP_CHECK_ADVANCE] + Put8(0) else []
    ensures OptionalBytes(many, IGoto(off)) == if many then [OP_GOTO] + Put32(off) else []
  {
    hide Put32;
  }

  lemma CountedAssembled(pre: seq<byte>, atom: seq<Instr>, optional: bool, simple: bool, check: bool, greedy: bool,
                         min: nat, max: nat)
    requires min <= max && (simple <==> min == max) && (simple ==> !check)
    ensures var body := EncodeAll(atom);
            var mark := if check then [OP_SET_CHAR_POS, 0] else [];
            var load := [OP_SET_I32] + (Put8(0) + Put32(max));
            var entry := if optional then [if greedy then OP_SPLIT_NEXT_FIRST else OP_SPLIT_GOTO_FIRST]
                                          + Put32(6 + |mark| + |body| + 10) else [];
            var last := |pre| + |entry| + |load|;
            var head := pre + (entry + load + mark) + body;
            var op: byte := if check then OP_LOOP_CHECK_ADV_SPLIT_NEXT_FIRST else OP_LOOP_SPLIT_NEXT_FIRST;
            var op1: byte := if greedy then op - 1 else op;
            head + (if simple then [OP_LOOP] + (Put8(0) + Put32(last - (|head| + 6)))
                    else [op1] + (Put8(0) + Put32(max - min) + Put32(last - (|head| + 10))))
            == pre + EncodeAll(CountedLoop(atom, optional, simple, check, greedy, min, max, 0, false))
  {
    hide EncodeAll, SizeAll, CountedLoop, CountedBody, Put32, Put8, LoopEnd, Encode, OptionalBytes;
    var body := EncodeAll(atom);
    var mark := if check then [OP_SET_CHAR_POS, 0] else [];
    var load := [OP_SET_I32] + (Put8(0) + Put32(max));
    var entry := if optional then [if greedy then OP_SPLIT_NEXT_FIRST else OP_SPLIT_GOTO_FIRST]
                                  + Put32(6 + |mark| + |body| + 10) else [];
    var end := Encode(LoopEnd(simple, check, greedy, max - min, |body| + |mark|));
    LoopEndBytes(simple, check, greedy, max - min, |body| + |mark|);
    LoopStartBytes(optional, check, greedy, max, |body|);
    CountedPieces(atom, optional, simple, check, greedy, min, max, |mark|);
    assert EncodeAll(CountedLoop(atom, optional, simple, check, greedy, min, max, 0, false))
        == entry + (load + (mark + (body + end)));
    Regroup(pre, entry, load, mark, body, end);
  }

  lemma CountedPieces(atom: seq<Instr>, optional: bool, simple: bool, check: bool, greedy: bool, min: nat, max: nat,
                      extra: nat)
    requires min <= max && extra == if check then 2 else 0
    ensures var body := EncodeAll(atom);
            EncodeAll(CountedLoop(atom, optional, simple, check, greedy, min, max, 0, false))
            == OptionalBytes(optional, ISplit(greedy, 6 + extra + |body| + 10))
               + (Encode(ISet(0, max))
                  + (OptionalBytes(check, ISetPos(0))
                     + (body + Encode(LoopEnd(simple, check, greedy, max - min, |body| + extra)))))
  {
    hide EncodeAll, SizeAll, CountedLoop, CountedBody, LoopEnd, Encode, OptionalBytes;
    CountedBytes(atom, optional, simple, check, greedy, min, max);
    BodyBytes(atom, simple, check, greedy, max - min);
  }

  lemma LoopEndBytes(simple: bool, check: bool, greedy: bool, limit: nat, len: nat)
    requires simple ==> !check
    ensures var op: byte := if check then OP_LOOP_CHECK_ADV_SPLIT_NEXT_FIRST else OP_LOOP_SPLIT_NEXT_FIRST;
            var op1: byte := if greedy then op - 1 else op;
            Encode(LoopEnd(simple, check, greedy, limit, len))
            == if simple then [OP_LOOP] + (Put8(0) + Put32(-(len + 6)))
               else [op1] + (Put8(0) + Put32(limit) + Put32(-(len + 10)))
  {
    hide Put32;
  }

  lemma LoopStartBytes(optional: bool, check: bool, greedy: bool, max: nat, len: nat)
    ensures Encode(ISet(0, max)) == [OP_SET_I32] + (Put8(0) + Put32(max))
    ensures OptionalBytes(check, ISetPos(0)) == if check then [OP_SET_CHAR_POS, 0] else []
    ensures OptionalBytes(optional, ISplit(greedy, 6 + (if check then 2 else 0) + len + 10))
         == if optional then [if greedy then OP_SPLIT_NEXT_FIRST else OP_SPLIT_GOTO_FIRST]
                             + Put32(6 + (if check then 2 else 0) + len + 10) else []
  {
    hide Put32;
  }

  lemma TestGroups(n: Node)
    requires IsTest(n)
    ensures Groups(n) == 0
  {
  }

  lemma EmptyBytes(base: nat, back: bool)
    ensures Raw(Empty, base, back) == []
  {
  }

  lemma CatBytes(a: Node, b: Node, base: nat, back: bool)
    ensures Raw(Cat(a, b), base, back)
         == if back then Raw(b, base + Groups(a), back) + Raw(a, base, back)
           else Raw(a, base, back) + Raw(b, base + Groups(a), back)
  {
    hide Code, EncodeAll, SizeAll, Groups;
    var ca, cb := Code(a, base, back, 0, false), Code(b, base + Groups(a), back, 0, false);
    CodeOfCat(Cat(a, b), base, back, 0, false);
    if back {
      EncodeAppend(cb, ca);
    } else {
      EncodeAppend(ca, cb);
    }
  }

  lemma Regroup5(pre: seq<byte>, a: seq<byte>, b: seq<byte>, c: seq<byte>, d: seq<byte>, e: seq<byte>)
    ensures pre + a + b + c + d + e == pre + (a + b + c + d + e)
  {
  }

  lemma OrBytes(a: Node, b: Node, base: nat, back: bool)
    ensures var left, right := Raw(a, base, back), Raw(b, base + Groups(a), back);
            Raw(Alt(a, b), base, back)
            == ([OP_SPLIT_NEXT_FIRST] + Put32(|left| + 5)) + left + [OP_GOTO] + Put32(|right|) + right
  {
    hide Code, EncodeAll, Put32, SizeAll;
    var ca, cb := Code(a, base, back, 0, false), Code(b, base + Groups(a), back, 0, false);
    CodeOfAlt(Alt(a, b), base, back, 0, false);
    AltBytes(ca, cb);
  }

  lemma CaptureBytes(b: Node, g: nat, back: bool)
    ensures Raw(Node.Group(b), g, back)
         == ([if back then OP_SAVE_END else OP_SAVE_START] + Put8(g)) + Raw(b, g + 1, back)
            + ([if back then OP_SAVE_START else OP_SAVE_END] + Put8(g))
  {
    hide Code, EncodeAll, Put8;
    CodeOfGroup(Node.Group(b), g, back, 0, false);
    BracketBytes(ISave(back, g), Code(b, g + 1, back, 0, false), ISave(!back, g));
  }

  lemma LookBytes(b: Node, base: nat, behind: bool, negative: bool, back: bool)
    ensures var body := Raw(b, base, behind);
            Raw(Look(behind, negative, b), base, back)
            == ([if negative then OP_LOOKAHEAD + 1 else OP_LOOKAHEAD] + Put32(|body| + 1)) + body
               + [if negative then OP_LOOKAHEAD_MATCH + 1 else OP_LOOKAHEAD_MATCH]
  {
    hide Code, EncodeAll, Put32, SizeAll;
    var cb := Code(b, base, behind, 0, false);
    CodeOfLook(Look(behind, negative, b), base, back, 0, false);
    BracketBytes(ILook(negative, SizeAll(cb) + 1), cb, ILookMatch(negative));
  }
}
