/** The byte encoding of the instructions and its inverse.

    Opcode numbers are those of libregexp-opcode.h; the case-insensitive
    variants and the two white-space tests are not modelled, so their numbers
    decode to nothing. */
module RegexpBytecode {
  import opened RegexpSemantics
  import opened RegexpInstr

  type byte = b: int | 0 <= b < 256

  const TWO32: int := 0x1_0000_0000
  const TWO31: int := 0x8000_0000

  const OP_CHAR: byte := 1
  const OP_CHAR32: byte := 3
  const OP_DOT: byte := 5
  const OP_ANY: byte := 6
  const OP_LINE_START: byte := 9
  const OP_LINE_END: byte := 11
  const OP_GOTO: byte := 13
  const OP_SPLIT_GOTO_FIRST: byte := 14
  const OP_SPLIT_NEXT_FIRST: byte := 15
  const OP_MATCH: byte := 16
  const OP_LOOKAHEAD_MATCH: byte := 17
  const OP_SAVE_START: byte := 19
  const OP_SAVE_END: byte := 20
  const OP_SAVE_RESET: byte := 21
  const OP_LOOP: byte := 22
  const OP_LOOP_SPLIT_GOTO_FIRST: byte := 23
  const OP_LOOP_SPLIT_NEXT_FIRST: byte := 24
  const OP_LOOP_CHECK_ADV_SPLIT_GOTO_FIRST: byte := 25
  const OP_LOOP_CHECK_ADV_SPLIT_NEXT_FIRST: byte := 26
  const OP_SET_I32: byte := 27
  const OP_WORD_BOUNDARY: byte := 28
  const OP_NOT_WORD_BOUNDARY: byte := 30
  const OP_BACK_REFERENCE: byte := 32
  const OP_BACKWARD_BACK_REFERENCE: byte := 34
  const OP_RANGE: byte := 36
  const OP_RANGE32: byte := 38
  const OP_LOOKAHEAD: byte := 40
  const OP_SET_CHAR_POS: byte := 42
  const OP_CHECK_ADVANCE: byte := 43
  const OP_PREV: byte := 44

  function Bit(b: bool): int {
    if b then 1 else 0
  }

  function Opcode(i: Instr): byte {
    match i
    case IChar(_) => OP_CHAR
    case IChar32(_) => OP_CHAR32
    case IDot => OP_DOT
    case IAny => OP_ANY
    case IAssert(LineStart(m)) => OP_LINE_START + Bit(m)
    case IAssert(LineEnd(m)) => OP_LINE_END + Bit(m)
    case IAssert(WordBoundary(positive)) => if positive then OP_WORD_BOUNDARY else OP_NOT_WORD_BOUNDARY
    case IGoto(_) => OP_GOTO
    case ISplit(nextFirst, _) => OP_SPLIT_GOTO_FIRST + Bit(nextFirst)
    case IMatch => OP_MATCH
    case ILookMatch(negative) => OP_LOOKAHEAD_MATCH + Bit(negative)
    case ISave(end, _) => OP_SAVE_START + Bit(end)
    case IReset(_, _) => OP_SAVE_RESET
    case ILoop(_, _) => OP_LOOP
    case ILoopSplit(check, nextFirst, _, _, _) => OP_LOOP_SPLIT_GOTO_FIRST + 2 * Bit(check) + Bit(nextFirst)
    case ISet(_, _) => OP_SET_I32
    case IBackRef(back, _) => OP_BACK_REFERENCE + 2 * Bit(back)
    case IRange(_) => OP_RANGE
    case IRange32(_) => OP_RANGE32
    case ILook(negative, _) => OP_LOOKAHEAD + Bit(negative)
    case ISetPos(_) => OP_SET_CHAR_POS
    case ICheckAdv(_) => OP_CHECK_ADVANCE
    case IPrev => OP_PREV
  }

  // ----- little-endian operands ---------------------------------------------

  function Low8(v: int): byte {
    v % 256
  }

  function Put8(v: int): (r: seq<byte>)
    ensures |r| == 1
  {
    [Low8(v)]
  }

  function Put16(v: int): (r: seq<byte>)
    ensures |r| == 2
  {
    [Low8(v), Low8(v / 256)]
  }

  /** A negative value is stored as its two's complement. */
  function Put32(v: int): (r: seq<byte>)
    ensures |r| == 4
  {
    [Low8(v), Low8(v / 256), Low8(v / 0x1_0000), Low8(v / 0x100_0000)]
  }

  function Get16(s: seq<byte>, p: nat): nat
    requires p + 2 <= |s|
  {
    s[p] as int + 256 * s[p + 1] as int
  }

  function Get32(s: seq<byte>, p: nat): nat
    requires p + 4 <= |s|
  {
    s[p] as int + 256 * s[p + 1] as int + 0x1_0000 * s[p + 2] as int + 0x100_0000 * s[p + 3] as int
  }

  /** The cast (int)val of an unsigned 32-bit operand. */
  function Signed(v: nat): int {
    if v < TWO31 then v else v - TWO32
  }

  // ----- encoding -----------------------------------------------------------

  function EncodePairs16(pairs: seq<(nat, nat)>): (r: seq<byte>)
    ensures |r| == 4 * |pairs|
  {
    if pairs == [] then [] else Put16(pairs[0].0) + Put16(pairs[0].1) + EncodePairs16(pairs[1..])
  }

  function EncodePairs32(pairs: seq<(nat, nat)>): (r: seq<byte>)
    ensures |r| == 8 * |pairs|
  {
    if pairs == [] then [] else Put32(pairs[0].0) + Put32(pairs[0].1) + EncodePairs32(pairs[1..])
  }

  function EncodeGroups(groups: seq<nat>): (r: seq<byte>)
    ensures |r| == |groups|
  {
    if groups == [] then [] else Put8(groups[0]) + EncodeGroups(groups[1..])
  }

  function Operands(i: Instr): seq<byte> {
    match i
    case IChar(c) => Put16(c)
    case IChar32(c) => Put32(c)
    case IGoto(off) => Put32(off)
    case ISplit(_, off) => Put32(off)
    case ISave(_, g) => Put8(g)
    case IReset(first, last) => Put8(first) + Put8(last)
    case ILoop(reg, off) => Put8(reg) + Put32(off)
    case ILoopSplit(_, _, reg, limit, off) => Put8(reg) + Put32(limit) + Put32(off)
    case ISet(reg, val) => Put8(reg) + Put32(val)
    case IBackRef(_, groups) => Put8(|groups|) + EncodeGroups(groups)
    case IRange(pairs) => Put16(|pairs|) + EncodePairs16(pairs)
    case IRange32(pairs) => Put16(|pairs|) + EncodePairs32(pairs)
    case ILook(_, off) => Put32(off)
    case ISetPos(reg) => Put8(reg)
    case ICheckAdv(reg) => Put8(reg)
    case _ => []
  }

  function Encode(i: Instr): (r: seq<byte>)
    ensures |r| == Size(i)
  {
    [Opcode(i)] + Operands(i)
  }

  // ----- decoding -----------------------------------------------------------

  function DecodePairs16(s: seq<byte>, p: nat, n: nat): (r: seq<(nat, nat)>)
    requires p + 4 * n <= |s|
    ensures |r| == n
    decreases n
  {
    if n == 0 then [] else [(Get16(s, p), Get16(s, p + 2))] + DecodePairs16(s, p + 4, n - 1)
  }

  function DecodePairs32(s: seq<byte>, p: nat, n: nat): (r: seq<(nat, nat)>)
    requires p + 8 * n <= |s|
    ensures |r| == n
    decreases n
  {
    if n == 0 then [] else [(Get32(s, p), Get32(s, p + 4))] + DecodePairs32(s, p + 8, n - 1)
  }

  function DecodeGroups(s: seq<byte>, p: nat, n: nat): (r: seq<nat>)
    requires p + n <= |s|
    ensures |r| == n
    decreases n
  {
    if n == 0 then [] else [s[p] as nat] + DecodeGroups(s, p + 1, n - 1)
  }

  /** `n` operand bytes follow the opcode at `pc`. */
  predicate Room(s: seq<byte>, pc: nat, n: nat) {
    pc + 1 + n <= |s|
  }

  /** The instruction at byte `pc`, if there is one. */
  function Decode(s: seq<byte>, pc: nat): Option<Instr> {
    if pc >= |s| then None
    else
      var op := s[pc];
      if op == OP_CHAR then
        if Room(s, pc, 2) then Some(IChar(Get16(s, pc + 1))) else None
      else if op == OP_CHAR32 then
        if Room(s, pc, 4) then Some(IChar32(Get32(s, pc + 1))) else None
      else if op == OP_DOT then Some(IDot)
      else if op == OP_ANY then Some(IAny)
      else if op == OP_LINE_START || op == OP_LINE_START + 1 then Some(IAssert(LineStart(op != OP_LINE_START)))
      else if op == OP_LINE_END || op == OP_LINE_END + 1 then Some(IAssert(LineEnd(op != OP_LINE_END)))
      else if op == OP_WORD_BOUNDARY || op == OP_NOT_WORD_BOUNDARY then
        Some(IAssert(WordBoundary(op == OP_WORD_BOUNDARY)))
      else if op == OP_GOTO then
        if Room(s, pc, 4) then Some(IGoto(Signed(Get32(s, pc + 1)))) else None
      else if op == OP_SPLIT_GOTO_FIRST || op == OP_SPLIT_NEXT_FIRST then
        if Room(s, pc, 4) then Some(ISplit(op == OP_SPLIT_NEXT_FIRST, Signed(Get32(s, pc + 1)))) else None
      else if op == OP_MATCH then Some(IMatch)
      else if op == OP_LOOKAHEAD_MATCH || op == OP_LOOKAHEAD_MATCH + 1 then Some(ILookMatch(op != OP_LOOKAHEAD_MATCH))
      else if op == OP_SAVE_START || op == OP_SAVE_END then
        if Room(s, pc, 1) then Some(ISave(op == OP_SAVE_END, s[pc + 1])) else None
      else DecodeMore(s, pc)
  }

  function DecodeMore(s: seq<byte>, pc: nat): Option<Instr>
    requires pc < |s|
  {
    var op := s[pc];
    if op == OP_SAVE_RESET then
      if Room(s, pc, 2) then Some(IReset(s[pc + 1], s[pc + 2])) else None
    else if op == OP_LOOP then
      if Room(s, pc, 5) then Some(ILoop(s[pc + 1], Signed(Get32(s, pc + 2)))) else None
    else if OP_LOOP_SPLIT_GOTO_FIRST <= op <= OP_LOOP_CHECK_ADV_SPLIT_NEXT_FIRST then
      if Room(s, pc, 9) then
        Some(ILoopSplit(op >= OP_LOOP_CHECK_ADV_SPLIT_GOTO_FIRST,
                        op == OP_LOOP_SPLIT_NEXT_FIRST || op == OP_LOOP_CHECK_ADV_SPLIT_NEXT_FIRST,
                        s[pc + 1], Get32(s, pc + 2), Signed(Get32(s, pc + 6))))
      else None
    else if op == OP_SET_I32 then
      if Room(s, pc, 5) then Some(ISet(s[pc + 1], Get32(s, pc + 2))) else None
    else if op == OP_BACK_REFERENCE || op == OP_BACKWARD_BACK_REFERENCE then
      if Room(s, pc, 1) && Room(s, pc, 1 + s[pc + 1] as nat)
      then Some(IBackRef(op == OP_BACKWARD_BACK_REFERENCE, DecodeGroups(s, pc + 2, s[pc + 1]))) else None
    else if op == OP_RANGE then
      if Room(s, pc, 2) && Room(s, pc, 2 + 4 * Get16(s, pc + 1))
      then Some(IRange(DecodePairs16(s, pc + 3, Get16(s, pc + 1)))) else None
    else if op == OP_RANGE32 then
      if Room(s, pc, 2) && Room(s, pc, 2 + 8 * Get16(s, pc + 1))
      then Some(IRange32(DecodePairs32(s, pc + 3, Get16(s, pc + 1)))) else None
    else if op == OP_LOOKAHEAD || op == OP_LOOKAHEAD + 1 then
      if Room(s, pc, 4) then Some(ILook(op != OP_LOOKAHEAD, Signed(Get32(s, pc + 1)))) else None
    else if op == OP_SET_CHAR_POS then
      if Room(s, pc, 1) then Some(ISetPos(s[pc + 1])) else None
    else if op == OP_CHECK_ADVANCE then
      if Room(s, pc, 1) then Some(ICheckAdv(s[pc + 1])) else None
    else if op == OP_PREV then Some(IPrev)
    else None
  }

  // ----- what fits into the operand fields ----------------------------------

  predicate FitsJump(off: int) {
    -TWO31 <= off < TWO31
  }

  ghost predicate PairsBelow(pairs: seq<(nat, nat)>, bound: nat) {
    forall i :: 0 <= i < |pairs| ==> pairs[i].0 < bound && pairs[i].1 < bound
  }

  ghost predicate GroupsFit(groups: seq<nat>) {
    |groups| < 256 && forall i :: 0 <= i < |groups| ==> groups[i] < 256
  }

  ghost predicate Encodable(i: Instr) {
    match i
    case IChar(c) => c < 0x1_0000
    case IChar32(c) => c < TWO32
    case IGoto(off) => FitsJump(off)
    case ISplit(_, off) => FitsJump(off)
    case ISave(_, g) => g < 256
    case IReset(first, last) => first < 256 && last < 256
    case ILoop(reg, off) => reg < 256 && FitsJump(off)
    case ILoopSplit(_, _, reg, limit, off) => reg < 256 && limit < TWO32 && FitsJump(off)
    case ISet(reg, val) => reg < 256 && val < TWO32
    case IBackRef(_, groups) => GroupsFit(groups)
    case IRange(pairs) => |pairs| < 0x1_0000 && PairsBelow(pairs, 0x1_0000)
    case IRange32(pairs) => |pairs| < 0x1_0000 && PairsBelow(pairs, TWO32)
    case ILook(_, off) => FitsJump(off)
    case ISetPos(reg) => reg < 256
    case ICheckAdv(reg) => reg < 256
    case _ => true
  }

  // ----- decoding undoes encoding -------------------------------------------

  lemma Get16Put16(s: seq<byte>, p: nat, v: nat)
    requires p + 2 <= |s| && s[p..p + 2] == Put16(v) && v < 0x1_0000
    ensures Get16(s, p) == v
  {
    var t := s[p..p + 2];
    assert s[p] == t[0] && s[p + 1] == t[1];
  }

  lemma Bytes4(v: int)
    ensures v % 256 + 256 * (v / 256 % 256) + 0x1_0000 * (v / 0x1_0000 % 256) + 0x100_0000 * (v / 0x100_0000 % 256)
            == v % TWO32
  {
    assert v / 0x1_0000 == v / 256 / 256;
    assert v / 0x100_0000 == v / 0x1_0000 / 256;
    assert v / TWO32 == v / 0x100_0000 / 256;
  }

  lemma Get32Put32(s: seq<byte>, p: nat, v: int)
    requires p + 4 <= |s| && s[p..p + 4] == Put32(v)
    ensures 0 <= v < TWO32 ==> Get32(s, p) == v
    ensures FitsJump(v) ==> Signed(Get32(s, p)) == v
  {
    var t := s[p..p + 4];
    assert s[p] == t[0] && s[p + 1] == t[1] && s[p + 2] == t[2] && s[p + 3] == t[3];
    Bytes4(v);
  }

  lemma Slice(s: seq<byte>, p: nat, t: seq<byte>, q: nat, n: nat)
    requires p + |t| <= |s| && s[p..p + |t|] == t && q + n <= |t|
    ensures s[p + q..p + q + n] == t[q..q + n]
  {
    var u := s[p + q..p + q + n];
    forall k | 0 <= k < |u|
      ensures u[k] == t[q..q + n][k]
    {
      assert s[p..p + |t|][q + k] == t[q + k];
    }
  }

  lemma {:induction false} PairsRoundTrip16(s: seq<byte>, p: nat, pairs: seq<(nat, nat)>)
    requires p + 4 * |pairs| <= |s| && s[p..p + 4 * |pairs|] == EncodePairs16(pairs)
    requires PairsBelow(pairs, 0x1_0000)
    ensures DecodePairs16(s, p, |pairs|) == pairs
    decreases |pairs|
  {
    if pairs != [] {
      var t := EncodePairs16(pairs);
      Slice(s, p, t, 0, 2);
      Slice(s, p, t, 2, 2);
      Slice(s, p, t, 4, 4 * |pairs[1..]|);
      assert t[0..2] == Put16(pairs[0].0) && t[2..4] == Put16(pairs[0].1);
      assert t[4..4 + 4 * |pairs[1..]|] == EncodePairs16(pairs[1..]);
      Get16Put16(s, p, pairs[0].0);
      Get16Put16(s, p + 2, pairs[0].1);
      PairsRoundTrip16(s, p + 4, pairs[1..]);
    }
  }

  lemma {:induction false} PairsRoundTrip32(s: seq<byte>, p: nat, pairs: seq<(nat, nat)>)
    requires p + 8 * |pairs| <= |s| && s[p..p + 8 * |pairs|] == EncodePairs32(pairs)
    requires PairsBelow(pairs, TWO32)
    ensures DecodePairs32(s, p, |pairs|) == pairs
    decreases |pairs|
  {
    if pairs != [] {
      var t := EncodePairs32(pairs);
      Slice(s, p, t, 0, 4);
      Slice(s, p, t, 4, 4);
      Slice(s, p, t, 8, 8 * |pairs[1..]|);
      assert t[0..4] == Put32(pairs[0].0) && t[4..8] == Put32(pairs[0].1);
      assert t[8..8 + 8 * |pairs[1..]|] == EncodePairs32(pairs[1..]);
      Get32Put32(s, p, pairs[0].0);
      Get32Put32(s, p + 4, pairs[0].1);
      PairsRoundTrip32(s, p + 8, pairs[1..]);
    }
  }

  lemma {:induction false} GroupsRoundTrip(s: seq<byte>, p: nat, groups: seq<nat>)
    requires p + |groups| <= |s| && s[p..p + |groups|] == EncodeGroups(groups)
    requires GroupsFit(groups)
    ensures DecodeGroups(s, p, |groups|) == groups
    decreases |groups|
  {
    if groups != [] {
      var t := EncodeGroups(groups);
      Slice(s, p, t, 1, |groups[1..]|);
      assert t[1..1 + |groups[1..]|] == EncodeGroups(groups[1..]);
      assert s[p] == s[p..p + |groups|][0];
      GroupsRoundTrip(s, p + 1, groups[1..]);
    }
  }

  /** The operand fields of `i`, read back from where they were written. */
  lemma OperandsAt(s: seq<byte>, pc: nat, i: Instr)
    requires pc + Size(i) <= |s| && s[pc..pc + Size(i)] == Encode(i)
    ensures s[pc] == Opcode(i)
    ensures s[pc + 1..pc + Size(i)] == Operands(i)
  {
    hide Opcode, Operands, Size;
    assert s[pc] == s[pc..pc + Size(i)][0];
    Slice(s, pc, Encode(i), 1, Size(i) - 1);
    assert Encode(i)[1..] == Operands(i);
  }

  lemma DecodeShort(s: seq<byte>, pc: nat, i: Instr)
    requires pc + Size(i) <= |s| && s[pc] == Opcode(i) && s[pc + 1..pc + Size(i)] == Operands(i)
    requires Encodable(i)
    requires !i.ILoop? && !i.ILoopSplit? && !i.ISet? && !i.IBackRef? && !i.IRange? && !i.IRange32?
    ensures Decode(s, pc) == Some(i)
  {
    if i.IChar? || i.IChar32? || i.IGoto? || i.ISplit? || i.ILook? {
      DecodeWide(s, pc, i);
    } else {
      var t, p := Operands(i), pc + 1;
      assert |t| > 0 ==> s[p] == s[p..p + |t|][0] == t[0];
      assert |t| > 1 ==> s[p + 1] == s[p..p + |t|][1] == t[1];
      DecodeNarrow(s, pc, i);
    }
  }

  lemma DecodeNarrow(s: seq<byte>, pc: nat, i: Instr)
    requires pc + Size(i) <= |s| && s[pc] == Opcode(i) && Encodable(i)
    requires !i.IChar? && !i.IChar32? && !i.IGoto? && !i.ISplit? && !i.ILook?
    requires !i.ILoop? && !i.ILoopSplit? && !i.ISet? && !i.IBackRef? && !i.IRange? && !i.IRange32?
    requires |Operands(i)| > 0 ==> s[pc + 1] == Operands(i)[0]
    requires |Operands(i)| > 1 ==> s[pc + 2] == Operands(i)[1]
    ensures Decode(s, pc) == Some(i)
  {
    hide Get16, Get32, EncodeGroups, EncodePairs16, EncodePairs32, DecodeGroups, DecodePairs16, DecodePairs32;
  }

  lemma DecodeWide(s: seq<byte>, pc: nat, i: Instr)
    requires pc + Size(i) <= |s| && s[pc] == Opcode(i) && s[pc + 1..pc + Size(i)] == Operands(i) && Encodable(i)
    requires i.IChar? || i.IChar32? || i.IGoto? || i.ISplit? || i.ILook?
    ensures Decode(s, pc) == Some(i)
  {
    hide Get16, Get32, EncodeGroups, EncodePairs16, EncodePairs32, DecodeGroups, DecodePairs16, DecodePairs32, Put16,
         Put32;
    var p := pc + 1;
    if i.IChar? {
      Get16Put16(s, p, i.c);
    } else if i.IChar32? {
      Get32Put32(s, p, i.c);
    } else {
      Get32Put32(s, p, i.off);
    }
  }

  /** An 8-bit operand followed by 32-bit ones. */
  lemma RegOperands(s: seq<byte>, p: nat, reg: nat, a: int, rest: seq<byte>)
    requires var t := Put8(reg) + Put32(a) + rest; p + |t| <= |s| && s[p..p + |t|] == t
    requires reg < 256
    ensures s[p] == reg
    ensures 0 <= a < TWO32 ==> Get32(s, p + 1) == a
    ensures FitsJump(a) ==> Signed(Get32(s, p + 1)) == a
    ensures s[p + 5..p + 5 + |rest|] == rest
  {
    var t := Put8(reg) + Put32(a) + rest;
    assert s[p] == s[p..p + |t|][0] == t[0];
    Slice(s, p, t, 1, 4);
    assert t[1..5] == Put32(a);
    Get32Put32(s, p + 1, a);
    Slice(s, p, t, 5, |rest|);
    assert t[5..5 + |rest|] == rest;
  }

  lemma DecodeLoop(s: seq<byte>, pc: nat, i: Instr)
    requires pc + Size(i) <= |s| && s[pc] == Opcode(i) && s[pc + 1..pc + Size(i)] == Operands(i)
    requires Encodable(i) && (i.ILoop? || i.ISet?)
    ensures Decode(s, pc) == Some(i)
  {
    match i
    case ILoop(reg, off) =>
      assert Operands(i) == Put8(reg) + Put32(off) + [];
      RegOperands(s, pc + 1, reg, off, []);
    case ISet(reg, val) =>
      assert Operands(i) == Put8(reg) + Put32(val) + [];
      RegOperands(s, pc + 1, reg, val, []);
  }

  lemma DecodeLoopSplit(s: seq<byte>, pc: nat, i: Instr)
    requires pc + Size(i) <= |s| && s[pc] == Opcode(i) && s[pc + 1..pc + Size(i)] == Operands(i)
    requires Encodable(i) && i.ILoopSplit?
    ensures Decode(s, pc) == Some(i)
  {
    RegOperands(s, pc + 1, i.reg, i.limit, Put32(i.off));
    Get32Put32(s, pc + 6, i.off);
  }

  /** A 16-bit count followed by the counted operands. */
  lemma CountOperands(s: seq<byte>, p: nat, n: nat, rest: seq<byte>)
    requires var t := Put16(n) + rest; p + |t| <= |s| && s[p..p + |t|] == t
    requires n < 0x1_0000
    ensures Get16(s, p) == n
    ensures s[p + 2..p + 2 + |rest|] == rest
  {
    var t := Put16(n) + rest;
    Slice(s, p, t, 0, 2);
    assert t[0..2] == Put16(n);
    Get16Put16(s, p, n);
    Slice(s, p, t, 2, |rest|);
    assert t[2..2 + |rest|] == rest;
  }

  lemma DecodeRange(s: seq<byte>, pc: nat, i: Instr)
    requires pc + Size(i) <= |s| && s[pc] == Opcode(i) && s[pc + 1..pc + Size(i)] == Operands(i)
    requires Encodable(i) && (i.IRange? || i.IRange32?)
    ensures Decode(s, pc) == Some(i)
  {
    match i
    case IRange(pairs) =>
      CountOperands(s, pc + 1, |pairs|, EncodePairs16(pairs));
      PairsRoundTrip16(s, pc + 3, pairs);
    case IRange32(pairs) =>
      CountOperands(s, pc + 1, |pairs|, EncodePairs32(pairs));
      PairsRoundTrip32(s, pc + 3, pairs);
  }

  lemma DecodeBackRef(s: seq<byte>, pc: nat, i: Instr)
    requires pc + Size(i) <= |s| && s[pc] == Opcode(i) && s[pc + 1..pc + Size(i)] == Operands(i)
    requires Encodable(i) && i.IBackRef?
    ensures Decode(s, pc) == Some(i)
  {
    hide EncodeGroups, DecodeGroups, Decode, DecodeMore;
    var t := Put8(|i.groups|) + EncodeGroups(i.groups);
    assert s[pc + 1] == s[pc + 1..pc + Size(i)][0] == t[0];
    Slice(s, pc + 1, t, 1, |i.groups|);
    assert t[1..1 + |i.groups|] == EncodeGroups(i.groups);
    GroupsRoundTrip(s, pc + 2, i.groups);
    BackRefDecoded(s, pc, i);
  }

  lemma BackRefDecoded(s: seq<byte>, pc: nat, i: Instr)
    requires i.IBackRef? && |i.groups| < 256 && pc + 2 + |i.groups| <= |s|
    requires s[pc] == Opcode(i) && s[pc + 1] == |i.groups| && DecodeGroups(s, pc + 2, |i.groups|) == i.groups
    ensures Decode(s, pc) == Some(i)
  {
    hide EncodeGroups, DecodeGroups;
  }

  /** Position independence of the decoder: wherever the bytes of an instruction
      stand, decoding there gives the instruction back. */
  lemma DecodeEncode(s: seq<byte>, pc: nat, i: Instr)
    requires pc + Size(i) <= |s| && s[pc..pc + Size(i)] == Encode(i)
    requires Encodable(i)
    ensures Decode(s, pc) == Some(i)
  {
    OperandsAt(s, pc, i);
    if i.ILoop? || i.ISet? {
      DecodeLoop(s, pc, i);
    } else if i.ILoopSplit? {
      DecodeLoopSplit(s, pc, i);
    } else if i.IRange? || i.IRange32? {
      DecodeRange(s, pc, i);
    } else if i.IBackRef? {
      DecodeBackRef(s, pc, i);
    } else {
      DecodeShort(s, pc, i);
    }
  }

  // ----- instruction sequences ----------------------------------------------

  function EncodeAll(code: seq<Instr>): (r: seq<byte>)
    ensures |r| == SizeAll(code)
    decreases |code|
  {
    if code == [] then [] else Encode(code[0]) + EncodeAll(code[1..])
  }

  ghost predicate AllEncodable(code: seq<Instr>) {
    forall k :: 0 <= k < |code| ==> Encodable(code[k])
  }

  lemma {:induction false} EncodeAppend(a: seq<Instr>, b: seq<Instr>)
    ensures EncodeAll(a + b) == EncodeAll(a) + EncodeAll(b)
    ensures SizeAll(a + b) == SizeAll(a) + SizeAll(b)
  {
    if a == [] {
      assert a + b == b;
    } else {
      assert (a + b)[1..] == a[1..] + b;
      EncodeAppend(a[1..], b);
    }
    SizeAppend(a, b);
  }

  lemma EncodeFirst(code: seq<Instr>)
    requires code != []
    ensures EncodeAll(code) == Encode(code[0]) + EncodeAll(code[1..])
    ensures SizeAll(code) == Size(code[0]) + SizeAll(code[1..])
  {
  }

  lemma SplitEncoded(prog: seq<byte>, pc: nat, code: seq<Instr>)
    requires code != []
    requires pc + SizeAll(code) <= |prog| && prog[pc..pc + SizeAll(code)] == EncodeAll(code)
    ensures prog[pc..pc + Size(code[0])] == Encode(code[0])
    ensures var q := pc + Size(code[0]); prog[q..q + SizeAll(code[1..])] == EncodeAll(code[1..])
  {
    EncodeFirst(code);
    hide EncodeAll, SizeAll, Encode, Size;
    TwoSlices(prog, pc, Encode(code[0]), EncodeAll(code[1..]));
  }

  lemma TwoSlices(s: seq<byte>, p: nat, a: seq<byte>, b: seq<byte>)
    requires p + |a| + |b| <= |s| && s[p..p + (|a| + |b|)] == a + b
    ensures s[p..p + |a|] == a && s[p + |a|..p + |a| + |b|] == b
  {
    Slice(s, p, a + b, 0, |a|);
    Slice(s, p, a + b, |a|, |b|);
  }

  /** The program as the engine sees it: what stands at each byte. */
  function Fetcher(prog: seq<byte>): Fetch {
    (pc: nat) => Decode(prog, pc)
  }

  lemma FetchEncoded(prog: seq<byte>, pc: nat, code: seq<Instr>)
    requires code != []
    requires pc + SizeAll(code) <= |prog| && prog[pc..pc + SizeAll(code)] == EncodeAll(code)
    requires AllEncodable(code)
    ensures Fetcher(prog)(pc) == Some(code[0])
  {
    SplitEncoded(prog, pc, code);
    DecodeEncode(prog, pc, code[0]);
  }

  lemma AtFirst(fetch: Fetch, pc: nat, code: seq<Instr>)
    ensures At(fetch, pc, code) <==>
            code == [] || (fetch(pc) == Some(code[0]) && At(fetch, pc + Size(code[0]), code[1..]))
  {
  }

  /** Bytes written anywhere in a program are the code they were written for. */
  lemma {:induction false} AtEncoded(prog: seq<byte>, pc: nat, code: seq<Instr>)
    requires pc + SizeAll(code) <= |prog| && prog[pc..pc + SizeAll(code)] == EncodeAll(code)
    requires AllEncodable(code)
    ensures At(Fetcher(prog), pc, code)
    decreases |code|
  {
    hide EncodeAll, SizeAll, Encode, Fetcher, At, Size, Encodable;
    if code != [] {
      EncodeFirst(code);
      FetchEncoded(prog, pc, code);
      SplitEncoded(prog, pc, code);
      AtEncoded(prog, pc + Size(code[0]), code[1..]);
    }
    AtFirst(Fetcher(prog), pc, code);
  }
}
