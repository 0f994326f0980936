/** The bytes of compiled code, piece by piece, before registers are filled in. */
module RegexpLayout {
  import opened RegexpSemantics
  import opened RegexpInstr
  import opened RegexpBytecode
  import opened RegexpCompiler

  /** What the emitter must produce for a node. */
  function Raw(n: Node, base: nat, back: bool): (r: seq<byte>) {
    EncodeAll(Code(n, base, back, 0, false))
  }

  function RawAtom(b: Node, base: nat, back: bool): seq<Instr> {
    LoopAtom(b, base, back, 0, false)
  }

  lemma EncodeOne(i: Instr)
    ensures EncodeAll([i]) == Encode(i)
  {
    assert [i][1..] == [];
  }

  lemma EncodeCons(i: Instr, rest: seq<Instr>)
    ensures EncodeAll([i] + rest) == Encode(i) + EncodeAll(rest)
  {
    assert ([i] + rest)[1..] == rest;
  }

  lemma EncodeSnoc(code: seq<Instr>, i: Instr)
    ensures EncodeAll(code + [i]) == EncodeAll(code) + Encode(i)
  {
    EncodeAppend(code, [i]);
    EncodeOne(i);
  }

  /** Without registers, the code does not depend on the number in use. */
  lemma {:induction false} CodeWithoutRegisters(n: Node, base: nat, back: bool, d: nat, e: nat)
    ensures Code(n, base, back, d, false) == Code(n, base, back, e, false)
    decreases n, 0
  {
    hide Code;
    match n
    case Cat(a, b) =>
      CodeOfCat(n, base, back, d, false);
      CodeOfCat(n, base, back, e, false);
      CodeWithoutRegisters(a, base, back, d, e);
      CodeWithoutRegisters(b, base + Groups(a), back, d, e);
    case Alt(a, b) =>
      CodeOfAlt(n, base, back, d, false);
      CodeOfAlt(n, base, back, e, false);
      CodeWithoutRegisters(a, base, back, d, e);
      CodeWithoutRegisters(b, base + Groups(a), back, d, e);
    case Group(b) =>
      CodeOfGroup(n, base, back, d, false);
      CodeOfGroup(n, base, back, e, false);
      CodeWithoutRegisters(b, base + 1, back, d, e);
    case Look(behind, _, b) =>
      CodeOfLook(n, base, back, d, false);
      CodeOfLook(n, base, back, e, false);
      CodeWithoutRegisters(b, base, behind, d, e);
    case Quant(b, min, max, greedy) =>
      CodeOfQuant(n, base, back, d, false);
      CodeOfQuant(n, base, back, e, false);
      var r := ShapeRegs(ShapeOf(b, min, max, back));
      AtomWithoutRegisters(b, base, back, d + r, e + r);
    case _ => LeafWithoutRegisters(n, base, back, d, e);
  }

  lemma LeafWithoutRegisters(n: Node, base: nat, back: bool, d: nat, e: nat)
    requires !n.Cat? && !n.Alt? && !n.Group? && !n.Look? && !n.Quant?
    ensures Code(n, base, back, d, false) == Code(n, base, back, e, false)
  {
  }

  lemma {:induction false} AtomWithoutRegisters(b: Node, base: nat, back: bool, d: nat, e: nat)
    ensures LoopAtom(b, base, back, d, false) == LoopAtom(b, base, back, e, false)
    decreases b, 1
  {
    hide Code;
    CodeWithoutRegisters(b, base, back, d, e);
  }

  // ----- shapes -------------------------------------------------------------

  lemma AltBytes(ca: seq<Instr>, cb: seq<Instr>)
    ensures EncodeAll(AltCode(ca, cb))
         == Encode(ISplit(true, SizeAll(ca) + 5)) + (EncodeAll(ca) + (Encode(IGoto(SizeAll(cb))) + EncodeAll(cb)))
  {
    hide EncodeAll, SizeAll, Encode;
    var i, j := ISplit(true, SizeAll(ca) + 5), IGoto(SizeAll(cb));
    EncodeCons(i, ca + ([j] + cb));
    EncodeAppend(ca, [j] + cb);
    EncodeCons(j, cb);
  }

  lemma BracketBytes(i: Instr, code: seq<Instr>, j: Instr)
    ensures EncodeAll([i] + (code + [j])) == Encode(i) + (EncodeAll(code) + Encode(j))
  {
    hide EncodeAll, Encode;
    EncodeCons(i, code + [j]);
    EncodeSnoc(code, j);
  }

  lemma FourBytes(a: seq<Instr>, b: seq<Instr>, c: seq<Instr>, d: seq<Instr>)
    ensures EncodeAll(a + (b + (c + d))) == EncodeAll(a) + (EncodeAll(b) + (EncodeAll(c) + EncodeAll(d)))
  {
    hide EncodeAll;
    EncodeAppend(a, b + (c + d));
    EncodeAppend(b, c + d);
    EncodeAppend(c, d);
  }

  function OptionalBytes(emit: bool, i: Instr): seq<byte> {
    if emit then Encode(i) else []
  }

  lemma OptionalEncoded(emit: bool, i: Instr)
    ensures EncodeAll(if emit then [i] else []) == OptionalBytes(emit, i)
  {
    EncodeOne(i);
  }

  lemma ResetBytes(emit: bool, base: nat, count: nat, rest: seq<Instr>)
    ensures EncodeAll(ResetCode(emit, base, count) + rest)
         == if emit && count > 0 then Encode(IReset(base, base + count - 1)) + EncodeAll(rest) else EncodeAll(rest)
  {
    if emit && count > 0 {
      EncodeCons(IReset(base, base + count - 1), rest);
    } else {
      assert [] + rest == rest;
    }
  }

  lemma SplitBytes(atom: seq<Instr>, many: bool, check: bool, greedy: bool)
    ensures var extra := if check then 2 else 0;
            var jump := if many then 5 else 0;
            var len := SizeAll(atom);
            EncodeAll(SplitLoop(atom, many, check, greedy, 0, false))
            == Encode(ISplit(greedy, len + jump + 2 * extra))
               + (OptionalBytes(check, ISetPos(0))
                  + (EncodeAll(atom)
                     + (OptionalBytes(check, ICheckAdv(0))
                        + OptionalBytes(many, IGoto(-(5 + len + jump + 2 * extra))))))
  {
    hide EncodeAll, SizeAll, Encode, OptionalBytes;
    var extra, jump, len: int := if check then 2 else 0, if many then 5 else 0, SizeAll(atom);
    var split, back := ISplit(greedy, len + jump + 2 * extra), IGoto(-(5 + len + jump + 2 * extra));
    var mark, adv, again := SetPosCode(check, 0, false), CheckAdvCode(check, 0, false), if many then [back] else [];
    assert SplitLoop(atom, many, check, greedy, 0, false) == [split] + (mark + (atom + (adv + again)));
    hide SplitLoop;
    EncodeCons(split, mark + (atom + (adv + again)));
    FourBytes(mark, atom, adv, again);
    OptionalEncoded(check, ISetPos(0));
    OptionalEncoded(check, ICheckAdv(0));
    OptionalEncoded(many, back);
  }

  lemma PlusBytes(atom: seq<Instr>, greedy: bool)
    ensures EncodeAll(PlusLoop(atom, greedy)) == EncodeAll(atom) + Encode(ISplit(!greedy, -(SizeAll(atom) + 5)))
  {
    hide EncodeAll, SizeAll, Encode;
    EncodeSnoc(atom, ISplit(!greedy, -(SizeAll(atom) + 5)));
  }

  function LoopEnd(simple: bool, check: bool, greedy: bool, limit: nat, len: nat): Instr {
    if simple then ILoop(0, -(len + 6)) else ILoopSplit(check, !greedy, 0, limit, -(len + 10))
  }

  /** The repeated part of a counted loop. */
  lemma BodyBytes(atom: seq<Instr>, simple: bool, check: bool, greedy: bool, limit: nat)
    ensures EncodeAll(CountedBody(atom, simple, check, greedy, limit, 0, false))
         == OptionalBytes(check, ISetPos(0))
            + (EncodeAll(atom) + Encode(LoopEnd(simple, check, greedy, limit, SizeAll(atom) + if check then 2 else 0)))
  {
    hide EncodeAll, SizeAll, Encode, OptionalBytes;
    var end := LoopEnd(simple, check, greedy, limit, SizeAll(atom) + if check then 2 else 0);
    var mark := SetPosCode(check, 1, false);
    assert CountedBody(atom, simple, check, greedy, limit, 0, false) == mark + (atom + [end]);
    EncodeAppend(mark, atom + [end]);
    EncodeSnoc(atom, end);
    OptionalEncoded(check, ISetPos(0));
  }

  lemma CountedBytes(atom: seq<Instr>, optional: bool, simple: bool, check: bool, greedy: bool, min: nat, max: nat)
    requires min <= max
    ensures var extra := if check then 2 else 0;
            EncodeAll(CountedLoop(atom, optional, simple, check, greedy, min, max, 0, false))
            == OptionalBytes(optional, ISplit(greedy, 6 + extra + SizeAll(atom) + 10))
               + (Encode(ISet(0, max)) + EncodeAll(CountedBody(atom, simple, check, greedy, max - min, 0, false)))
  {
    hide EncodeAll, SizeAll, Encode, OptionalBytes, CountedBody;
    var split := ISplit(greedy, 6 + (if check then 2 else 0) + SizeAll(atom) + 10);
    var entry, body := if optional then [split] else [], CountedBody(atom, simple, check, greedy, max - min, 0, false);
    EncodeAppend(entry, [ISet(0, max)] + body);
    EncodeCons(ISet(0, max), body);
    OptionalEncoded(optional, split);
  }
}
