/** The linear scan that decides, from the bytes of an atom, whether a loop
    around it must check for progress and must clear its groups. */
module RegexpScan {
  import opened RegexpSemantics
  import opened RegexpInstr
  import opened RegexpCompiler

  datatype Verdict = Verdict(checkAdv: bool, captureInit: bool)

  predicate Consumes(i: Instr) {
    i.IChar? || i.IChar32? || i.IDot? || i.IAny? || i.IRange? || i.IRange32?
  }

  predicate NoEffect(i: Instr) {
    i.IAssert? || i.ISet? || i.ISetPos? || i.IPrev? || i.ISave? || i.IReset?
  }

  /** The scan over instructions, with the verdict reached so far. */
  function Scan(code: seq<Instr>, v: Verdict): Verdict
    decreases |code|
  {
    if code == [] then v
    else if Consumes(code[0]) then Scan(code[1..], v.(checkAdv := false))
    else if NoEffect(code[0]) then Scan(code[1..], v)
    else if code[0].IBackRef? then Scan(code[1..], v.(captureInit := true))
    else v.(captureInit := true)
  }

  /** What the scan finds in the code of a node, before it goes on to `rest`. */
  function Found(n: Node, back: bool, v: Verdict): Verdict {
    Verdict(v.checkAdv && !Advances(n, back), v.captureInit || !Linear(n))
  }

  lemma ScanCons(i: Instr, rest: seq<Instr>, v: Verdict)
    ensures Scan([i] + rest, v)
         == if Consumes(i) then Scan(rest, v.(checkAdv := false))
            else if NoEffect(i) then Scan(rest, v)
            else if i.IBackRef? then Scan(rest, v.(captureInit := true))
            else v.(captureInit := true)
  {
    assert ([i] + rest)[1..] == rest;
  }

  lemma ScanReset(emit: bool, base: nat, count: nat, rest: seq<Instr>, v: Verdict)
    ensures Scan(ResetCode(emit, base, count) + rest, v) == Scan(rest, v)
  {
    if emit && count > 0 {
      ScanCons(IReset(base, base + count - 1), rest, v);
    } else {
      assert [] + rest == rest;
    }
  }

  lemma ScanMark(check: bool, r: nat, alloc: bool, rest: seq<Instr>, v: Verdict)
    ensures Scan(SetPosCode(check, r, alloc) + rest, v) == Scan(rest, v)
  {
    if check {
      ScanCons(ISetPos(Reg(r, alloc)), rest, v);
    } else {
      assert [] + rest == rest;
    }
  }

  /** Straight-line code is scanned to its end; other code stops the scan, after
      everything in front of the first jump has been seen. */
  lemma {:induction false} ScanCode(n: Node, base: nat, back: bool, d: nat, alloc: bool, ngroups: nat,
                                    rest: seq<Instr>, v: Verdict)
    requires Parsed(n, ngroups)
    ensures Scan(Code(n, base, back, d, alloc) + rest, v) == Scanned(n, back, rest, v)
    decreases n, 1
  {
    hide Code, Parsed, Scan, Scanned;
    if n.Cat? {
      ScanCat(n, base, back, d, alloc, ngroups, rest, v);
    } else if n.Alt? {
      ScanAlt(n, base, back, d, alloc, rest, v);
    } else if n.Group? {
      ScanParsed(n, ngroups);
      ScanCapture(n, base, back, d, alloc, ngroups, rest, v);
    } else if n.Look? {
      ScanLook(n, base, back, d, alloc, rest, v);
    } else if n.Quant? {
      ScanQuant(n, base, back, d, alloc, ngroups, rest, v);
    } else {
      ScanLeaf(n, base, back, d, alloc, rest, v);
    }
  }

  /** The verdict of the scan over a node and what follows it. */
  function Scanned(n: Node, back: bool, rest: seq<Instr>, v: Verdict): Verdict {
    if NoStop(n) then Scan(rest, Found(n, back, v)) else Verdict(v.checkAdv && !Advances(n, back), true)
  }

  lemma {:induction false} ScanCat(n: Node, base: nat, back: bool, d: nat, alloc: bool, ngroups: nat, rest: seq<Instr>,
                                   v: Verdict)
    requires n.Cat? && Parsed(n, ngroups)
    ensures Scan(Code(n, base, back, d, alloc) + rest, v) == Scanned(n, back, rest, v)
    decreases n, 0
  {
    hide Code, Parsed, Scan;
    CodeOfCat(n, base, back, d, alloc);
    ScanParsed(n, ngroups);
    var n1, n2 := if back then n.second else n.first, if back then n.first else n.second;
    var base1, base2 := if back then base + Groups(n.first) else base, if back then base else base + Groups(n.first);
    var c1, c2 := Code(n1, base1, back, d, alloc), Code(n2, base2, back, d, alloc);
    assert (c1 + c2) + rest == c1 + (c2 + rest);
    ScanCode(n1, base1, back, d, alloc, ngroups, c2 + rest, v);
    ScanCode(n2, base2, back, d, alloc, ngroups, rest, Found(n1, back, v));
  }

  lemma ScanAlt(n: Node, base: nat, back: bool, d: nat, alloc: bool, rest: seq<Instr>, v: Verdict)
    requires n.Alt?
    ensures Scan(Code(n, base, back, d, alloc) + rest, v) == Scanned(n, back, rest, v)
  {
    hide Code, Scan;
    CodeOfAlt(n, base, back, d, alloc);
    var ca, cb := Code(n.left, base, back, d, alloc), Code(n.right, base + Groups(n.left), back, d, alloc);
    ScanFirst(ISplit(true, SizeAll(ca) + 5), ca + ([IGoto(SizeAll(cb))] + cb), rest, v);
  }

  lemma {:induction false} ScanCapture(n: Node, base: nat, back: bool, d: nat, alloc: bool, ngroups: nat,
                                       rest: seq<Instr>, v: Verdict)
    requires n.Group? && Parsed(n.body, ngroups)
    ensures Scan(Code(n, base, back, d, alloc) + rest, v) == Scanned(n, back, rest, v)
    decreases n, 0
  {
    hide Code, Parsed, Scan;
    CodeOfGroup(n, base, back, d, alloc);
    ScanGroup(back, base, Code(n.body, base + 1, back, d, alloc), rest, v);
    ScanCode(n.body, base + 1, back, d, alloc, ngroups, [ISave(!back, base)] + rest, v);
    ScanCons(ISave(!back, base), rest, Found(n.body, back, v));
  }

  lemma ScanLook(n: Node, base: nat, back: bool, d: nat, alloc: bool, rest: seq<Instr>, v: Verdict)
    requires n.Look?
    ensures Scan(Code(n, base, back, d, alloc) + rest, v) == Scanned(n, back, rest, v)
  {
    hide Code, Scan;
    CodeOfLook(n, base, back, d, alloc);
    var cb := Code(n.body, base, n.behind, d, alloc);
    ScanFirst(ILook(n.negative, SizeAll(cb) + 1), cb + [ILookMatch(n.negative)], rest, v);
  }

  lemma ScanParsed(n: Node, ngroups: nat)
    requires Parsed(n, ngroups)
    ensures n.Cat? ==> Parsed(n.first, ngroups) && Parsed(n.second, ngroups)
    ensures n.Group? ==> Parsed(n.body, ngroups)
    ensures n.Quant? ==> Parsed(n.body, ngroups) && n.min <= IntMax(n.max)
  {
  }

  lemma ScanFirst(i: Instr, code: seq<Instr>, rest: seq<Instr>, v: Verdict)
    ensures Scan([i] + code + rest, v)
         == if Consumes(i) then Scan(code + rest, v.(checkAdv := false))
            else if NoEffect(i) then Scan(code + rest, v)
            else if i.IBackRef? then Scan(code + rest, v.(captureInit := true))
            else v.(captureInit := true)
  {
    assert [i] + code + rest == [i] + (code + rest);
    ScanCons(i, code + rest, v);
  }

  lemma ScanGroup(back: bool, g: nat, cb: seq<Instr>, rest: seq<Instr>, v: Verdict)
    ensures Scan(GroupCode(back, g, cb) + rest, v) == Scan(cb + ([ISave(!back, g)] + rest), v)
  {
    ScanFirst(ISave(back, g), cb + [ISave(!back, g)], rest, v);
    assert cb + [ISave(!back, g)] + rest == cb + ([ISave(!back, g)] + rest);
  }

  lemma ScanLeaf(n: Node, base: nat, back: bool, d: nat, alloc: bool, rest: seq<Instr>, v: Verdict)
    requires n.Empty? || n.Assert? || n.BackRef? || IsCharTest(n)
    ensures Scan(Code(n, base, back, d, alloc) + rest, v) == Scanned(n, back, rest, v)
  {
    hide Scan, CharCode;
    if n.Empty? {
      assert [] + rest == rest;
    } else if n.Assert? {
      ScanCons(IAssert(n.kind), rest, v);
    } else if n.BackRef? {
      ScanCons(IBackRef(back, n.groups), rest, v);
    } else {
      ScanCharCode(n, back, rest, v);
      CodeOfTest(n, base, back, d, alloc);
    }
  }

  lemma ScanCharCode(n: Node, back: bool, rest: seq<Instr>, v: Verdict)
    requires IsCharTest(n)
    ensures Scan(CharCode(n, back) + rest, v) == Scan(rest, v.(checkAdv := false))
  {
    hide Scan;
    var i := CharInstr(n);
    ScanCons(i, rest, v);
    if back {
      assert [IPrev] + [i] + [IPrev] + rest == [IPrev] + ([i] + ([IPrev] + rest));
      ScanCons(IPrev, [i] + ([IPrev] + rest), v);
      ScanCons(i, [IPrev] + rest, v);
      ScanCons(IPrev, rest, v.(checkAdv := false));
    }
  }

  lemma {:induction false} ScanAtom(b: Node, base: nat, back: bool, d: nat, alloc: bool, ngroups: nat,
                                    rest: seq<Instr>, v: Verdict)
    requires Parsed(b, ngroups) && rest != [] && !Consumes(rest[0]) && !NoEffect(rest[0]) && !rest[0].IBackRef?
    ensures Scan(LoopAtom(b, base, back, d, alloc) + rest, v) == Verdict(v.checkAdv && !Advances(b, back), true)
    decreases b, 2
  {
    hide Parsed, Code;
    var reset, code := ResetCode(!Linear(b), base, Groups(b)), Code(b, base, back, d, alloc);
    assert reset + code + rest == reset + (code + rest);
    ScanReset(!Linear(b), base, Groups(b), code + rest, v);
    ScanCode(b, base, back, d, alloc, ngroups, rest, v);
    assert rest == [rest[0]] + rest[1..];
    ScanCons(rest[0], rest[1..], Found(b, back, v));
  }

  /** A loop that runs at least once shows the scan its atom; one that may run
      zero times shows it the fork. */
  lemma {:induction false} ScanQuant(n: Node, base: nat, back: bool, d: nat, alloc: bool, ngroups: nat,
                                     rest: seq<Instr>, v: Verdict)
    requires n.Quant? && Parsed(n, ngroups)
    ensures Scan(Code(n, base, back, d, alloc) + rest, v) == Scanned(n, back, rest, v)
    decreases n, 0
  {
    hide Code, LoopAtom, Parsed, Scan, ResetCode, SplitLoop, PlusLoop, CountedLoop;
    ScanParsed(n, ngroups);
    CodeOfQuant(n, base, back, d, alloc);
    var b, min, max, s := n.body, n.min, n.max, ShapeOf(n.body, n.min, n.max, back);
    var reset := ResetCode(min == 0 && Linear(b), base, Groups(b));
    var atom := LoopAtom(b, base, back, d + ShapeRegs(s), alloc);
    var loop := LoopCode(atom, s, min, max, n.greedy, d, alloc);
    assert reset + loop + rest == reset + (loop + rest);
    ScanReset(min == 0 && Linear(b), base, Groups(b), loop + rest, v);
    if s == Never {
      assert loop + rest == rest;
    } else {
      ScanLoop(b, min, max, n.greedy, base, back, d, alloc, ngroups, rest, v);
    }
  }

  lemma {:induction false} ScanLoop(b: Node, min: nat, max: Bound, greedy: bool, base: nat, back: bool, d: nat,
                                    alloc: bool, ngroups: nat, rest: seq<Instr>, v: Verdict)
    requires Parsed(b, ngroups) && ShapeOf(b, min, max, back) != Never
    ensures Scan(LoopCode(LoopAtom(b, base, back, d + ShapeRegs(ShapeOf(b, min, max, back)), alloc),
                          ShapeOf(b, min, max, back),
                          min, max, greedy, d, alloc) + rest, v)
         == Verdict(v.checkAdv && !(min > 0 && Advances(b, back)), true)
    decreases b, 3
  {
    hide Code, LoopAtom, Parsed, SplitLoop, CountedLoop, Scan, Scanned;
    var s := ShapeOf(b, min, max, back);
    var atom := LoopAtom(b, base, back, d + ShapeRegs(s), alloc);
    match s
    case Split(many, check) =>
      ScanSplit(atom, many, check, greedy, d, alloc, rest, v);
    case Plus =>
      var i := ISplit(!greedy, -(SizeAll(atom) + 5));
      assert PlusLoop(atom, greedy) + rest == atom + ([i] + rest);
      ScanAtom(b, base, back, d, alloc, ngroups, [i] + rest, v);
    case Counted(optional, simple, check) =>
      if optional {
        ScanOptional(atom, check, greedy, min, IntMax(max), d, alloc, rest, v);
      } else {
        var i := ScanCounted(atom, simple, check, greedy, min, IntMax(max), d, alloc, rest, v);
        ScanAtom(b, base, back, d + ShapeRegs(s), alloc, ngroups, [i] + rest, v);
      }
  }

  lemma ScanSplit(atom: seq<Instr>, many: bool, check: bool, greedy: bool, d: nat, alloc: bool, rest: seq<Instr>,
                  v: Verdict)
    ensures Scan(SplitLoop(atom, many, check, greedy, d, alloc) + rest, v) == v.(captureInit := true)
  {
    var code := SplitLoop(atom, many, check, greedy, d, alloc);
    assert code == [code[0]] + code[1..];
    ScanFirst(code[0], code[1..], rest, v);
  }

  lemma ScanOptional(atom: seq<Instr>, check: bool, greedy: bool, min: nat, max: nat, d: nat, alloc: bool,
                     rest: seq<Instr>, v: Verdict)
    ensures Scan(CountedLoop(atom, true, false, check, greedy, min, max, d, alloc) + rest, v) == v.(captureInit := true)
  {
    var code := CountedLoop(atom, true, false, check, greedy, min, max, d, alloc);
    assert code == [code[0]] + code[1..];
    ScanFirst(code[0], code[1..], rest, v);
  }

  lemma ScanCounted(atom: seq<Instr>, simple: bool, check: bool, greedy: bool, min: nat, max: nat, d: nat, alloc: bool,
                    rest: seq<Instr>, v: Verdict) returns (i: Instr)
    ensures i.ILoop? || i.ILoopSplit?
    ensures Scan(CountedLoop(atom, false, simple, check, greedy, min, max, d, alloc) + rest, v)
            == Scan(atom + ([i] + rest), v)
  {
    var limit := if min <= max then max - min else 0;
    var len := SizeAll(atom) + if check then 2 else 0;
    i := if simple then ILoop(Reg(d, alloc), -(len + 6))
         else ILoopSplit(check, !greedy, Reg(d, alloc), limit, -(len + 10));
    var mark, load := SetPosCode(check, d + 1, alloc), ISet(Reg(d, alloc), max);
    var code := CountedLoop(atom, false, simple, check, greedy, min, max, d, alloc);
    assert code + rest == [load] + (mark + (atom + ([i] + rest)));
    ScanCons(load, mark + (atom + ([i] + rest)), v);
    ScanMark(check, d + 1, alloc, atom + ([i] + rest), v);
  }

  /** The verdict on the atom of a quantifier: the loop needs the zero-advance
      check unless the atom is seen to advance, and needs to clear the groups
      unless the atom is straight-line code without back references. */
  lemma ScanVerdict(b: Node, base: nat, back: bool, d: nat, alloc: bool, ngroups: nat)
    requires Parsed(b, ngroups)
    ensures Scan(Code(b, base, back, d, alloc), Verdict(true, false)) == Verdict(!Advances(b, back), !Linear(b))
  {
    var code := Code(b, base, back, d, alloc);
    assert code + [] == code;
    ScanCode(b, base, back, d, alloc, ngroups, [], Verdict(true, false));
  }
}
