/** The instructions of the engine, with the sizes of libregexp-opcode.h, and
    what it means for a piece of code to stand at some byte of a program. */
module RegexpInstr {
  import opened RegexpSemantics

  datatype Instr =
    | IChar(c: nat)
    | IChar32(c: nat)
    | IDot
    | IAny
    | IAssert(kind: AssertKind)
    | IGoto(off: int)
    | ISplit(nextFirst: bool, off: int)
    | IMatch
    | ILookMatch(negative: bool)
    | ISave(end: bool, group: nat)
    | IReset(first: nat, last: nat)
    | ILoop(reg: nat, off: int)
    | ILoopSplit(check: bool, nextFirst: bool, reg: nat, limit: nat, off: int)
    | ISet(reg: nat, val: nat)
    | IBackRef(back: bool, groups: seq<nat>)
    | IRange(pairs: seq<(nat, nat)>)
    | IRange32(pairs: seq<(nat, nat)>)
    | ILook(negative: bool, off: int)
    | ISetPos(reg: nat)
    | ICheckAdv(reg: nat)
    | IPrev

  function Size(i: Instr): (r: nat)
    ensures r > 0
  {
    match i
    case IChar(_) => 3
    case IChar32(_) => 5
    case IGoto(_) => 5
    case ISplit(_, _) => 5
    case ISave(_, _) => 2
    case IReset(_, _) => 3
    case ILoop(_, _) => 6
    case ILoopSplit(_, _, _, _, _) => 10
    case ISet(_, _) => 6
    case IBackRef(_, groups) => 2 + |groups|
    case IRange(pairs) => 3 + 4 * |pairs|
    case IRange32(pairs) => 3 + 8 * |pairs|
    case ILook(_, _) => 5
    case ISetPos(_) => 2
    case ICheckAdv(_) => 2
    case _ => 1
  }

  /** What an engine finds at each byte of its program. */
  type Fetch = nat -> Option<Instr>

  function SizeAll(code: seq<Instr>): nat
    decreases |code|
  {
    if code == [] then 0 else Size(code[0]) + SizeAll(code[1..])
  }

  /** `code` stands at byte `pc`. */
  ghost predicate At(fetch: Fetch, pc: nat, code: seq<Instr>)
    decreases |code|
  {
    code == [] || (fetch(pc) == Some(code[0]) && At(fetch, pc + Size(code[0]), code[1..]))
  }

  lemma {:induction false} SizeAppend(a: seq<Instr>, b: seq<Instr>)
    ensures SizeAll(a + b) == SizeAll(a) + SizeAll(b)
  {
    if a == [] {
      assert a + b == b;
    } else {
      assert (a + b)[1..] == a[1..] + b;
      SizeAppend(a[1..], b);
    }
  }

  lemma {:induction false} AtAppend(fetch: Fetch, pc: nat, a: seq<Instr>, b: seq<Instr>)
    ensures At(fetch, pc, a + b) <==> At(fetch, pc, a) && At(fetch, pc + SizeAll(a), b)
    ensures SizeAll(a + b) == SizeAll(a) + SizeAll(b)
    decreases |a|
  {
    if a == [] {
      assert a + b == b;
    } else {
      assert (a + b)[1..] == a[1..] + b;
      AtAppend(fetch, pc + Size(a[0]), a[1..], b);
    }
    SizeAppend(a, b);
  }

  lemma AtOne(fetch: Fetch, pc: nat, i: Instr)
    ensures At(fetch, pc, [i]) <==> fetch(pc) == Some(i)
    ensures SizeAll([i]) == Size(i)
  {
    assert [i][1..] == [];
  }

  /** An instruction followed by more code. */
  lemma AtCons(fetch: Fetch, pc: nat, i: Instr, rest: seq<Instr>)
    ensures At(fetch, pc, [i] + rest) <==> fetch(pc) == Some(i) && At(fetch, pc + Size(i), rest)
    ensures SizeAll([i] + rest) == Size(i) + SizeAll(rest)
  {
    assert ([i] + rest)[1..] == rest;
  }

  /** Code followed by one instruction. */
  lemma AtSnoc(fetch: Fetch, pc: nat, code: seq<Instr>, i: Instr)
    ensures At(fetch, pc, code + [i]) <==> At(fetch, pc, code) && fetch(pc + SizeAll(code)) == Some(i)
    ensures SizeAll(code + [i]) == SizeAll(code) + Size(i)
  {
    AtAppend(fetch, pc, code, [i]);
    AtOne(fetch, pc + SizeAll(code), i);
  }

  /** The layout of an alternative. */
  lemma AtAlternative(fetch: Fetch, pc: nat, a: seq<Instr>, b: seq<Instr>)
    requires At(fetch, pc, [ISplit(true, SizeAll(a) + 5)] + (a + ([IGoto(SizeAll(b))] + b)))
    ensures fetch(pc) == Some(ISplit(true, SizeAll(a) + 5)) && At(fetch, pc + 5, a)
    ensures fetch(pc + 5 + SizeAll(a)) == Some(IGoto(SizeAll(b))) && At(fetch, pc + 10 + SizeAll(a), b)
    ensures SizeAll([ISplit(true, SizeAll(a) + 5)] + (a + ([IGoto(SizeAll(b))] + b))) == 10 + SizeAll(a) + SizeAll(b)
  {
    var i, j := ISplit(true, SizeAll(a) + 5), IGoto(SizeAll(b));
    AtCons(fetch, pc, i, a + ([j] + b));
    AtAppend(fetch, pc + 5, a, [j] + b);
    AtCons(fetch, pc + 5 + SizeAll(a), j, b);
  }

  /** Code between two instructions. */
  lemma AtBracket(fetch: Fetch, pc: nat, i: Instr, code: seq<Instr>, j: Instr)
    requires At(fetch, pc, [i] + (code + [j]))
    ensures fetch(pc) == Some(i) && At(fetch, pc + Size(i), code) && fetch(pc + Size(i) + SizeAll(code)) == Some(j)
    ensures SizeAll([i] + (code + [j])) == Size(i) + SizeAll(code) + Size(j)
  {
    AtCons(fetch, pc, i, code + [j]);
    AtSnoc(fetch, pc + Size(i), code, j);
  }

  /** Four pieces in a row. */
  lemma AtFour(fetch: Fetch, pc: nat, a: seq<Instr>, b: seq<Instr>, c: seq<Instr>, d: seq<Instr>)
    ensures At(fetch, pc, a + (b + (c + d))) <==>
            && At(fetch, pc, a) && At(fetch, pc + SizeAll(a), b)
            && At(fetch, pc + SizeAll(a) + SizeAll(b), c)
            && At(fetch, pc + SizeAll(a) + SizeAll(b) + SizeAll(c), d)
    ensures SizeAll(a + (b + (c + d))) == SizeAll(a) + SizeAll(b) + SizeAll(c) + SizeAll(d)
  {
    hide At, SizeAll;
    AtAppend(fetch, pc, a, b + (c + d));
    AtAppend(fetch, pc + SizeAll(a), b, c + d);
    AtAppend(fetch, pc + SizeAll(a) + SizeAll(b), c, d);
  }
}
