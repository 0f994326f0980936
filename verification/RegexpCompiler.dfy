/** The code a pattern is compiled to, as a function.

    `base` is the index of the first group inside the node, `back` says that
    terms are matched from right to left (lookbehind), and `d` is the number of
    registers in use around the node.  Registers are filled in by a later pass,
    so code comes in two forms: with `alloc` false every register field is 0. */
module RegexpCompiler {
  import opened RegexpSemantics
  import opened RegexpInstr
  import opened RegexpClass

  const INT32_MAX: nat := 0x7FFF_FFFF

  /** The parser's quant_max, where INT32_MAX stands for infinity. */
  function IntMax(max: Bound): nat {
    match max
    case Finite(n) => n
    case Infinite => INT32_MAX
  }

  // ----- what the linear scan of the atom finds ------------------------------

  /** The scan reaches the end of the code: nothing in it jumps. */
  predicate NoStop(n: Node) {
    match n
    case Cat(a, b) => NoStop(a) && NoStop(b)
    case Alt(_, _) => false
    case Group(b) => NoStop(b)
    case Look(_, _, _) => false
    case Quant(_, _, max, _) => max == Finite(0)
    case _ => true
  }

  predicate NoRef(n: Node) {
    match n
    case Cat(a, b) => NoRef(a) && NoRef(b)
    case Group(b) => NoRef(b)
    case BackRef(_) => false
    case _ => true
  }

  /** Straight-line code that reads no capture: need_capture_init is false. */
  predicate Linear(n: Node) {
    NoStop(n) && NoRef(n)
  }

  /** The scan meets a character test before anything that jumps:
      need_check_adv is false. */
  predicate Advances(n: Node, back: bool) {
    match n
    case Cat(a, b) =>
      if back then Advances(b, back) || (NoStop(b) && Advances(a, back))
      else Advances(a, back) || (NoStop(a) && Advances(b, back))
    case Group(b) => Advances(b, back)
    case Quant(b, min, max, _) => min > 0 && max != Finite(0) && Advances(b, back)
    case _ => IsCharTest(n)
  }

  // ----- code ---------------------------------------------------------------

  /** What the parser guarantees of a pattern with `ngroups` groups (group 0
      included). */
  ghost predicate Parsed(n: Node, ngroups: nat) {
    match n
    case Char(c) => c < 0x11_0000
    case Class(iv) => Sorted(iv)
    case Cat(a, b) => Parsed(a, ngroups) && Parsed(b, ngroups)
    case Alt(a, b) => Parsed(a, ngroups) && Parsed(b, ngroups)
    case Group(b) => Parsed(b, ngroups)
    case BackRef(groups) => |groups| < 256 && forall i :: 0 <= i < |groups| ==> groups[i] < ngroups
    case Look(_, _, b) => Parsed(b, ngroups)
    case Quant(b, min, max, _) => Parsed(b, ngroups) && min <= IntMax(max) && (max.Finite? ==> max.n <= INT32_MAX)
    case _ => true
  }

  /** A counter that starts at INT32_MAX ends the loop, bounded or not, so the
      code of a counted loop without an upper bound is the code of a bounded one.
      `Countable` excludes such loops; `Capped` replaces them. */
  ghost predicate Countable(n: Node, back: bool) {
    match n
    case Cat(a, b) => Countable(a, back) && Countable(b, back)
    case Alt(a, b) => Countable(a, back) && Countable(b, back)
    case Group(b) => Countable(b, back)
    case Look(behind, _, b) => Countable(b, behind)
    case Quant(b, min, max, _) => Countable(b, back) && (ShapeOf(b, min, max, back).Counted? ==> max.Finite?)
    case _ => true
  }

  ghost predicate WellFormed(n: Node, ngroups: nat, back: bool) {
    Parsed(n, ngroups) && Countable(n, back)
  }

  /** What a loop needs of its bounds. */
  predicate CountsFit(b: Node, min: nat, max: Bound, back: bool) {
    min <= IntMax(max) && (ShapeOf(b, min, max, back).Counted? ==> max.Finite?)
  }

  predicate Proper(iv: Intervals) {
    forall i :: 0 <= i < |iv| ==> iv[i].0 < iv[i].1
  }

  function CharInstr(n: Node): Instr {
    match n
    case Char(c) => if c <= 0xffff then IChar(c) else IChar32(c)
    case Dot => IDot
    case Class(iv) => if Proper(iv) then ClassInstr(iv) else IChar32(UINT32_MAX)
    case _ => IAny
  }

  function CharCode(n: Node, back: bool): seq<Instr> {
    if back then [IPrev] + [CharInstr(n)] + [IPrev] else [CharInstr(n)]
  }

  function Reg(r: nat, alloc: bool): nat {
    if alloc then r else 0
  }

  function ResetCode(emit: bool, base: nat, count: nat): seq<Instr> {
    if emit && count > 0 then [IReset(base, base + count - 1)] else []
  }

  function SetPosCode(check: bool, r: nat, alloc: bool): seq<Instr> {
    if check then [ISetPos(Reg(r, alloc))] else []
  }

  function CheckAdvCode(check: bool, r: nat, alloc: bool): seq<Instr> {
    if check then [ICheckAdv(Reg(r, alloc))] else []
  }

  /** How a quantifier is compiled. */
  datatype Shape =
    | Never                          // {0}
    | Split(many: bool, check: bool) // ?, *
    | Plus                           // + on an atom that advances
    | Counted(optional: bool, simple: bool, check: bool) // {n,m}; simple: n = m

  function ShapeOf(b: Node, min: nat, max: Bound, back: bool): Shape {
    var check := !Advances(b, back);
    if min == 0 then
      if IntMax(max) == 0 then Never
      else if IntMax(max) == 1 || max == Infinite then Split(max == Infinite, check)
      else Counted(true, false, check)
    else if min == 1 && max == Infinite && !check then Plus
    else if min == IntMax(max) then Counted(false, true, false)
    else Counted(false, false, check)
  }

  /** The registers one loop holds while its atom runs. */
  function ShapeRegs(s: Shape): nat {
    match s
    case Never => 0
    case Split(_, check) => if check then 1 else 0
    case Plus => 0
    case Counted(_, _, check) => if check then 2 else 1
  }

  function Max(a: nat, b: nat): nat {
    if a < b then b else a
  }

  /** The registers a node needs. */
  function Regs(n: Node, back: bool): nat {
    match n
    case Cat(a, b) => Max(Regs(a, back), Regs(b, back))
    case Alt(a, b) => Max(Regs(a, back), Regs(b, back))
    case Group(b) => Regs(b, back)
    case Look(behind, _, b) => Regs(b, behind)
    case Quant(b, min, max, _) =>
      var s := ShapeOf(b, min, max, back);
      if s == Never then 0 else ShapeRegs(s) + Regs(b, back)
    case _ => 0
  }

  /** The first instruction of a loop that may run zero times, and what its
      greedy or lazy form prefers. */
  function SplitLoop(atom: seq<Instr>, many: bool, check: bool, greedy: bool, d: nat, alloc: bool): seq<Instr> {
    var extra := if check then 2 else 0;
    var jump := if many then 5 else 0;
    var len := SizeAll(atom);
    [ISplit(greedy, len + jump + 2 * extra)]
    + (SetPosCode(check, d, alloc)
       + (atom
          + (CheckAdvCode(check, d, alloc)
             + (if many then [IGoto(-(5 + len + jump + 2 * extra))] else []))))
  }

  function PlusLoop(atom: seq<Instr>, greedy: bool): seq<Instr> {
    atom + [ISplit(!greedy, -(SizeAll(atom) + 5))]
  }

  /** The part of a counted loop that is repeated. */
  function CountedBody(atom: seq<Instr>, simple: bool, check: bool, greedy: bool, limit: nat, d: nat,
                       alloc: bool): seq<Instr> {
    var extra := if check then 2 else 0;
    var len := SizeAll(atom) + extra;
    SetPosCode(check, d + 1, alloc)
    + (atom
       + [if simple then ILoop(Reg(d, alloc), -(len + 6))
          else ILoopSplit(check, !greedy, Reg(d, alloc), limit, -(len + 10))])
  }

  function CountedLoop(atom: seq<Instr>, optional: bool, simple: bool, check: bool, greedy: bool,
                       min: nat, max: nat, d: nat, alloc: bool): seq<Instr>
  {
    var extra := if check then 2 else 0;
    var limit := if min <= max then max - min else 0;
    (if optional then [ISplit(greedy, 6 + extra + SizeAll(atom) + 10)] else [])
    + ([ISet(Reg(d, alloc), max)]
       + CountedBody(atom, simple, check, greedy, limit, d, alloc))
  }

  function CatCode(back: bool, ca: seq<Instr>, cb: seq<Instr>): seq<Instr> {
    if back then cb + ca else ca + cb
  }

  function AltCode(ca: seq<Instr>, cb: seq<Instr>): seq<Instr> {
    [ISplit(true, SizeAll(ca) + 5)] + (ca + ([IGoto(SizeAll(cb))] + cb))
  }

  function GroupCode(back: bool, g: nat, cb: seq<Instr>): seq<Instr> {
    [ISave(back, g)] + (cb + [ISave(!back, g)])
  }

  function LookCode(negative: bool, cb: seq<Instr>): seq<Instr> {
    [ILook(negative, SizeAll(cb) + 1)] + (cb + [ILookMatch(negative)])
  }

  function Code(n: Node, base: nat, back: bool, d: nat, alloc: bool): seq<Instr>
    decreases n, 0
  {
    match n
    case Empty => []
    case Char(_) => CharCode(n, back)
    case Any => CharCode(n, back)
    case Dot => CharCode(n, back)
    case Class(_) => CharCode(n, back)
    case Assert(kind) => [IAssert(kind)]
    case Cat(a, b) => CatCode(back, Code(a, base, back, d, alloc), Code(b, base + Groups(a), back, d, alloc))
    case Alt(a, b) => AltCode(Code(a, base, back, d, alloc), Code(b, base + Groups(a), back, d, alloc))
    case Group(b) => GroupCode(back, base, Code(b, base + 1, back, d, alloc))
    case BackRef(groups) => [IBackRef(back, groups)]
    case Look(behind, negative, b) => LookCode(negative, Code(b, base, behind, d, alloc))
    case Quant(b, min, max, greedy) =>
      var s := ShapeOf(b, min, max, back);
      ResetCode(min == 0 && Linear(b), base, Groups(b))
      + LoopCode(LoopAtom(b, base, back, d + ShapeRegs(s), alloc), s, min, max, greedy, d, alloc)
  }

  /** The atom of a quantifier: it clears its groups unless it always sets them. */
  function LoopAtom(b: Node, base: nat, back: bool, d: nat, alloc: bool): seq<Instr>
    decreases b, 1
  {
    ResetCode(!Linear(b), base, Groups(b)) + Code(b, base, back, d, alloc)
  }

  function LoopCode(atom: seq<Instr>, s: Shape, min: nat, max: Bound, greedy: bool, d: nat, alloc: bool): seq<Instr> {
    match s
    case Never => []
    case Split(many, check) => SplitLoop(atom, many, check, greedy, d, alloc)
    case Plus => PlusLoop(atom, greedy)
    case Counted(optional, simple, check) =>
      CountedLoop(atom, optional, simple, check, greedy, min, IntMax(max), d, alloc)
  }

  // The code of one node, for proofs that must not look further inside.

  lemma CodeOfTest(n: Node, base: nat, back: bool, d: nat, alloc: bool)
    ensures IsCharTest(n) ==> Code(n, base, back, d, alloc) == CharCode(n, back)
    ensures n.Assert? ==> Code(n, base, back, d, alloc) == [IAssert(n.kind)]
    ensures n.BackRef? ==> Code(n, base, back, d, alloc) == [IBackRef(back, n.groups)]
  {
  }

  lemma CodeOfCat(n: Node, base: nat, back: bool, d: nat, alloc: bool)
    requires n.Cat?
    ensures Code(n, base, back, d, alloc)
         == CatCode(back, Code(n.first, base, back, d, alloc), Code(n.second, base + Groups(n.first), back, d, alloc))
  {
  }

  lemma CodeOfAlt(n: Node, base: nat, back: bool, d: nat, alloc: bool)
    requires n.Alt?
    ensures Code(n, base, back, d, alloc)
         == AltCode(Code(n.left, base, back, d, alloc), Code(n.right, base + Groups(n.left), back, d, alloc))
  {
  }

  lemma CodeOfGroup(n: Node, base: nat, back: bool, d: nat, alloc: bool)
    requires n.Group?
    ensures Code(n, base, back, d, alloc) == GroupCode(back, base, Code(n.body, base + 1, back, d, alloc))
  {
  }

  lemma CodeOfLook(n: Node, base: nat, back: bool, d: nat, alloc: bool)
    requires n.Look?
    ensures Code(n, base, back, d, alloc) == LookCode(n.negative, Code(n.body, base, n.behind, d, alloc))
  {
  }

  lemma CodeOfQuant(n: Node, base: nat, back: bool, d: nat, alloc: bool)
    requires n.Quant?
    ensures Code(n, base, back, d, alloc)
         == ResetCode(n.min == 0 && Linear(n.body), base, Groups(n.body))
            + LoopCode(LoopAtom(n.body, base, back, d + ShapeRegs(ShapeOf(n.body, n.min, n.max, back)), alloc),
                       ShapeOf(n.body, n.min, n.max, back), n.min, n.max, n.greedy, d, alloc)
  {
  }
}
