/** The backtracking engine with its choice points as whole snapshots.

    Each choice point holds a copy of the capture array. The engine itself
    keeps one array and an undo log; RegexpExec proves that it runs through the
    states of this machine. */
module RegexpMachine {
  import opened RegexpInput
  import opened RegexpSemantics
  import opened RegexpInstr
  import opened RegexpClass

  /** An element of the capture array: first two slots a group (null or a
      position), then the registers (a counter or a position). */
  datatype Word = Null | Pos(p: nat) | Cnt(n: nat)

  type Words = seq<Word>

  datatype Kind = KSplit | KLook | KNegLook

  datatype Frame = Frame(pc: nat, pos: nat, words: Words, kind: Kind)

  type Stack = seq<Frame>

  /** `Back` is the point where the engine gives up on its current path. */
  datatype State =
    | Run(pc: nat, pos: nat, words: Words, stk: Stack)
    | Back(stk: Stack)
    | Matched(words: Words)
    | Failed
    | Stuck

  datatype Machine = Machine(fetch: Fetch, inp: Input, ngroups: nat)

  /** Continue at a jump target. */
  function Jump(target: int, pos: nat, words: Words, stk: Stack): State {
    if target < 0 then Stuck else Run(target, pos, words, stk)
  }

  /** A conditional jump that keeps the other way as a choice point. */
  function Fork(nextFirst: bool, next: nat, target: int, pos: nat, words: Words, stk: Stack): State {
    if target < 0 then Stuck
    else if nextFirst then Run(next, pos, words, stk + [Frame(target, pos, words, KSplit)])
    else Run(target, pos, words, stk + [Frame(next, pos, words, KSplit)])
  }

  function AfterChar(accept: bool, m: Machine, next: nat, pos: nat, words: Words, stk: Stack): State
    requires pos < |m.inp.units|
  {
    if accept then Run(next, Next(m.inp, pos, |m.inp.units|), words, stk) else Back(stk)
  }

  function StepCharTest(m: Machine, i: Instr, next: nat, pos: nat, words: Words, stk: Stack): State
    requires pos <= |m.inp.units|
  {
    if pos == |m.inp.units| then Back(stk)
    else
      var c := CharAt(m.inp, pos, |m.inp.units|);
      match i
      case IChar(d) => AfterChar(c == d, m, next, pos, words, stk)
      case IChar32(d) => AfterChar(c == d, m, next, pos, words, stk)
      case IDot => AfterChar(!IsLineTerminator(c), m, next, pos, words, stk)
      case IRange(pairs) => if pairs == [] then Stuck else AfterChar(Find16(pairs, c), m, next, pos, words, stk)
      case IRange32(pairs) => if pairs == [] then Stuck else AfterChar(Find32(pairs, c), m, next, pos, words, stk)
      case _ => AfterChar(true, m, next, pos, words, stk)
  }

  function ResetWords(words: Words, lo: nat, hi: nat): (r: Words)
    ensures |r| == |words|
    ensures forall i :: 0 <= i < |words| ==> r[i] == if lo <= i < hi then Null else words[i]
  {
    seq(|words|, i requires 0 <= i < |words| => if lo <= i < hi then Null else words[i])
  }

  function StepRef(m: Machine, back: bool, groups: seq<nat>, next: nat, pos: nat, words: Words, stk: Stack): State
    requires pos <= |m.inp.units|
  {
    if groups == [] then Run(next, pos, words, stk)
    else
      var g := groups[0];
      if g >= m.ngroups then Back(stk)
      else if 2 * g + 1 >= |words| then Stuck
      else if words[2 * g].Pos? && words[2 * g + 1].Pos? then
        var lo, hi := words[2 * g].p, words[2 * g + 1].p;
        if hi > |m.inp.units| then Stuck
        else if lo >= hi then Run(next, pos, words, stk)
        else
          var q := RefEnd(m.inp, lo, hi, back, pos);
          if q.Some? then Run(next, q.value, words, stk) else Back(stk)
      else StepRef(m, back, groups[1..], next, pos, words, stk)
  }

  /** The position of the innermost frame of kind `k`, if any. */
  function Innermost(stk: Stack, k: Kind): (r: Option<nat>)
    ensures r.Some? ==> r.value < |stk| && stk[r.value].kind == k
    decreases |stk|
  {
    if stk == [] then None
    else if stk[|stk| - 1].kind == k then Some(|stk| - 1)
    else Innermost(stk[..|stk| - 1], k)
  }

  function StepLookMatch(negative: bool, words: Words, stk: Stack): State {
    var k := Innermost(stk, if negative then KNegLook else KLook);
    if k.None? then Stuck
    else if negative then Back(stk[..k.value])
    else Run(stk[k.value].pc, stk[k.value].pos, words, stk[..k.value])
  }

  function StepLoop(m: Machine, i: Instr, next: nat, pos: nat, words: Words, stk: Stack): State
    requires i.ILoop? || i.ILoopSplit?
  {
    var r := 2 * m.ngroups + i.reg;
    if r >= |words| || !words[r].Cnt? || words[r].n == 0 then Stuck
    else
      var v := words[r].n - 1;
      var words1 := words[r := Cnt(v)];
      match i
      case ILoop(_, off) => if v != 0 then Jump(next + off, pos, words1, stk) else Run(next, pos, words1, stk)
      case ILoopSplit(check, nextFirst, _, limit, off) =>
        if v > limit then Jump(next + off, pos, words1, stk)
        else if check && r + 1 >= |words| then Stuck
        else if check && words1[r + 1] == Pos(pos) && v != limit then Back(stk)
        else if v != 0 then Fork(nextFirst, next, next + off, pos, words1, stk)
        else Run(next, pos, words1, stk)
  }

  /** One instruction; `next` is the address after it. */
  function Exec(m: Machine, i: Instr, next: nat, pos: nat, words: Words, stk: Stack): State
    requires pos <= |m.inp.units|
  {
    match i
    case IChar(_) => StepCharTest(m, i, next, pos, words, stk)
    case IChar32(_) => StepCharTest(m, i, next, pos, words, stk)
    case IDot => StepCharTest(m, i, next, pos, words, stk)
    case IAny => StepCharTest(m, i, next, pos, words, stk)
    case IRange(_) => StepCharTest(m, i, next, pos, words, stk)
    case IRange32(_) => StepCharTest(m, i, next, pos, words, stk)
    case IAssert(kind) => if Holds(m.inp, kind, pos) then Run(next, pos, words, stk) else Back(stk)
    case IGoto(off) => Jump(next + off, pos, words, stk)
    case ISplit(nextFirst, off) => Fork(nextFirst, next, next + off, pos, words, stk)
    case IMatch => Matched(words)
    case ILookMatch(negative) => StepLookMatch(negative, words, stk)
    case ISave(end, g) =>
      var k := 2 * g + if end then 1 else 0;
      if g >= m.ngroups || k >= |words| then Stuck else Run(next, pos, words[k := Pos(pos)], stk)
    case IReset(first, last) =>
      if last >= m.ngroups then Stuck else Run(next, pos, ResetWords(words, 2 * first, 2 * last + 2), stk)
    case ILoop(_, _) => StepLoop(m, i, next, pos, words, stk)
    case ILoopSplit(_, _, _, _, _) => StepLoop(m, i, next, pos, words, stk)
    case ISet(reg, val) =>
      var r := 2 * m.ngroups + reg;
      if r >= |words| then Stuck else Run(next, pos, words[r := Cnt(val)], stk)
    case ISetPos(reg) =>
      var r := 2 * m.ngroups + reg;
      if r >= |words| then Stuck else Run(next, pos, words[r := Pos(pos)], stk)
    case ICheckAdv(reg) =>
      var r := 2 * m.ngroups + reg;
      if r >= |words| then Stuck
      else if words[r] == Pos(pos) then Back(stk) else Run(next, pos, words, stk)
    case IBackRef(back, groups) => StepRef(m, back, groups, next, pos, words, stk)
    case ILook(negative, off) =>
      if next + off < 0 then Stuck
      else Run(next, pos, words, stk + [Frame(next + off, pos, words, if negative then KNegLook else KLook)])
    case IPrev =>
      if pos == 0 then Back(stk) else Run(next, Prev(m.inp, pos, 0), words, stk)
  }

  function Step(m: Machine, s: State): State {
    match s
    case Run(pc, pos, words, stk) =>
      if pos > |m.inp.units| then Stuck
      else
        var i := m.fetch(pc);
        if i.None? then Stuck else Exec(m, i.value, pc + Size(i.value), pos, words, stk)
    case Back(stk) =>
      if stk == [] then Failed
      else
        var f := stk[|stk| - 1];
        if f.kind == KLook then Back(stk[..|stk| - 1])
        else Run(f.pc, f.pos, f.words, stk[..|stk| - 1])
    case _ => s
  }

  function Iter(m: Machine, k: nat, s: State): State {
    if k == 0 then s else Iter(m, k - 1, Step(m, s))
  }

  ghost predicate Reaches(m: Machine, a: State, b: State) {
    exists k: nat :: Iter(m, k, a) == b
  }

  lemma {:induction false} IterAdd(m: Machine, j: nat, k: nat, s: State)
    ensures Iter(m, j + k, s) == Iter(m, k, Iter(m, j, s))
  {
    if j > 0 {
      IterAdd(m, j - 1, k, Step(m, s));
    }
  }

  lemma ReachesSelf(m: Machine, a: State)
    ensures Reaches(m, a, a)
  {
    assert Iter(m, 0, a) == a;
  }

  lemma ReachesTrans(m: Machine, a: State, b: State, c: State)
    requires Reaches(m, a, b) && Reaches(m, b, c)
    ensures Reaches(m, a, c)
  {
    var j: nat :| Iter(m, j, a) == b;
    var k: nat :| Iter(m, k, b) == c;
    IterAdd(m, j, k, a);
  }

  lemma ReachesStep(m: Machine, a: State, b: State)
    requires Reaches(m, Step(m, a), b)
    ensures Reaches(m, a, b)
  {
    var k: nat :| Iter(m, k, Step(m, a)) == b;
    assert Iter(m, k + 1, a) == b;
  }
}
