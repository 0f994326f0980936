/** lre_exec: from compiled bytecode and a subject to a match. */
module RegexpLreExec {
  import opened RegexpInput
  import opened RegexpSemantics
  import opened RegexpInstr
  import opened RegexpBytecode
  import opened RegexpCompiler
  import opened RegexpMachine
  import opened RegexpYields
  import opened RegexpProgram
  import opened RegexpCapped
  import opened RegexpRealizes
  import opened RegexpCompile
  import opened RegexpExec
  import opened RegexpBoundary

  const LRE_FLAG_UNICODE: nat := 0x10
  const LRE_FLAG_UNICODE_SETS: nat := 0x100

  /** The subject as the flags make the engine read it; `wide` tells 16-bit units. */
  function Subject(units: seq<nat>, wide: bool, reFlags: nat): Input {
    Input(units, wide && (reFlags / LRE_FLAG_UNICODE % 2 == 1 || reFlags / LRE_FLAG_UNICODE_SETS % 2 == 1))
  }

  /** A start between the two halves of a pair is moved to the first half. */
  function StartIndex(inp: Input, index: nat): (r: nat)
    requires index <= |inp.units|
    ensures Boundary(inp, r) && r <= index <= r + 1
    ensures Boundary(inp, index) ==> r == index
  {
    if 0 < index < |inp.units| && inp.utf16 && IsLow(inp.units[index]) && IsHigh(inp.units[index - 1])
    then index - 1 else index
  }

  /** The captures the caller reads. */
  ghost predicate Reported(words: Words, found: Option<Caps>) {
    found.Some? ==>
      && 2 * |found.value| <= |words|
      && forall g {:trigger found.value[g]} :: 0 <= g < |found.value| ==>
           SlotMatches(words[2 * g], words[2 * g + 1], found.value[g])
  }

  /** The first n words hold no position between the halves of a pair. */
  ghost predicate NoneSplit(inp: Input, words: Words, n: nat) {
    forall k :: 0 <= k < |words| && k < n && words[k].Pos? ==> Boundary(inp, words[k].p)
  }

  /** On the bytecode of a pattern the engine answers what the semantics of
      patterns prescribes: whether there is a match, and its captures. A counted
      loop without an upper bound stops at INT32_MAX passes, which shows only on
      subjects long enough to get there. No capture ends between the two halves
      of a pair. */
  method LreExec(capture: array<Word>, bytecode: seq<byte>, units: seq<nat>, wide: bool, index: nat,
                 ghost n: Node, ghost sticky: bool)
    returns (matched: bool)
    requires IsBytecodeOf(bytecode, n, sticky)
    requires forall i :: 0 <= i < |units| ==> units[i] < if wide then 0x1_0000 else 0x100
    requires index <= |units|
    requires capture.Length >= 2 * bytecode[RE_HEADER_CAPTURE_COUNT] as int + bytecode[RE_HEADER_REGISTER_COUNT] as int
    modifies capture
    ensures var inp := Subject(units, wide, Get16(bytecode, 0));
            var found := Find(inp, Capped(n, false), sticky, StartIndex(inp, index));
            && matched == found.Some? && Reported(capture[..], found)
            && (LoopsEnd(n, false, |units|) ==> found == Find(inp, n, sticky, StartIndex(inp, index)))
            && (matched ==> NoneSplit(inp, capture[..], 2 * (1 + Groups(n))))
  {
    hide At, ProgramCode, Parsed, LoopsEnd, Capped, Find, Regs, EncodeAll, Iter, NoneSplit, Reported, Realizes;
    ghost var n1 :| Realizes(n, n1, false, 1 + Groups(n)) && IsCompiled(bytecode, n1, sticky);
    RealizedFacts(n, n1, false, 1 + Groups(n));
    var inp := Subject(units, wide, Get16(bytecode, 0));
    var captureCount := bytecode[RE_HEADER_CAPTURE_COUNT] as nat;
    var i := 0;
    while i < captureCount * 2
      invariant i <= captureCount * 2 && forall k :: 0 <= k < i ==> capture[k] == Null
    {
      capture[i] := Null;
      i := i + 1;
    }
    ghost var start := StartIndex(inp, index);
    FindRealized(inp, n, n1, 1 + Groups(n), sticky, start);
    if LoopsEnd(n, false, |units|) {
      FindSame(inp, n, sticky, start);
    }
    matched := Search(inp, bytecode[RE_HEADER_LEN..], captureCount, capture, StartIndex(inp, index), n1, sticky);
  }

  /** Set up the engine and let it run. */
  method Search(inp: Input, code: seq<byte>, captureCount: nat, capture: array<Word>, start: nat, ghost n: Node,
                ghost sticky: bool)
    returns (matched: bool)
    requires inp.Valid() && captureCount == 1 + Groups(n) && Parsed(n, captureCount)
    requires At(Fetcher(code), 0, ProgramCode(n, sticky, true)) && 2 * captureCount + Regs(n, false) <= capture.Length
    requires forall k :: 0 <= k < 2 * captureCount ==> capture[k] == Null
    requires start <= |inp.units| && Boundary(inp, start)
    modifies capture
    ensures var found := Find(inp, Capped(n, false), sticky, start);
            && matched == found.Some? && Reported(capture[..], found)
            && (matched ==> NoneSplit(inp, capture[..], 2 * captureCount))
  {
    hide At, ProgramCode, Parsed, LoopsEnd, Capped, Find, Regs, EncodeAll, Iter, NoneSplit, Boundary;
    var s := new Executor(inp, code, captureCount, capture, start);
    ghost var m, s0, found := s.Engine(), s.Snapshot(), Find(inp, Capped(n, false), sticky, start);
    assert Loaded(m, n, sticky, capture[..]);
    ProgramExact(m, n, sticky, start, capture[..]);
    ghost var k: nat :| Answers(Iter(m, k, s0), found);
    NeverSplit(m, s0, k);
    matched := s.Backtrack(k, Iter(m, k, s0));
  }

  /** A run that starts on a boundary, with no captures, reports boundaries. */
  lemma NeverSplit(m: Machine, s: State, k: nat)
    requires s.Run? && s.stk == [] && Boundary(m.inp, s.pos)
    requires forall j :: 0 <= j < 2 * m.ngroups && j < |s.words| ==> s.words[j] == Null
    ensures var end := Iter(m, k, s); end.Matched? ==> NoneSplit(m.inp, end.words, 2 * m.ngroups)
  {
    hide Iter, Boundary;
    RunKeepsBoundaries(m, s, k, 2 * m.ngroups);
  }
}
