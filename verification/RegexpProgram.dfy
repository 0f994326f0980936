/** The whole program of a pattern and the search it performs. */
module RegexpProgram {
  import opened RegexpInput
  import opened RegexpSemantics
  import opened RegexpInstr
  import opened RegexpCompiler
  import opened RegexpMachine
  import opened RegexpYields
  import opened RegexpCorrect

  /** Without the sticky flag the pattern is tried at every position. */
  function Prefix(sticky: bool): seq<Instr> {
    if sticky then [] else [ISplit(false, 6)] + ([IAny] + [IGoto(-11)])
  }

  function PrefixSize(sticky: bool): nat {
    if sticky then 0 else 11
  }

  /** The pattern as a whole is group 0. */
  function ProgramCode(n: Node, sticky: bool, alloc: bool): seq<Instr> {
    Prefix(sticky) + (Code(Group(n), 0, false, 0, alloc) + [IMatch])
  }

  function NoCaps(ngroups: nat): (r: Caps)
    ensures |r| == ngroups && forall i :: 0 <= i < ngroups ==> r[i] == None
  {
    seq(ngroups, i => None)
  }

  /** The match of the pattern found first: at the leftmost position where there
      is one, the outcome preferred there. */
  function Find(inp: Input, n: Node, sticky: bool, p: nat): Option<Caps>
    requires p <= |inp.units|
    decreases |inp.units| - p
  {
    var ys := Match(inp, Group(n), 0, false, St(p, NoCaps(1 + Groups(n))));
    if ys != [] then Some(ys[0].caps)
    else if sticky || p == |inp.units| then None
    else Find(inp, n, sticky, Next(inp, p, |inp.units|))
  }

  /** The engine's answer: failure, or a capture array that shows the match. */
  ghost predicate Answers(s: State, found: Option<Caps>) {
    match found
    case None => s == Failed
    case Some(caps) =>
      s.Matched? && 2 * |caps| <= |s.words|
      && forall g {:trigger caps[g]} :: 0 <= g < |caps| ==> SlotMatches(s.words[2 * g], s.words[2 * g + 1], caps[g])
  }

  ghost predicate Computes(m: Machine, s: State, found: Option<Caps>) {
    exists k: nat :: Answers(Iter(m, k, s), found)
  }

  ghost predicate Started(m: Machine, n: Node, sticky: bool, words: Words) {
    && m.inp.Valid() && m.ngroups == 1 + Groups(n) && WellFormed(n, m.ngroups, false)
    && At(m.fetch, 0, ProgramCode(n, sticky, true))
    && 2 * m.ngroups + Regs(n, false) <= |words|
    && forall k :: 0 <= k < 2 * m.ngroups ==> words[k] == Null
  }

  lemma PrefixAt(fetch: Fetch, sticky: bool, rest: seq<Instr>)
    requires At(fetch, 0, Prefix(sticky) + rest)
    ensures !sticky ==> fetch(0) == Some(ISplit(false, 6)) && fetch(5) == Some(IAny) && fetch(6) == Some(IGoto(-11))
    ensures At(fetch, PrefixSize(sticky), rest)
  {
    assert SizeAll([]) == 0;
    hide At, SizeAll;
    AtAppend(fetch, 0, Prefix(sticky), rest);
    if !sticky {
      AtCons(fetch, 0, ISplit(false, 6), [IAny] + [IGoto(-11)]);
      AtCons(fetch, 5, IAny, [IGoto(-11)]);
      AtOne(fetch, 6, IGoto(-11));
    }
  }

  lemma ProgramAt(fetch: Fetch, n: Node, sticky: bool)
    requires At(fetch, 0, ProgramCode(n, sticky, true))
    ensures !sticky ==> fetch(0) == Some(ISplit(false, 6)) && fetch(5) == Some(IAny) && fetch(6) == Some(IGoto(-11))
    ensures var pc := PrefixSize(sticky);
            && At(fetch, pc, Code(Group(n), 0, false, 0, true))
            && fetch(pc + SizeAll(Code(Group(n), 0, false, 0, true))) == Some(IMatch)
  {
    hide Code, At, SizeAll, Prefix;
    var code := Code(Group(n), 0, false, 0, true);
    PrefixAt(fetch, sticky, code + [IMatch]);
    AtSnoc(fetch, PrefixSize(sticky), code, IMatch);
  }

  lemma StartReady(m: Machine, n: Node, sticky: bool, p: nat, words: Words)
    requires Started(m, n, sticky, words) && p <= |m.inp.units|
    ensures ValidSt(m.inp, St(p, NoCaps(m.ngroups)))
    ensures Ready(m, Group(n), 0, false, 0, St(p, NoCaps(m.ngroups)), words, {}, {})
  {
  }

  lemma ComputesFrom(m: Machine, a: State, b: State, found: Option<Caps>)
    requires Reaches(m, a, b) && Computes(m, b, found)
    ensures Computes(m, a, found)
  {
    var j: nat :| Iter(m, j, a) == b;
    var k: nat :| Answers(Iter(m, k, b), found);
    IterAdd(m, j, k, a);
  }

  /** The pattern at one position: its preferred outcome is the answer, or the
      engine gives up on the stack it started with. */
  lemma AtPosition(m: Machine, n: Node, sticky: bool, p: nat, words: Words, stk: Stack)
    requires Started(m, n, sticky, words) && p <= |m.inp.units|
    ensures var ys := Match(m.inp, Group(n), 0, false, St(p, NoCaps(m.ngroups)));
            var s := Run(PrefixSize(sticky), p, words, stk);
            if ys == [] then Reaches(m, s, State.Back(stk)) else Computes(m, s, Some(ys[0].caps))
  {
    hide Code, Match, WellFormed, Regs, SizeAll, At;
    var x, pc := St(p, NoCaps(m.ngroups)), PrefixSize(sticky);
    var s := Run(pc, p, words, stk);
    ProgramAt(m.fetch, n, sticky);
    StartReady(m, n, sticky, p, words);
    NothingStale(Group(n), 0, false, 0, pc, words, {});
    Correct(m, Group(n), 0, false, 0, pc, x, words, {}, {}, stk);
    var ys, g := Match(m.inp, Group(n), 0, false, x), PlainGoal(Group(n), 0, false, 0, pc, words, {});
    if ys != [] {
      var w, t :| YieldsAs(m, s, g, ys, stk, w, t);
      OneStep(m, g.exit, IMatch, ys[0].pos, w, stk + t, Matched(w));
      ReachesTrans(m, s, Run(g.exit, ys[0].pos, w, stk + t), Matched(w));
      assert Answers(Matched(w), Some(ys[0].caps));
      assert Answers(Iter(m, 0, Matched(w)), Some(ys[0].caps));
      ComputesFrom(m, s, Matched(w), Some(ys[0].caps));
    }
  }

  lemma GiveUp(m: Machine, s: State)
    requires Reaches(m, s, State.Back([]))
    ensures Computes(m, s, None)
  {
    assert Step(m, State.Back([])) == Failed;
    assert Iter(m, 0, Failed) == Failed;
    assert Iter(m, 1, State.Back([])) == Failed;
    assert Answers(Iter(m, 1, State.Back([])), None);
    ComputesFrom(m, s, State.Back([]), None);
  }

  /** The compiled program halts on every subject and finds the match that the
      pattern semantics prescribes, or none if there is none. */
  lemma {:induction false} ProgramCorrect(m: Machine, n: Node, sticky: bool, p: nat, words: Words)
    requires Started(m, n, sticky, words) && p <= |m.inp.units|
    ensures Computes(m, Run(0, p, words, []), Find(m.inp, n, sticky, p))
    decreases |m.inp.units| - p
  {
    hide Code, Match, WellFormed, Regs, SizeAll, At, Answers, Started;
    assert m.ngroups == 1 + Groups(n) by { StartedGroups(m, n, sticky, words); }
    var s := Run(0, p, words, []);
    if sticky {
      AtPosition(m, n, sticky, p, words, []);
      if Match(m.inp, Group(n), 0, false, St(p, NoCaps(m.ngroups))) == [] {
        GiveUp(m, s);
      }
    } else {
      StartedProgram(m, n, words);
      var f := Frame(5, p, words, KSplit);
      var s1 := Run(11, p, words, [f]);
      OneStep(m, 0, ISplit(false, 6), p, words, [], s1);
      AtPosition(m, n, sticky, p, words, [f]);
      if Match(m.inp, Group(n), 0, false, St(p, NoCaps(m.ngroups))) == [] {
        Retry(m, n, p, words, s, f);
        if p < |m.inp.units| {
          var p1 := Next(m.inp, p, |m.inp.units|);
          ProgramCorrect(m, n, sticky, p1, words);
          ComputesFrom(m, s, Run(0, p1, words, []), Find(m.inp, n, sticky, p1));
        } else {
          GiveUp(m, s);
        }
      } else {
        ComputesFrom(m, s, s1, Find(m.inp, n, sticky, p));
      }
    }
  }

  lemma StartedGroups(m: Machine, n: Node, sticky: bool, words: Words)
    requires Started(m, n, sticky, words)
    ensures m.ngroups == 1 + Groups(n)
  {
  }

  lemma StartedProgram(m: Machine, n: Node, words: Words)
    requires Started(m, n, false, words)
    ensures m.fetch(0) == Some(ISplit(false, 6)) && m.fetch(5) == Some(IAny) && m.fetch(6) == Some(IGoto(-11))
  {
    ProgramAt(m.fetch, n, false);
  }

  /** No match here: move one character to the right, unless at the end. */
  lemma Retry(m: Machine, n: Node, p: nat, words: Words, s: State, f: Frame)
    requires m.fetch(5) == Some(IAny) && m.fetch(6) == Some(IGoto(-11))
    requires p <= |m.inp.units| && f == Frame(5, p, words, KSplit)
    requires Reaches(m, s, Run(11, p, words, [f])) && Reaches(m, Run(11, p, words, [f]), State.Back([f]))
    ensures Reaches(m, s, if p == |m.inp.units| then State.Back([])
                    else Run(0, Next(m.inp, p, |m.inp.units|), words, []))
  {
    ReachesTrans(m, s, Run(11, p, words, [f]), State.Back([f]));
    assert [] + [f] == [f];
    PopStep(m, [], f);
    ReachesTrans(m, s, State.Back([f]), Run(5, p, words, []));
    if p == |m.inp.units| {
      OneStep(m, 5, IAny, p, words, [], State.Back([]));
      ReachesTrans(m, s, Run(5, p, words, []), State.Back([]));
    } else {
      var p1 := Next(m.inp, p, |m.inp.units|);
      OneStep(m, 5, IAny, p, words, [], Run(6, p1, words, []));
      OneStep(m, 6, IGoto(-11), p1, words, [], Run(0, p1, words, []));
      ReachesTrans(m, s, Run(5, p, words, []), Run(6, p1, words, []));
      ReachesTrans(m, s, Run(6, p1, words, []), Run(0, p1, words, []));
    }
  }
}
