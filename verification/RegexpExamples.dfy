/** Matches that can be checked by hand. */
module RegexpExamples {
  import opened RegexpInput
  import opened RegexpSemantics
  import opened RegexpInstr
  import opened RegexpBytecode
  import opened RegexpCompiler
  import opened RegexpFacts
  import opened RegexpProgram
  import opened RegexpLaws

  const A := Char(0x61)
  const B := Char(0x62)

  function Subject(s: string): (inp: Input)
    ensures |inp.units| == |s| && !inp.utf16 && forall i :: 0 <= i < |s| ==> inp.units[i] == s[i] as nat
  {
    Input(seq(|s|, i requires 0 <= i < |s| => s[i] as nat), false)
  }

  lemma FoundHere(inp: Input, n: Node, sticky: bool, p: nat)
    requires p <= |inp.units|
    requires Match(inp, n, 1, false, St(p, NoCaps(1 + Groups(n)))) != []
    ensures var y := Match(inp, n, 1, false, St(p, NoCaps(1 + Groups(n))))[0];
            && |y.caps| == 1 + Groups(n) && p <= y.pos
            && Find(inp, n, sticky, p) == Some(y.caps[0 := Some(Span(p, y.pos))])
  {
    var x := St(p, NoCaps(1 + Groups(n)));
    FindStep(inp, n, sticky, p);
    GroupSpans(inp, n, 0, false, x, 0);
    hide Find, Match;
    var y := Match(inp, n, 1, false, x)[0];
    assert Follows(inp, false, x, y);
    var z := MatchAt(inp, n, p)[0];
    assert z.caps == y.caps[0 := Some(Span(p, y.pos))];
  }

  lemma NotHere(inp: Input, n: Node, p: nat)
    requires p <= |inp.units| && Match(inp, n, 1, false, St(p, NoCaps(1 + Groups(n)))) == []
    ensures Find(inp, n, true, p) == None
  {
    var x := St(p, NoCaps(1 + Groups(n)));
    FindStep(inp, n, true, p);
    GroupSpans(inp, n, 0, false, x, 0);
  }

  /** a|ab takes the first alternative. */
  lemma FirstAlternative()
    ensures Find(Subject("ab"), Alt(A, Cat(A, B)), false, 0) == Some([Some(Span(0, 1))])
  {
    var inp, x, n := Subject("ab"), St(0, [None]), Alt(A, Cat(A, B));
    assert Match(inp, n, 1, false, x)[0] == St(1, [None]) by {
      assert Match(inp, A, 1, false, x) == [St(1, [None])];
    }
    assert NoCaps(1) == [None] && Groups(n) == 0;
    assert [None][0 := Some(Span(0, 1))] == [Some(Span(0, 1))];
    hide Match, Find, Subject;
    FoundHere(inp, n, false, 0);
  }

  lemma AfterA(negative: bool)
    ensures var inp, x, y, n := Subject("ab"), St(0, [None]), St(1, [None]), Look(false, negative, B);
            && Groups(Cat(A, n)) == 0 && NoCaps(1) == [None]
            && Match(inp, Cat(A, n), 1, false, x) == if negative then [] else [y]
  {
    var inp, x, y, n := Subject("ab"), St(0, [None]), St(1, [None]), Look(false, negative, B);
    assert NoCaps(1) == [None];
    assert Match(inp, A, 1, false, x) == [y];
    assert Match(inp, B, 1, false, y) == [St(2, [None])];
    assert Match(inp, n, 1, false, y) == if negative then [] else [y];
    assert [y][1..] == [];
  }

  /** a(?=b) and a(?!b) */
  lemma Lookaheads()
    ensures Find(Subject("ab"), Cat(A, Look(false, false, B)), false, 0) == Some([Some(Span(0, 1))])
    ensures Find(Subject("ab"), Cat(A, Look(false, true, B)), true, 0) == None
  {
    AfterA(false);
    AfterA(true);
    assert [None][0 := Some(Span(0, 1))] == [Some(Span(0, 1))];
    hide Match, Find, Subject, Groups;
    FoundHere(Subject("ab"), Cat(A, Look(false, false, B)), false, 0);
    NotHere(Subject("ab"), Cat(A, Look(false, true, B)), 0);
  }

  // ----- a lookbehind runs backward ---------------------------------------------------------------

  const STAR := Quant(A, 0, Infinite, true)

  /** The first outcome of (a*), backward. */
  lemma StarBehind(base: nat, x: St, run: seq<nat>)
    requires var inp := Subject("aab"); ValidSt(inp, x) && base < |x.caps| && IsRun(inp, A, true, x.pos, run)
    ensures Groups(Group(STAR)) == 1
    ensures var r, end := Match(Subject("aab"), Group(STAR), base, true, x), run[|run| - 1];
            r != [] && r[0] == St(end, x.caps[base := Some(Span(end, x.pos))])
  {
    var inp := Subject("aab");
    QuantOfTest(inp, A, 0, Infinite, true, base + 1, true, x, run, 0);
    hide Match, IsRun;
    GroupSpans(inp, STAR, base, true, x, 0);
    var z, end := Match(inp, Group(STAR), base, true, x)[0], run[|run| - 1];
    assert z.caps == x.caps[base := Some(Span(end, x.pos))];
  }

  lemma EachHead(inp: Input, n: Node, base: nat, back: bool, x: St, ys: seq<St>)
    requires ValidSt(inp, x) && base + Groups(n) <= |x.caps| && AllFollow(inp, back, x, ys) && ys != []
    ensures Follows(inp, back, x, ys[0])
    ensures var r := Match(inp, n, base, back, ys[0]);
            r != [] ==> MatchEach(inp, n, base, back, x, ys) != [] && MatchEach(inp, n, base, back, x, ys)[0] == r[0]
  {
    hide Match, Groups;
    assert Follows(inp, back, x, ys[0]);
  }

  /** The first outcome of a sequence: backward, the second part comes first. */
  lemma CatForward(inp: Input, a: Node, b: Node, base: nat, x: St, y: St)
    requires ValidSt(inp, x) && base + Groups(Cat(a, b)) <= |x.caps|
    requires Match(inp, a, base, false, x) != [] && Match(inp, a, base, false, x)[0] == y
    ensures ValidSt(inp, y) && |y.caps| == |x.caps|
    ensures var r := Match(inp, b, base + Groups(a), false, y);
            r != [] ==> Match(inp, Cat(a, b), base, false, x) != [] && Match(inp, Cat(a, b), base, false, x)[0] == r[0]
  {
    hide Match, MatchEach, AllFollow;
    CatOutcomes(inp, Cat(a, b), base, false, x);
    EachHead(inp, b, base + Groups(a), false, x, Match(inp, a, base, false, x));
  }

  lemma CatBackward(inp: Input, a: Node, b: Node, base: nat, x: St, y: St)
    requires ValidSt(inp, x) && base + Groups(Cat(a, b)) <= |x.caps|
    requires Match(inp, b, base + Groups(a), true, x) != [] && Match(inp, b, base + Groups(a), true, x)[0] == y
    ensures ValidSt(inp, y) && |y.caps| == |x.caps|
    ensures var r := Match(inp, a, base, true, y);
            r != [] ==> Match(inp, Cat(a, b), base, true, x) != [] && Match(inp, Cat(a, b), base, true, x)[0] == r[0]
  {
    hide Match, MatchEach, AllFollow;
    CatOutcomes(inp, Cat(a, b), base, true, x);
    EachHead(inp, a, base, true, x, Match(inp, b, base + Groups(a), true, x));
  }

  lemma Runs()
    ensures IsRun(Subject("aab"), A, true, 2, [2, 1, 0]) && IsRun(Subject("aab"), A, true, 0, [0])
  {
  }

  lemma TwoStars(x: St)
    requires x == St(2, [None, None, None])
    ensures ValidSt(Subject("aab"), x)
    ensures var n := Cat(Group(STAR), Group(STAR));
            && Groups(n) == 2 && Match(Subject("aab"), n, 1, true, x) != []
            && Match(Subject("aab"), n, 1, true, x)[0] == St(0, [None, Some(Span(0, 0)), Some(Span(0, 2))])
  {
    var inp, y := Subject("aab"), St(0, [None, None, Some(Span(0, 2))]);
    hide Match, IsRun, Subject;
    Runs();
    StarBehind(2, x, [2, 1, 0]);
    assert x.caps[2 := Some(Span(0, 2))] == y.caps;
    CatBackward(inp, Group(STAR), Group(STAR), 1, x, y);
    StarBehind(1, y, [0]);
    assert y.caps[1 := Some(Span(0, 0))] == [None, Some(Span(0, 0)), Some(Span(0, 2))];
  }

  /** (?<=(a*)(a*))b at the end of "aab": the second group is matched first and takes
      everything. */
  lemma BehindFromTheRight()
    ensures Find(Subject("aab"), Cat(Look(true, false, Cat(Group(STAR), Group(STAR))), B), true, 2)
            == Some([Some(Span(2, 3)), Some(Span(0, 0)), Some(Span(0, 2))])
  {
    var inp, x, m := Subject("aab"), St(2, [None, None, None]), Cat(Group(STAR), Group(STAR));
    var caps, n := [None, Some(Span(0, 0)), Some(Span(0, 2))], Look(true, false, m);
    hide Match, Find, Subject, Groups, NoCaps;
    ThenB(caps);
    TwoStars(x);
    LookHead(inp, m, x, caps);
    CatForward(inp, n, B, 1, x, St(2, caps));
    FoundHere(inp, Cat(n, B), true, 2);
  }

  lemma ThenB(caps: Caps)
    requires |caps| == 3 && forall i :: 0 <= i < 3 ==> ValidSpan(Subject("aab"), caps[i])
    ensures Match(Subject("aab"), B, 3, false, St(2, caps)) == [St(3, caps)]
    ensures var m := Cat(Group(STAR), Group(STAR));
            && Groups(Cat(Look(true, false, m), B)) == 2 && Groups(Look(true, false, m)) == 2
            && NoCaps(3) == [None, None, None]
    ensures caps[0 := Some(Span(2, 3))] == [Some(Span(2, 3)), caps[1], caps[2]]
  {
  }

  lemma LookHead(inp: Input, m: Node, x: St, caps: Caps)
    requires ValidSt(inp, x) && 1 + Groups(m) <= |x.caps|
    requires Match(inp, m, 1, true, x) != [] && Match(inp, m, 1, true, x)[0].caps == caps
    ensures Groups(Look(true, false, m)) == Groups(m)
    ensures Match(inp, Look(true, false, m), 1, false, x) == [x.(caps := caps)]
  {
  }

  // ----- bytes ------------------------------------------------------------------------------------

  const SEARCH: seq<Instr> := [ISplit(false, 6), IAny, IGoto(-11)]
  const BODY: seq<Instr> := [ISave(false, 0), IChar(97), ISave(true, 0), IMatch]

  lemma ProgramIs()
    ensures ProgramCode(A, false, true) == SEARCH + BODY
  {
    assert Code(A, 1, false, 0, true) == [IChar(97)];
    assert Code(Group(A), 0, false, 0, true) == [ISave(false, 0), IChar(97), ISave(true, 0)];
  }

  lemma JoinBytes(i: Instr, code: seq<Instr>, bytes: seq<byte>, more: seq<byte>)
    requires Encode(i) == bytes && EncodeAll(code) == more
    ensures EncodeAll([i] + code) == bytes + more
  {
    hide Encode;
    assert ([i] + code)[1..] == code;
    EncodeFirst([i] + code);
  }

  lemma SearchBytes()
    ensures EncodeAll(SEARCH) == [14, 6, 0, 0, 0, 6, 13, 245, 255, 255, 255]
  {
    assert EncodeAll([]) == [];
    hide EncodeAll;
    JoinBytes(IGoto(-11), [], [13, 245, 255, 255, 255], []);
    JoinBytes(IAny, [IGoto(-11)] + [], [6], [13, 245, 255, 255, 255] + []);
    JoinBytes(ISplit(false, 6), [IAny] + ([IGoto(-11)] + []), [14, 6, 0, 0, 0], [6] + ([13, 245, 255, 255, 255] + []));
    assert [ISplit(false, 6)] + ([IAny] + ([IGoto(-11)] + [])) == SEARCH;
  }

  lemma BodyBytes()
    ensures EncodeAll(BODY) == [19, 0, 1, 97, 0, 20, 0, 16]
  {
    assert EncodeAll([]) == [];
    hide EncodeAll;
    JoinBytes(IMatch, [], [16], []);
    JoinBytes(ISave(true, 0), [IMatch] + [], [20, 0], [16] + []);
    JoinBytes(IChar(97), [ISave(true, 0)] + ([IMatch] + []), [1, 97, 0], [20, 0] + ([16] + []));
    JoinBytes(ISave(false, 0), [IChar(97)] + ([ISave(true, 0)] + ([IMatch] + [])), [19, 0],
              [1, 97, 0] + ([20, 0] + ([16] + [])));
    assert [ISave(false, 0)] + ([IChar(97)] + ([ISave(true, 0)] + ([IMatch] + []))) == BODY;
  }

  /** The program of /a/: the search for a start, and save, compare, save and match. */
  lemma ProgramBytes()
    ensures EncodeAll(ProgramCode(A, false, true))
         == [14, 6, 0, 0, 0, 6, 13, 245, 255, 255, 255] + [19, 0, 1, 97, 0, 20, 0, 16]
  {
    hide EncodeAll, ProgramCode, SEARCH, BODY;
    ProgramIs();
    SearchBytes();
    BodyBytes();
    EncodeAppend(SEARCH, BODY);
  }
}
