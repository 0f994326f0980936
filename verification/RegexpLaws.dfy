/** Laws of the pattern semantics that do not follow its recursion: what is found,
    what a group captures, what a quantifier over a character test matches and in
    which order, and what repeated groups keep. */
module RegexpLaws {
  import opened RegexpInput
  import opened RegexpSemantics
  import opened RegexpEquivalence
  import opened RegexpFacts
  import opened RegexpProgram

  // ----- the leftmost match -----------------------------------------------------------------

  /** The outcomes of the whole pattern at one position. */
  function MatchAt(inp: Input, n: Node, q: nat): seq<St>
    requires q <= |inp.units|
  {
    Match(inp, Group(n), 0, false, St(q, NoCaps(1 + Groups(n))))
  }

  /** Where a match may start. */
  predicate MayStart(inp: Input, sticky: bool, p: nat, q: nat) {
    p <= q <= |inp.units| && Boundary(inp, q) && (sticky ==> q == p)
  }

  ghost predicate NoMatchBefore(inp: Input, n: Node, sticky: bool, p: nat, q: nat) {
    forall i: nat :: MayStart(inp, sticky, p, i) && i < q ==> MatchAt(inp, n, i) == []
  }

  /** What is found is the preferred outcome at the leftmost position that has one. */
  lemma {:induction false} FoundLeftmost(inp: Input, n: Node, sticky: bool, p: nat, q: nat)
    requires Boundary(inp, p)
    ensures Find(inp, n, sticky, p).None? <==> NoMatchBefore(inp, n, sticky, p, |inp.units| + 1)
    ensures MayStart(inp, sticky, p, q) && NoMatchBefore(inp, n, sticky, p, q) && MatchAt(inp, n, q) != [] ==>
              Find(inp, n, sticky, p) == Some(MatchAt(inp, n, q)[0].caps)
    decreases |inp.units| - p
  {
    FindStep(inp, n, sticky, p);
    hide Find, MatchAt, Boundary;
    assert MayStart(inp, sticky, p, p);
    if MatchAt(inp, n, p) != [] {
    } else if sticky || p == |inp.units| {
      assert forall i: nat :: MayStart(inp, sticky, p, i) ==> i == p;
    } else {
      var p1 := Next(inp, p, |inp.units|);
      NoneBetween(inp, p);
      StepsKeepBoundaries(inp, p);
      FoundLeftmost(inp, n, sticky, p1, q);
      assert forall i: nat :: MayStart(inp, sticky, p, i) <==> i == p || MayStart(inp, sticky, p1, i);
    }
  }

  lemma FindStep(inp: Input, n: Node, sticky: bool, p: nat)
    requires p <= |inp.units|
    ensures Find(inp, n, sticky, p)
         == if MatchAt(inp, n, p) != [] then Some(MatchAt(inp, n, p)[0].caps)
            else if sticky || p == |inp.units| then None
            else Find(inp, n, sticky, Next(inp, p, |inp.units|))
  {
    hide Match;
  }

  lemma NoneBetween(inp: Input, p: nat)
    requires Boundary(inp, p) && p < |inp.units|
    ensures forall i: nat :: Boundary(inp, i) && p <= i ==> i == p || Next(inp, p, |inp.units|) <= i
  {
  }

  // ----- groups -----------------------------------------------------------------------------

  /** A group captures what lies between where its body starts and ends. */
  lemma GroupSpans(inp: Input, b: Node, base: nat, back: bool, x: St, i: nat)
    requires ValidSt(inp, x) && base + Groups(Group(b)) <= |x.caps|
    ensures var body, r := Match(inp, b, base + 1, back, x), Match(inp, Group(b), base, back, x);
            && |r| == |body|
            && (i < |r| ==>
                  && var y, z := body[i], r[i];
                  && z.pos == y.pos && |z.caps| == |x.caps| && base < |z.caps|
                  && z.caps[base] == Some(if y.pos < x.pos then Span(y.pos, x.pos) else Span(x.pos, y.pos))
                  && forall g :: 0 <= g < |x.caps| && g != base ==> g < |y.caps| && z.caps[g] == y.caps[g])
  {
    GroupOutcomes(inp, Group(b), base, back, x);
    hide Match;
    ClosedAt(inp, base, back, x, Match(inp, b, base + 1, back, x), i);
  }

  lemma {:induction false} ClosedAt(inp: Input, g: nat, back: bool, x: St, ys: seq<St>, i: nat)
    requires ValidSt(inp, x) && g < |x.caps| && AllFollow(inp, back, x, ys)
    ensures var r := CloseEach(inp, g, back, x, ys);
            i < |r| ==> Follows(inp, back, x, ys[i])
                        && r[i] == ys[i].(caps := ys[i].caps[g := Some(SpanOf(back, x.pos, ys[i].pos))])
    decreases |ys|
  {
    if ys != [] && i > 0 {
      assert forall k :: 0 <= k < |ys[1..]| ==> ys[1..][k] == ys[k + 1];
      ClosedAt(inp, g, back, x, ys[1..], i - 1);
    }
  }

  // ----- a quantifier over a character test ---------------------------------------------------

  /** The positions from `p` on, as long as one accepted character follows another. */
  ghost predicate IsRun(inp: Input, b: Node, back: bool, p: nat, run: seq<nat>) {
    && run != [] && run[0] == p && (forall i :: 0 <= i < |run| ==> run[i] <= |inp.units|)
    && (forall i :: 0 <= i < |run| - 1 ==> StepChar(inp, b, back, run[i]) == Some(run[i + 1]))
    && StepChar(inp, b, back, run[|run| - 1]) == None
  }

  lemma {:induction false} RunExists(inp: Input, b: Node, back: bool, p: nat) returns (run: seq<nat>)
    requires p <= |inp.units|
    ensures IsRun(inp, b, back, p, run)
    decreases Room(inp, back, p)
  {
    hide StepChar;
    var q := StepChar(inp, b, back, p);
    run := [p];
    if q.Some? {
      var rest := RunExists(inp, b, back, q.value);
      run := run + rest;
    }
  }

  /** The largest number of passes. */
  function MostPasses(max: Bound, available: nat): nat {
    if max.Finite? && max.n < available then max.n else available
  }

  /** Greedy: from the longest run that is allowed down to the shortest; lazy: the
      other way round. */
  lemma {:induction false} QuantOfTest(inp: Input, b: Node, min: nat, max: Bound, greedy: bool, base: nat, back: bool,
                                       x: St, run: seq<nat>, i: nat)
    requires ValidSt(inp, x) && base <= |x.caps| && IsCharTest(b) && (max.Finite? ==> min <= max.n)
    requires IsRun(inp, b, back, x.pos, run)
    ensures Groups(b) == 0
    ensures var r, most := Match(inp, Quant(b, min, max, greedy), base, back, x), MostPasses(max, |run| - 1);
            && |r| == (if most < min then 0 else most - min + 1)
            && (i < |r| ==> r[i] == x.(pos := run[if greedy then most - i else min + i]))
  {
    NoGroupsInTest(b);
    QuantSame(inp, Quant(b, min, max, greedy), base, back, x);
    RepeatTest(inp, b, min, max, greedy, base, back, x, run);
    hide Match, Repeat, IsRun;
  }

  lemma NoGroupsInTest(b: Node)
    requires IsCharTest(b)
    ensures Groups(b) == 0 && forall min, max, greedy :: Groups(Quant(b, min, max, greedy)) == 0
  {
  }

  /** One pass through the test. */
  lemma TestOutcomes(inp: Input, b: Node, base: nat, back: bool, x: St, run: seq<nat>)
    requires ValidSt(inp, x) && base <= |x.caps| && IsCharTest(b) && IsRun(inp, b, back, x.pos, run)
    ensures Groups(b) == 0
    ensures Match(inp, b, base, back, Reset(x, base, 0)) == if |run| > 1 then [x.(pos := run[1])] else []
    ensures |run| > 1 ==> run[1] != x.pos && IsRun(inp, b, back, run[1], run[1..])
  {
    assert Reset(x, base, 0).caps == x.caps;
    assert |run| > 1 ==> StepChar(inp, b, back, run[0]) == Some(run[1]);
    hide StepChar;
  }

  /** The positions run[min], ..., run[most], or the other way round. */
  ghost predicate Ranked(r: seq<St>, x: St, run: seq<nat>, min: nat, most: nat, greedy: bool)
    requires most < |run|
  {
    && |r| == (if most < min then 0 else most - min + 1)
    && forall i :: 0 <= i < |r| ==> r[i] == x.(pos := run[if greedy then most - i else min + i])
  }

  /** One pass, and then what the rest of the run allows. */
  lemma OnePassMore(r: seq<St>, x: St, run: seq<nat>, min: nat, most: nat, greedy: bool)
    requires 0 < most < |run| && run[0] == x.pos
    requires Ranked(r, x.(pos := run[1]), run[1..], NextMin(min), most - 1, greedy)
    ensures Ranked(if min > 0 then r else if greedy then r + [x] else [x] + r, x, run, min, most, greedy)
  {
  }

  lemma RepeatStep(inp: Input, b: Node, min: nat, max: Bound, greedy: bool, base: nat, back: bool, x: St,
                   run: seq<nat>)
    requires ValidSt(inp, x) && base <= |x.caps| && IsCharTest(b) && IsRun(inp, b, back, x.pos, run)
    ensures Groups(b) == 0 && (|run| > 1 ==> ValidSt(inp, x.(pos := run[1])))
    ensures var r := if |run| > 1 then Repeat(inp, b, NextMin(min), Less(max), greedy, base, back, x.(pos := run[1]))
                     else [];
            Repeat(inp, b, min, max, greedy, base, back, x)
            == if max == Finite(0) then [x] else if min > 0 then r else if greedy then r + [x] else [x] + r
  {
    TestOutcomes(inp, b, base, back, x, run);
    hide Match, Repeat, RepeatEach, IsRun, IsCharTest;
    var ys := RepeatIs(inp, b, min, max, greedy, base, back, x);
    NoPasses(inp, b, min, max, greedy, base, back, x);
    if |run| > 1 {
      FirstPass(inp, b, min, max, greedy, base, back, x, ys);
      assert ys[1..] == [];
      var r := Repeat(inp, b, NextMin(min), Less(max), greedy, base, back, x.(pos := run[1]));
      assert r + [] == r;
    }
  }

  lemma {:induction false} RepeatTest(inp: Input, b: Node, min: nat, max: Bound, greedy: bool, base: nat, back: bool,
                                      x: St, run: seq<nat>)
    requires ValidSt(inp, x) && base <= |x.caps| && IsCharTest(b) && Groups(b) == 0
    requires (max.Finite? ==> min <= max.n) && IsRun(inp, b, back, x.pos, run)
    ensures Ranked(Repeat(inp, b, min, max, greedy, base, back, x), x, run, min, MostPasses(max, |run| - 1), greedy)
    decreases |run|
  {
    hide Match, Repeat, RepeatEach, Ranked, IsCharTest, ValidSt, StepChar;
    RepeatStep(inp, b, min, max, greedy, base, back, x, run);
    if max == Finite(0) || |run| == 1 {
      NoPass(x, run, min, greedy);
      assert [] + [x] == [x] && [x] + [] == [x];
    } else {
      TestOutcomes(inp, b, base, back, x, run);
      var y := x.(pos := run[1]);
      RepeatTest(inp, b, NextMin(min), Less(max), greedy, base, back, y, run[1..]);
      OnePassMore(Repeat(inp, b, NextMin(min), Less(max), greedy, base, back, y), x, run, min,
                  MostPasses(max, |run| - 1), greedy);
    }
  }

  lemma NoPass(x: St, run: seq<nat>, min: nat, greedy: bool)
    requires run != [] && run[0] == x.pos
    ensures Ranked(if min == 0 then [x] else [], x, run, min, 0, greedy)
  {
  }

  // ----- what a loop keeps --------------------------------------------------------------------

  /** `y` is an outcome of `b` from a state in which the groups of `b` are undefined. */
  ghost predicate FromCleared(inp: Input, b: Node, base: nat, back: bool, x: St, y: St)
    requires base + Groups(b) <= |x.caps|
  {
    exists z: St :: ValidSt(inp, z) && |z.caps| == |x.caps| && y in Match(inp, b, base, back, z)
                    && forall g :: base <= g < base + Groups(b) ==> z.caps[g] == None
  }

  /** Every pass starts with the groups of the atom undefined, so that only those of
      the last pass remain. */
  lemma LastPass(inp: Input, b: Node, min: nat, max: Bound, greedy: bool, base: nat, back: bool, x: St, y: St)
    requires ValidSt(inp, x) && base + Groups(b) <= |x.caps| && Groups(Quant(b, min, max, greedy)) == Groups(b)
    requires y in Match(inp, Quant(b, min, max, greedy), base, back, x)
    ensures y == x || FromCleared(inp, b, base, back, x, y)
  {
    QuantSame(inp, Quant(b, min, max, greedy), base, back, x);
    hide Match, Repeat;
    LastOfRepeat(inp, b, min, max, greedy, base, back, x, y);
  }

  lemma {:induction false} LastOfRepeat(inp: Input, b: Node, min: nat, max: Bound, greedy: bool, base: nat, back: bool,
                                        x: St, y: St)
    requires ValidSt(inp, x) && base + Groups(b) <= |x.caps|
    requires y in Repeat(inp, b, min, max, greedy, base, back, x)
    ensures y == x || FromCleared(inp, b, base, back, x, y)
    decreases min, Room(inp, back, x.pos), 1, 0
  {
    hide Match, Repeat, RepeatEach, FromCleared;
    var ys := RepeatIs(inp, b, min, max, greedy, base, back, x);
    if y != x {
      AllCleared(inp, b, base, back, x, ys);
      LastOfEach(inp, b, min, max, greedy, base, back, x, ys, y);
    }
  }

  lemma AllCleared(inp: Input, b: Node, base: nat, back: bool, x: St, ys: seq<St>)
    requires ValidSt(inp, x) && base + Groups(b) <= |x.caps|
    requires ValidSt(inp, Reset(x, base, Groups(b))) && ys == Match(inp, b, base, back, Reset(x, base, Groups(b)))
    ensures forall i :: 0 <= i < |ys| ==> FromCleared(inp, b, base, back, x, ys[i])
  {
    hide Match;
    var z := Reset(x, base, Groups(b));
    assert forall g :: base <= g < base + Groups(b) ==> z.caps[g] == None;
  }

  lemma {:induction false} LastOfEach(inp: Input, b: Node, min: nat, max: Bound, greedy: bool, base: nat, back: bool,
                                      x: St, ys: seq<St>, y: St)
    requires ValidSt(inp, x) && base + Groups(b) <= |x.caps| && AllFollow(inp, back, x, ys)
    requires forall i :: 0 <= i < |ys| ==> FromCleared(inp, b, base, back, x, ys[i])
    requires y in RepeatEach(inp, b, min, max, greedy, base, back, x, ys)
    ensures FromCleared(inp, b, base, back, x, y)
    decreases min, Room(inp, back, x.pos), 0, |ys|
  {
    hide Match, Repeat, RepeatEach, FromCleared;
    if ys == [] {
      NoPasses(inp, b, min, max, greedy, base, back, x);
    } else {
      FirstPass(inp, b, min, max, greedy, base, back, x, ys);
      if y in RepeatEach(inp, b, min, max, greedy, base, back, x, ys[1..]) {
        LastOfEach(inp, b, min, max, greedy, base, back, x, ys[1..], y);
      } else {
        LastOfRepeat(inp, b, NextMin(min), Less(max), greedy, base, back, ys[0], y);
        SameLength(inp, b, base, back, x, ys[0], y);
      }
    }
  }

  lemma SameLength(inp: Input, b: Node, base: nat, back: bool, x: St, x1: St, y: St)
    requires |x.caps| == |x1.caps| && base + Groups(b) <= |x.caps|
    ensures FromCleared(inp, b, base, back, x1, y) ==> FromCleared(inp, b, base, back, x, y)
  {
    hide Match, ValidSt;
  }
}
