/** Patterns and what they mean.

    The meaning follows section 22.2.2 of ECMA-262 (Pattern Semantics).  The
    standard writes a matcher as a function of a state and a continuation that
    is tried on one outcome after the other until it succeeds; here a matcher
    returns the outcomes themselves, in the order in which the standard would
    try them.  The first outcome is the match. */
module RegexpSemantics {
  import opened RegexpInput

  datatype Option<+T> = None | Some(value: T)

  datatype Span = Span(start: nat, end: nat)

  datatype Bound = Finite(n: nat) | Infinite

  datatype AssertKind =
    | LineStart(multiline: bool)
    | LineEnd(multiline: bool)
    | WordBoundary(positive: bool)

  /** `Class` holds half-open intervals [lo, hi), as CharRange does. A
      non-capturing group is its body. A back reference lists the groups that
      share its name. */
  datatype Node =
    | Empty
    | Char(c: nat)
    | Any
    | Dot
    | Class(intervals: seq<(nat, nat)>)
    | Assert(kind: AssertKind)
    | Cat(first: Node, second: Node)
    | Alt(left: Node, right: Node)
    | Group(body: Node)
    | BackRef(groups: seq<nat>)
    | Look(behind: bool, negative: bool, body: Node)
    | Quant(body: Node, min: nat, max: Bound, greedy: bool)

  /** The number of capture groups opened inside a node. */
  function Groups(n: Node): nat {
    match n
    case Cat(a, b) => Groups(a) + Groups(b)
    case Alt(a, b) => Groups(a) + Groups(b)
    case Group(b) => 1 + Groups(b)
    case Look(_, _, b) => Groups(b)
    case Quant(b, _, _, _) => Groups(b)
    case _ => 0
  }

  type Caps = seq<Option<Span>>

  datatype St = St(pos: nat, caps: Caps)

  predicate ValidSpan(inp: Input, s: Option<Span>) {
    s.Some? ==> s.value.start <= s.value.end <= |inp.units|
  }

  ghost predicate ValidSt(inp: Input, x: St) {
    x.pos <= |inp.units| && forall i :: 0 <= i < |x.caps| ==> ValidSpan(inp, x.caps[i])
  }

  /** `y` may follow `x` in the direction of matching. */
  predicate Ordered(back: bool, x: nat, y: nat) {
    if back then y <= x else x <= y
  }

  ghost predicate Follows(inp: Input, back: bool, x: St, y: St) {
    ValidSt(inp, y) && |y.caps| == |x.caps| && Ordered(back, x.pos, y.pos)
  }

  ghost predicate AllFollow(inp: Input, back: bool, x: St, ys: seq<St>) {
    forall i :: 0 <= i < |ys| ==> Follows(inp, back, x, ys[i])
  }

  /** How far matching can still move. */
  function Room(inp: Input, back: bool, p: nat): nat
    requires p <= |inp.units|
  {
    if back then p else |inp.units| - p
  }

  predicate IsLineTerminator(c: nat) {
    c == 0x0A || c == 0x0D || c == 0x2028 || c == 0x2029
  }

  predicate IsWordChar(c: nat) {
    0x30 <= c <= 0x39 || 0x41 <= c <= 0x5A || c == 0x5F || 0x61 <= c <= 0x7A
  }

  predicate WordBefore(inp: Input, p: nat)
    requires p <= |inp.units|
  {
    0 < p && IsWordChar(CharAt(inp, Prev(inp, p, 0), p))
  }

  predicate WordAfter(inp: Input, p: nat)
    requires p <= |inp.units|
  {
    p < |inp.units| && IsWordChar(CharAt(inp, p, |inp.units|))
  }

  predicate Holds(inp: Input, kind: AssertKind, p: nat)
    requires p <= |inp.units|
  {
    match kind
    case LineStart(m) => p == 0 || (m && IsLineTerminator(CharAt(inp, Prev(inp, p, 0), p)))
    case LineEnd(m) => p == |inp.units| || (m && IsLineTerminator(CharAt(inp, p, |inp.units|)))
    case WordBoundary(positive) => (WordBefore(inp, p) != WordAfter(inp, p)) == positive
  }

  predicate InClass(intervals: seq<(nat, nat)>, c: nat) {
    exists i :: 0 <= i < |intervals| && intervals[i].0 <= c < intervals[i].1
  }

  /** The tests that consume one character. */
  predicate Accepts(n: Node, c: nat) {
    match n
    case Char(d) => c == d
    case Any => true
    case Dot => !IsLineTerminator(c)
    case Class(intervals) => InClass(intervals, c)
    case _ => false
  }

  predicate IsCharTest(n: Node) {
    n.Char? || n.Any? || n.Dot? || n.Class?
  }

  /** CharacterSetMatcher: the position after one accepted character. */
  function StepChar(inp: Input, n: Node, back: bool, p: nat): (r: Option<nat>)
    requires p <= |inp.units|
    ensures r.Some? ==> r.value <= |inp.units| && Ordered(back, p, r.value) && r.value != p
  {
    if back then
      if p == 0 then None
      else
        var q := Prev(inp, p, 0);
        if Accepts(n, CharAt(inp, q, |inp.units|)) then Some(q) else None
    else
      if p == |inp.units| then None
      else if Accepts(n, CharAt(inp, p, |inp.units|)) then Some(Next(inp, p, |inp.units|)) else None
  }

  /** The first group of the list that took part in the match. */
  function FirstDefined(caps: Caps, groups: seq<nat>): (r: Option<Span>)
    ensures r.Some? ==> r in caps
  {
    if groups == [] then None
    else if groups[0] < |caps| && caps[groups[0]].Some? then caps[groups[0]]
    else FirstDefined(caps, groups[1..])
  }

  /** Compare the text [lo, hi) with the text that starts (or, backward, ends)
      at p, one character at a time; the far end on success. */
  function RefEnd(inp: Input, lo: nat, hi: nat, back: bool, p: nat): (r: Option<nat>)
    requires lo <= hi <= |inp.units| && p <= |inp.units|
    ensures r.Some? ==> r.value <= |inp.units| && Ordered(back, p, r.value)
    decreases hi - lo
  {
    if lo == hi then Some(p)
    else if back then
      if p == 0 then None
      else
        var hi1, p1 := Prev(inp, hi, lo), Prev(inp, p, 0);
        if CharAt(inp, hi1, hi) == CharAt(inp, p1, p) then RefEnd(inp, lo, hi1, back, p1) else None
    else
      if p == |inp.units| then None
      else if CharAt(inp, lo, hi) == CharAt(inp, p, |inp.units|)
      then RefEnd(inp, Next(inp, lo, hi), hi, back, Next(inp, p, |inp.units|)) else None
  }

  function ResetCaps(caps: Caps, lo: nat, count: nat): (r: Caps)
    ensures |r| == |caps|
    ensures forall i :: 0 <= i < |caps| ==> r[i] == if lo <= i < lo + count then None else caps[i]
  {
    seq(|caps|, i requires 0 <= i < |caps| => if lo <= i < lo + count then None else caps[i])
  }

  function Reset(x: St, lo: nat, count: nat): St {
    x.(caps := ResetCaps(x.caps, lo, count))
  }

  function Less(max: Bound): Bound {
    match max
    case Finite(n) => if n == 0 then max else Finite(n - 1)
    case Infinite => Infinite
  }

  /** All outcomes of matching `n` at `x`, in order of preference. `base` is the
      index of the first group opened inside `n`. */
  function Match(inp: Input, n: Node, base: nat, back: bool, x: St): (r: seq<St>)
    requires ValidSt(inp, x) && base + Groups(n) <= |x.caps|
    ensures AllFollow(inp, back, x, r)
    decreases n, 0, 0, 0, 0
  {
    match n
    case Empty => [x]
    case Char(_) => MatchChar(inp, n, back, x)
    case Any => MatchChar(inp, n, back, x)
    case Dot => MatchChar(inp, n, back, x)
    case Class(_) => MatchChar(inp, n, back, x)
    case Assert(kind) => if Holds(inp, kind, x.pos) then [x] else []
    case Cat(a, b) =>
      if back then MatchEach(inp, a, base, back, x, Match(inp, b, base + Groups(a), back, x))
      else MatchEach(inp, b, base + Groups(a), back, x, Match(inp, a, base, back, x))
    case Alt(a, b) => Match(inp, a, base, back, x) + Match(inp, b, base + Groups(a), back, x)
    case Group(b) => CloseEach(inp, base, back, x, Match(inp, b, base + 1, back, x))
    case BackRef(groups) => MatchRef(inp, groups, back, x)
    case Look(behind, negative, b) =>
      var ys := Match(inp, b, base, behind, x);
      if negative then (if ys == [] then [x] else [])
      else if ys == [] then [] else [x.(caps := ys[0].caps)]
    case Quant(b, min, max, greedy) => Repeat(inp, b, min, max, greedy, base, back, x)
  }

  function MatchChar(inp: Input, n: Node, back: bool, x: St): (r: seq<St>)
    requires ValidSt(inp, x)
    ensures AllFollow(inp, back, x, r)
  {
    var q := StepChar(inp, n, back, x.pos);
    if q.Some? then [x.(pos := q.value)] else []
  }

  function MatchRef(inp: Input, groups: seq<nat>, back: bool, x: St): (r: seq<St>)
    requires ValidSt(inp, x)
    ensures AllFollow(inp, back, x, r)
  {
    var s := FirstDefined(x.caps, groups);
    if s.None? then [x]
    else
      var q := RefEnd(inp, s.value.start, s.value.end, back, x.pos);
      if q.Some? then [x.(pos := q.value)] else []
  }

  /** Run `n` from every state of `ys` in turn. */
  function MatchEach(inp: Input, n: Node, base: nat, back: bool, x: St, ys: seq<St>): (r: seq<St>)
    requires ValidSt(inp, x) && base + Groups(n) <= |x.caps|
    requires AllFollow(inp, back, x, ys)
    ensures AllFollow(inp, back, x, r)
    decreases n, 1, 0, 0, |ys|
  {
    if ys == [] then []
    else
      assert Follows(inp, back, x, ys[0]);
      Match(inp, n, base, back, ys[0]) + MatchEach(inp, n, base, back, x, ys[1..])
  }

  function SpanOf(back: bool, entry: nat, exit: nat): Span {
    if back then Span(exit, entry) else Span(entry, exit)
  }

  /** Record group `g` in every outcome of its body. */
  function CloseEach(inp: Input, g: nat, back: bool, x: St, ys: seq<St>): (r: seq<St>)
    requires ValidSt(inp, x) && g < |x.caps|
    requires AllFollow(inp, back, x, ys)
    ensures |r| == |ys|
    ensures AllFollow(inp, back, x, r)
  {
    if ys == [] then []
    else
      var y := ys[0];
      assert Follows(inp, back, x, y);
      [y.(caps := y.caps[g := Some(SpanOf(back, x.pos, y.pos))])] + CloseEach(inp, g, back, x, ys[1..])
  }

  /** RepeatMatcher. */
  function Repeat(inp: Input, b: Node, min: nat, max: Bound, greedy: bool, base: nat, back: bool, x: St): (r: seq<St>)
    requires ValidSt(inp, x) && base + Groups(b) <= |x.caps|
    ensures AllFollow(inp, back, x, r)
    decreases b, 1, min, Room(inp, back, x.pos), 1
  {
    if max == Finite(0) then [x]
    else
      var again := Iterate(inp, b, min, max, greedy, base, back, x);
      if min != 0 then again
      else if greedy then again + [x]
      else [x] + again
  }

  /** One more pass through the atom, and then whatever `Repeat` does. */
  function Iterate(inp: Input, b: Node, min: nat, max: Bound, greedy: bool, base: nat, back: bool, x: St): (r: seq<St>)
    requires ValidSt(inp, x) && base + Groups(b) <= |x.caps|
    ensures AllFollow(inp, back, x, r)
    decreases b, 1, min, Room(inp, back, x.pos), 0, 1
  {
    RepeatEach(inp, b, min, max, greedy, base, back, x,
               Match(inp, b, base, back, Reset(x, base, Groups(b))))
  }

  /** The continuation of one pass: an outcome that did not move fails once
      `min` is used up. */
  function RepeatEach(inp: Input, b: Node, min: nat, max: Bound, greedy: bool, base: nat, back: bool, x: St,
                      ys: seq<St>): (r: seq<St>)
    requires ValidSt(inp, x) && base + Groups(b) <= |x.caps|
    requires AllFollow(inp, back, x, ys)
    ensures AllFollow(inp, back, x, r)
    decreases b, 1, min, Room(inp, back, x.pos), 0, 0, |ys|
  {
    if ys == [] then []
    else
      var y := ys[0];
      assert Follows(inp, back, x, y);
      (if min == 0 && y.pos == x.pos then []
       else Repeat(inp, b, if min == 0 then 0 else min - 1, Less(max), greedy, base, back, y))
      + RepeatEach(inp, b, min, max, greedy, base, back, x, ys[1..])
  }
}
