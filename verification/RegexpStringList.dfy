/** Classes that contain strings: the members of a list are tried longest first,
    then the single characters, then the empty string. */
module RegexpStringList {
  import opened RegexpInput
  import opened RegexpSemantics
  import opened RegexpFacts
  import opened RegexpClass

  type Text = seq<nat>

  /** re_string_cmp_len: the longer string comes first. */
  function CompareLengths(s: Text, t: Text): int {
    (if |s| < |t| then 1 else 0) - (if |s| > |t| then 1 else 0)
  }

  predicate LongestFirst(ss: seq<Text>) {
    forall i, j :: 0 <= i < j < |ss| ==> |ss[i]| >= |ss[j]|
  }

  function NonEmpty(ss: seq<Text>): seq<Text> {
    if ss == [] then []
    else
      var last := ss[|ss| - 1];
      NonEmpty(ss[..|ss| - 1]) + if last == [] then [] else [last]
  }

  /** The order in which the strings of a list are tried. */
  ghost predicate Arranged(strings: seq<Text>, sorted: seq<Text>) {
    multiset(sorted) == multiset(NonEmpty(strings)) && LongestFirst(sorted)
  }

  // ----- the pattern that a list stands for -----------------------------------

  function TextNode(s: Text): Node {
    if s == [] then Empty else Cat(TextNode(s[..|s| - 1]), Char(s[|s| - 1]))
  }

  function Choice(ss: seq<Text>, tail: Node): Node {
    if ss == [] then tail else Alt(TextNode(ss[0]), Choice(ss[1..], tail))
  }

  /** What follows the strings; after the characters nothing has to be jumped
      over to accept the empty string. */
  function Rest(hasEmpty: bool, cr: Intervals): Node {
    if cr == [] then Empty
    else if hasEmpty then Quant(Class(cr), 0, Finite(1), true)
    else Class(cr)
  }

  /** Nothing follows the last string, so it needs neither fork nor jump. */
  predicate Closed(sorted: seq<Text>, hasEmpty: bool, cr: Intervals) {
    sorted != [] && !hasEmpty && cr == []
  }

  function Forked(sorted: seq<Text>, hasEmpty: bool, cr: Intervals): seq<Text> {
    if Closed(sorted, hasEmpty, cr) then sorted[..|sorted| - 1] else sorted
  }

  function Tail(sorted: seq<Text>, hasEmpty: bool, cr: Intervals): Node {
    if Closed(sorted, hasEmpty, cr) then TextNode(sorted[|sorted| - 1])
    else if sorted == [] && !hasEmpty then Class(cr)
    else Rest(hasEmpty, cr)
  }

  function ListNode(sorted: seq<Text>, hasEmpty: bool, cr: Intervals): Node {
    Choice(Forked(sorted, hasEmpty, cr), Tail(sorted, hasEmpty, cr))
  }

  // ----- what it matches --------------------------------------------------------

  /** Where the text ends if it is read forward from `p`. */
  function TextEnd(inp: Input, s: Text, p: nat): (r: Option<nat>)
    requires p <= |inp.units|
    ensures r.Some? ==> p <= r.value <= |inp.units|
  {
    if s == [] then Some(p)
    else
      var q := TextEnd(inp, s[..|s| - 1], p);
      if q.None? then None else StepChar(inp, Char(s[|s| - 1]), false, q.value)
  }

  function Outcome(x: St, q: Option<nat>): seq<St> {
    if q.Some? then [x.(pos := q.value)] else []
  }

  function Hits(inp: Input, ss: seq<Text>, x: St): seq<St>
    requires x.pos <= |inp.units|
  {
    if ss == [] then [] else Outcome(x, TextEnd(inp, ss[0], x.pos)) + Hits(inp, ss[1..], x)
  }

  lemma EachOne(inp: Input, n: Node, base: nat, x: St, y: St)
    requires ValidSt(inp, x) && base + Groups(n) <= |x.caps| && Follows(inp, false, x, y)
    ensures MatchEach(inp, n, base, false, x, [y]) == Match(inp, n, base, false, y)
    ensures MatchEach(inp, n, base, false, x, []) == []
  {
    assert [y][1..] == [];
  }

  lemma {:induction false} TextGroups(s: Text)
    ensures Groups(TextNode(s)) == 0
  {
    if s != [] {
      TextGroups(s[..|s| - 1]);
    }
  }

  lemma {:induction false} ChoiceGroups(ss: seq<Text>, tail: Node)
    ensures Groups(Choice(ss, tail)) == Groups(tail)
  {
    if ss != [] {
      TextGroups(ss[0]);
      ChoiceGroups(ss[1..], tail);
    }
  }

  lemma {:induction false} TextMatch(inp: Input, s: Text, base: nat, x: St)
    requires ValidSt(inp, x) && base <= |x.caps| && Groups(TextNode(s)) == 0
    ensures Match(inp, TextNode(s), base, false, x) == Outcome(x, TextEnd(inp, s, x.pos))
  {
    if s != [] {
      var init, last := s[..|s| - 1], Char(s[|s| - 1]);
      TextGroups(init);
      TextMatch(inp, init, base, x);
      var q := TextEnd(inp, init, x.pos);
      var y := if q.Some? then x.(pos := q.value) else x;
      EachOne(inp, last, base, x, y);
    }
  }

  lemma {:induction false} ChoiceMatch(inp: Input, ss: seq<Text>, tail: Node, base: nat, x: St)
    requires ValidSt(inp, x) && base <= |x.caps| && Groups(tail) == 0
    requires Groups(Choice(ss, tail)) == 0
    ensures Match(inp, Choice(ss, tail), base, false, x) == Hits(inp, ss, x) + Match(inp, tail, base, false, x)
  {
    hide Match, TextNode, TextEnd, ValidSt;
    if ss != [] {
      TextGroups(ss[0]);
      TextMatch(inp, ss[0], base, x);
      ChoiceGroups(ss[1..], tail);
      ChoiceMatch(inp, ss[1..], tail, base, x);
      AltOutcomes(inp, Choice(ss, tail), base, false, x);
    }
  }

  lemma OptionalMatch(inp: Input, cr: Intervals, base: nat, x: St)
    requires ValidSt(inp, x) && base <= |x.caps|
    ensures Match(inp, Quant(Class(cr), 0, Finite(1), true), base, false, x)
         == Outcome(x, StepChar(inp, Class(cr), false, x.pos)) + [x]
  {
    var q := StepChar(inp, Class(cr), false, x.pos);
    assert Reset(x, base, 0) == x;
    var ys := Outcome(x, q);
    assert Match(inp, Class(cr), base, false, x) == ys;
    if q.Some? {
      var y := ys[0];
      assert ys[1..] == [];
      assert Repeat(inp, Class(cr), 0, Finite(0), true, base, false, y) == [y];
      assert RepeatEach(inp, Class(cr), 0, Finite(1), true, base, false, x, []) == [];
    }
    assert RepeatEach(inp, Class(cr), 0, Finite(1), true, base, false, x, ys) == ys;
    assert Iterate(inp, Class(cr), 0, Finite(1), true, base, false, x) == ys;
    assert Repeat(inp, Class(cr), 0, Finite(1), true, base, false, x) == ys + [x];
  }

  lemma {:induction false} HitsAppend(inp: Input, ss: seq<Text>, t: Text, x: St)
    requires x.pos <= |inp.units|
    ensures Hits(inp, ss + [t], x) == Hits(inp, ss, x) + Outcome(x, TextEnd(inp, t, x.pos))
  {
    hide TextEnd, Outcome;
    if ss == [] {
      assert (ss + [t])[1..] == [];
    } else {
      assert (ss + [t])[1..] == ss[1..] + [t];
      HitsAppend(inp, ss[1..], t, x);
    }
  }

  /** A list matches its strings in the given order, then one character of the
      class, then nothing if it contains the empty string. */
  lemma ListMatch(inp: Input, sorted: seq<Text>, hasEmpty: bool, cr: Intervals, base: nat, x: St)
    requires ValidSt(inp, x) && base <= |x.caps|
    ensures Groups(ListNode(sorted, hasEmpty, cr)) == 0
    ensures Match(inp, ListNode(sorted, hasEmpty, cr), base, false, x)
         == Hits(inp, sorted, x) + Outcome(x, StepChar(inp, Class(cr), false, x.pos)) + if hasEmpty then [x] else []
  {
    hide Hits, Choice, TextEnd, TextNode, Match, Outcome, StepChar, Tail;
    var forked, tail := Forked(sorted, hasEmpty, cr), Tail(sorted, hasEmpty, cr);
    TailMatch(inp, sorted, hasEmpty, cr, base, x);
    ChoiceGroups(forked, tail);
    ChoiceMatch(inp, forked, tail, base, x);
    var front := if Closed(sorted, hasEmpty, cr) then Outcome(x, TextEnd(inp, sorted[|sorted| - 1], x.pos)) else [];
    AllHits(inp, sorted, hasEmpty, cr, x);
    assert Hits(inp, forked, x) + front == Hits(inp, sorted, x);
    Concatenated(Hits(inp, forked, x), front, Outcome(x, StepChar(inp, Class(cr), false, x.pos)),
                 if hasEmpty then [x] else []);
  }

  /** What the strings with a fork match, and then the last one if it has none. */
  lemma AllHits(inp: Input, sorted: seq<Text>, hasEmpty: bool, cr: Intervals, x: St)
    requires x.pos <= |inp.units|
    ensures var hits := Hits(inp, Forked(sorted, hasEmpty, cr), x);
            if Closed(sorted, hasEmpty, cr)
            then hits + Outcome(x, TextEnd(inp, sorted[|sorted| - 1], x.pos)) == Hits(inp, sorted, x)
            else hits == Hits(inp, sorted, x)
  {
    hide Hits, TextEnd, Outcome;
    if Closed(sorted, hasEmpty, cr) {
      LastHit(inp, sorted, x);
    }
  }

  lemma LastHit(inp: Input, ss: seq<Text>, x: St)
    requires x.pos <= |inp.units| && ss != []
    ensures Hits(inp, ss[..|ss| - 1], x) + Outcome(x, TextEnd(inp, ss[|ss| - 1], x.pos)) == Hits(inp, ss, x)
  {
    hide Hits, TextEnd, Outcome;
    assert ss == ss[..|ss| - 1] + [ss[|ss| - 1]];
    HitsAppend(inp, ss[..|ss| - 1], ss[|ss| - 1], x);
  }

  lemma Concatenated(a: seq<St>, b: seq<St>, c: seq<St>, d: seq<St>)
    ensures a + (b + c + d) == a + b + c + d
  {
  }

  lemma TailMatch(inp: Input, sorted: seq<Text>, hasEmpty: bool, cr: Intervals, base: nat, x: St)
    requires ValidSt(inp, x) && base <= |x.caps|
    ensures var tail := Tail(sorted, hasEmpty, cr);
            && Groups(tail) == 0
            && Match(inp, tail, base, false, x)
               == (if Closed(sorted, hasEmpty, cr) then Outcome(x, TextEnd(inp, sorted[|sorted| - 1], x.pos)) else [])
                  + Outcome(x, StepChar(inp, Class(cr), false, x.pos)) + if hasEmpty then [x] else []
  {
    if Closed(sorted, hasEmpty, cr) {
      TextGroups(sorted[|sorted| - 1]);
      TextMatch(inp, sorted[|sorted| - 1], base, x);
    } else if hasEmpty && cr != [] {
      OptionalMatch(inp, cr, base, x);
    }
  }

  // ----- longest first ----------------------------------------------------------

  /** How far a text reaches depends on its length alone. */
  lemma {:induction false} LongerReachesFurther(inp: Input, s: Text, t: Text, p: nat)
    requires p <= |inp.units| && |s| <= |t| && TextEnd(inp, s, p).Some? && TextEnd(inp, t, p).Some?
    ensures TextEnd(inp, s, p).value <= TextEnd(inp, t, p).value
    ensures |s| == |t| ==> TextEnd(inp, s, p) == TextEnd(inp, t, p)
    decreases |t|
  {
    if |s| < |t| {
      LongerReachesFurther(inp, s, t[..|t| - 1], p);
    } else if s != [] {
      LongerReachesFurther(inp, s[..|s| - 1], t[..|t| - 1], p);
    }
  }

  lemma OneCharacter(inp: Input, c: nat, p: nat)
    requires p < |inp.units|
    ensures TextEnd(inp, [c], p).Some? ==> TextEnd(inp, [c], p) == Some(Next(inp, p, |inp.units|))
  {
    assert [c][..0] == [];
    assert TextEnd(inp, [], p) == Some(p);
  }

  lemma {:induction false} ReadsFirst(inp: Input, t: Text, p: nat)
    requires p <= |inp.units| && t != [] && TextEnd(inp, t, p).Some?
    ensures p < |inp.units| && TextEnd(inp, t[..1], p).Some?
  {
    if |t| > 1 {
      ReadsFirst(inp, t[..|t| - 1], p);
      assert t[..|t| - 1][..1] == t[..1];
    } else {
      assert t[..1] == t && t[..0] == [];
      assert TextEnd(inp, [], p) == Some(p);
    }
  }

  /** No character ends after a string that starts at the same place. */
  lemma CharacterIsShort(inp: Input, t: Text, cr: Intervals, p: nat)
    requires p <= |inp.units| && t != [] && TextEnd(inp, t, p).Some?
    requires StepChar(inp, Class(cr), false, p).Some?
    ensures StepChar(inp, Class(cr), false, p).value <= TextEnd(inp, t, p).value
  {
    ReadsFirst(inp, t, p);
    assert t[..1] == [t[0]];
    OneCharacter(inp, t[0], p);
    LongerReachesFurther(inp, t[..1], t, p);
  }

  ghost predicate Descending(ys: seq<St>) {
    forall i, j :: 0 <= i < j < |ys| ==> ys[i].pos >= ys[j].pos
  }

  /** The outcomes are the strings that can be read here. */
  lemma {:induction false} HitsAre(inp: Input, ss: seq<Text>, x: St, y: St)
    requires x.pos <= |inp.units|
    ensures y in Hits(inp, ss, x) <==>
            exists s :: s in ss && TextEnd(inp, s, x.pos) == Some(y.pos) && y.caps == x.caps
  {
    if ss != [] {
      HitsAre(inp, ss[1..], x, y);
      assert ss == [ss[0]] + ss[1..];
      assert y in Outcome(x, TextEnd(inp, ss[0], x.pos)) <==>
             TextEnd(inp, ss[0], x.pos) == Some(y.pos) && y.caps == x.caps;
    }
  }

  lemma {:induction false} HitsDescend(inp: Input, ss: seq<Text>, x: St)
    requires x.pos <= |inp.units| && LongestFirst(ss)
    ensures Descending(Hits(inp, ss, x))
  {
    if ss != [] {
      HitsDescend(inp, ss[1..], x);
      var rest, q := Hits(inp, ss[1..], x), TextEnd(inp, ss[0], x.pos);
      if q.Some? {
        forall j | 0 <= j < |rest|
          ensures rest[j].pos <= q.value
        {
          HitsAre(inp, ss[1..], x, rest[j]);
          var s :| s in ss[1..] && TextEnd(inp, s, x.pos) == Some(rest[j].pos);
          LongerReachesFurther(inp, s, ss[0], x.pos);
        }
      }
    }
  }

  lemma {:induction false} NonEmptyMembers(ss: seq<Text>)
    ensures forall s :: s in NonEmpty(ss) <==> s in ss && s != []
  {
    if ss != [] {
      NonEmptyMembers(ss[..|ss| - 1]);
      assert ss == ss[..|ss| - 1] + [ss[|ss| - 1]];
    }
  }

  lemma SameMembers(a: seq<Text>, b: seq<Text>)
    requires multiset(a) == multiset(b)
    ensures forall s :: s in a <==> s in b
  {
    forall s
      ensures s in a <==> s in b
    {
      assert s in a <==> s in multiset(a);
    }
  }

  /** However the hash table orders the strings, a list matches exactly its
      members, and a longer member is always tried before a shorter one. */
  lemma ListMeans(inp: Input, strings: seq<Text>, sorted: seq<Text>, cr: Intervals, base: nat, x: St)
    requires ValidSt(inp, x) && base <= |x.caps| && Arranged(strings, sorted)
    ensures Groups(ListNode(sorted, [] in strings, cr)) == 0
    ensures var ys := Match(inp, ListNode(sorted, [] in strings, cr), base, false, x);
            && Descending(ys)
            && forall y: St :: y in ys <==>
                 y.caps == x.caps && (|| StepChar(inp, Class(cr), false, x.pos) == Some(y.pos)
                                      || exists s :: s in strings && TextEnd(inp, s, x.pos) == Some(y.pos))
  {
    hide Match, ListNode, TextEnd, Hits, StepChar;
    var hits, chars := Hits(inp, sorted, x), Outcome(x, StepChar(inp, Class(cr), false, x.pos));
    var empty := if [] in strings then [x] else [];
    ListMatch(inp, sorted, [] in strings, cr, base, x);
    NonEmptyMembers(strings);
    SameMembers(sorted, NonEmpty(strings));
    ListDescends(inp, sorted, [] in strings, cr, x);
    forall y: St
      ensures y in hits + chars + empty <==>
              y.caps == x.caps && (|| StepChar(inp, Class(cr), false, x.pos) == Some(y.pos)
                                   || exists s :: s in strings && TextEnd(inp, s, x.pos) == Some(y.pos))
    {
      HitsAre(inp, sorted, x, y);
      NothingRead(inp, x.pos);
      assert y in chars <==> StepChar(inp, Class(cr), false, x.pos) == Some(y.pos) && y.caps == x.caps;
      assert y in empty <==> [] in strings && y.pos == x.pos && y.caps == x.caps;
    }
  }

  lemma NothingRead(inp: Input, p: nat)
    requires p <= |inp.units|
    ensures TextEnd(inp, [], p) == Some(p)
  {
  }

  lemma ListDescends(inp: Input, sorted: seq<Text>, hasEmpty: bool, cr: Intervals, x: St)
    requires ValidSt(inp, x) && LongestFirst(sorted) && [] !in sorted
    ensures Descending(Hits(inp, sorted, x) + Outcome(x, StepChar(inp, Class(cr), false, x.pos))
                       + if hasEmpty then [x] else [])
  {
    hide TextEnd, Hits;
    var hits, q := Hits(inp, sorted, x), StepChar(inp, Class(cr), false, x.pos);
    HitsDescend(inp, sorted, x);
    forall i | 0 <= i < |hits|
      ensures hits[i].pos >= x.pos && (q.Some? ==> hits[i].pos >= q.value)
    {
      HitsAre(inp, sorted, x, hits[i]);
      var s :| s in sorted && TextEnd(inp, s, x.pos) == Some(hits[i].pos);
      if q.Some? {
        CharacterIsShort(inp, s, cr, x.pos);
      }
    }
  }

  // ----- the order among strings of the same length -------------------------------

  /** The hash table holds every string once. */
  ghost predicate Once(ss: seq<Text>) {
    forall s :: multiset(ss)[s] <= 1
  }

  lemma {:induction false} NonEmptyOnce(ss: seq<Text>)
    ensures forall s :: multiset(NonEmpty(ss))[s] <= multiset(ss)[s]
  {
    if ss != [] {
      var init, last := ss[..|ss| - 1], ss[|ss| - 1];
      NonEmptyOnce(init);
      assert ss == init + [last];
      assert multiset(ss) == multiset(init) + multiset{last};
    }
  }

  lemma NotTwice(ss: seq<Text>, i: nat, j: nat)
    requires Once(ss) && i < j < |ss|
    ensures ss[i] != ss[j]
  {
    var front, back := ss[..j], ss[j..];
    assert ss == front + back;
    assert multiset(ss)[ss[j]] == multiset(front)[ss[j]] + multiset(back)[ss[j]];
    assert back[0] == ss[j] && back[0] in multiset(back);
    assert front[i] == ss[i] && front[i] in multiset(front);
  }

  lemma LastRead(inp: Input, s: Text, p: nat)
    requires p <= |inp.units| && s != [] && TextEnd(inp, s, p).Some?
    ensures var q := TextEnd(inp, s[..|s| - 1], p);
            q.Some? && q.value < |inp.units| && s[|s| - 1] == CharAt(inp, q.value, |inp.units|)
  {
  }

  /** Texts of the same length that can both be read here are the same text. */
  lemma {:induction false} SameTextRead(inp: Input, s: Text, t: Text, p: nat)
    requires p <= |inp.units| && |s| == |t| && TextEnd(inp, s, p).Some? && TextEnd(inp, t, p).Some?
    ensures s == t
  {
    hide TextEnd;
    if s != [] {
      var s0, t0 := s[..|s| - 1], t[..|t| - 1];
      LastRead(inp, s, p);
      LastRead(inp, t, p);
      SameTextRead(inp, s0, t0, p);
      LongerReachesFurther(inp, s0, t0, p);
      assert s == s0 + [s[|s| - 1]] && t == t0 + [t[|t| - 1]];
    }
  }

  lemma LongerEndsLater(inp: Input, s: Text, t: Text, p: nat)
    requires p <= |inp.units| && |s| < |t| && TextEnd(inp, s, p).Some? && TextEnd(inp, t, p).Some?
    ensures TextEnd(inp, s, p).value < TextEnd(inp, t, p).value
  {
    LongerReachesFurther(inp, s, t[..|t| - 1], p);
  }

  ghost predicate StrictlyDescending(ys: seq<St>) {
    forall i, j :: 0 <= i < j < |ys| ==> ys[i].pos > ys[j].pos
  }

  lemma {:induction false} HitsStrict(inp: Input, ss: seq<Text>, x: St)
    requires x.pos <= |inp.units| && LongestFirst(ss) && forall i, j :: 0 <= i < j < |ss| ==> ss[i] != ss[j]
    ensures StrictlyDescending(Hits(inp, ss, x))
  {
    hide TextEnd;
    if ss != [] {
      HitsStrict(inp, ss[1..], x);
      var rest, q := Hits(inp, ss[1..], x), TextEnd(inp, ss[0], x.pos);
      if q.Some? {
        forall j | 0 <= j < |rest|
          ensures rest[j].pos < q.value
        {
          HitsAre(inp, ss[1..], x, rest[j]);
          var s :| s in ss[1..] && TextEnd(inp, s, x.pos) == Some(rest[j].pos);
          if |s| < |ss[0]| {
            LongerEndsLater(inp, s, ss[0], x.pos);
          } else {
            SameTextRead(inp, s, ss[0], x.pos);
          }
        }
      }
    }
  }

  lemma {:induction false} StrictUnique(ys: seq<St>, zs: seq<St>)
    requires StrictlyDescending(ys) && StrictlyDescending(zs) && forall y :: y in ys <==> y in zs
    ensures ys == zs
    decreases |ys|
  {
    if ys == [] {
      assert forall k :: 0 <= k < |zs| ==> zs[k] in zs;
    } else {
      assert ys[0] in ys && ys[0] in zs;
      assert zs[0] in zs && zs[0] in ys;
      var i :| 0 <= i < |ys| && ys[i] == zs[0];
      var j :| 0 <= j < |zs| && zs[j] == ys[0];
      assert ys[0] == zs[0];
      assert ys == [ys[0]] + ys[1..] && zs == [zs[0]] + zs[1..];
      forall y
        ensures y in ys[1..] <==> y in zs[1..]
      {
        assert y in ys[1..] ==> y in ys && y.pos < ys[0].pos;
        assert y in zs[1..] ==> y in zs && y.pos < zs[0].pos;
      }
      StrictUnique(ys[1..], zs[1..]);
    }
  }

  /** The order of the hash table, and the order that sorting leaves among strings
      of the same length, make no difference to what a list matches. */
  lemma OrderIrrelevant(inp: Input, strings: seq<Text>, sorted: seq<Text>, sorted1: seq<Text>, cr: Intervals, base: nat,
                        x: St)
    requires ValidSt(inp, x) && base <= |x.caps| && Once(strings)
    requires Arranged(strings, sorted) && Arranged(strings, sorted1)
    ensures Groups(ListNode(sorted, [] in strings, cr)) == Groups(ListNode(sorted1, [] in strings, cr)) == 0
    ensures Match(inp, ListNode(sorted, [] in strings, cr), base, false, x)
         == Match(inp, ListNode(sorted1, [] in strings, cr), base, false, x)
  {
    hide Match, ListNode, TextEnd, Hits, StepChar;
    ListMatch(inp, sorted, [] in strings, cr, base, x);
    ListMatch(inp, sorted1, [] in strings, cr, base, x);
    NonEmptyOnce(strings);
    SameMembers(sorted, sorted1);
    forall i: nat, j: nat | i < j < |sorted| ensures sorted[i] != sorted[j] { NotTwice(sorted, i, j); }
    forall i: nat, j: nat | i < j < |sorted1| ensures sorted1[i] != sorted1[j] { NotTwice(sorted1, i, j); }
    HitsStrict(inp, sorted, x);
    HitsStrict(inp, sorted1, x);
    forall y: St
      ensures y in Hits(inp, sorted, x) <==> y in Hits(inp, sorted1, x)
    {
      HitsAre(inp, sorted, x, y);
      HitsAre(inp, sorted1, x, y);
    }
    StrictUnique(Hits(inp, sorted, x), Hits(inp, sorted1, x));
  }

  // ----- one arrangement ------------------------------------------------------------

  function InsertByLength(s: Text, ss: seq<Text>): seq<Text> {
    if ss == [] || |s| >= |ss[0]| then [s] + ss else [ss[0]] + InsertByLength(s, ss[1..])
  }

  function SortByLength(ss: seq<Text>): seq<Text> {
    if ss == [] then [] else InsertByLength(ss[0], SortByLength(ss[1..]))
  }

  lemma LongerInFront(s: Text, ss: seq<Text>)
    requires LongestFirst(ss) && (ss != [] ==> |s| >= |ss[0]|)
    ensures LongestFirst([s] + ss)
  {
  }

  lemma {:induction false} InsertSorts(s: Text, ss: seq<Text>)
    requires LongestFirst(ss)
    ensures var r := InsertByLength(s, ss);
            LongestFirst(r) && r != [] && (r[0] == s || (ss != [] && r[0] == ss[0]))
  {
    if ss != [] && |s| < |ss[0]| {
      InsertSorts(s, ss[1..]);
      LongerInFront(ss[0], InsertByLength(s, ss[1..]));
    } else {
      LongerInFront(s, ss);
    }
  }

  lemma {:induction false} InsertKeeps(s: Text, ss: seq<Text>)
    ensures multiset(InsertByLength(s, ss)) == multiset{s} + multiset(ss)
  {
    if ss != [] && |s| < |ss[0]| {
      InsertKeeps(s, ss[1..]);
      assert ss == [ss[0]] + ss[1..];
    }
  }

  lemma {:induction false} SortSorts(ss: seq<Text>)
    ensures LongestFirst(SortByLength(ss)) && multiset(SortByLength(ss)) == multiset(ss)
  {
    if ss != [] {
      SortSorts(ss[1..]);
      InsertSorts(ss[0], SortByLength(ss[1..]));
      InsertKeeps(ss[0], SortByLength(ss[1..]));
      assert ss == [ss[0]] + ss[1..];
    }
  }

  /** The pattern a list stands for, whatever its order. */
  function StringsNode(strings: seq<Text>, cr: Intervals): Node {
    ListNode(SortByLength(NonEmpty(strings)), [] in strings, cr)
  }

  lemma SortArranged(strings: seq<Text>)
    ensures Arranged(strings, SortByLength(NonEmpty(strings)))
  {
    SortSorts(NonEmpty(strings));
  }
}
