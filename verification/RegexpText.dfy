/** What back references and assertions mean for the units of the subject. The
    pattern semantics reads characters one at a time, as the engine does; here the
    same is said of whole stretches of text. */
module RegexpText {
  import opened RegexpInput
  import opened RegexpSemantics

  /** From `p` to `q`, or backward from `p` down to `q`, stands the text [lo, hi). In
      UTF-16 mode it must not end between the halves of a pair. */
  predicate SameText(inp: Input, lo: nat, hi: nat, back: bool, p: nat, q: nat)
    requires lo <= hi <= |inp.units| && p <= |inp.units|
  {
    && Boundary(inp, q)
    && if back then q <= p && p - q == hi - lo && inp.units[q..p] == inp.units[lo..hi]
       else p <= q && q - p == hi - lo && inp.units[p..q] == inp.units[lo..hi]
  }

  /** Without UTF-16 mode every position is a boundary. */
  lemma AnyBoundary(inp: Input, p: nat)
    ensures !inp.utf16 ==> (Boundary(inp, p) <==> p <= |inp.units|)
  {
  }

  // ----- forward ------------------------------------------------------------------

  /** The same character on both sides takes the same units. */
  lemma SameCharForward(inp: Input, lo: nat, hi: nat, p: nat, q: nat)
    requires inp.Valid() && lo < hi <= |inp.units| && p < |inp.units|
    requires CharAt(inp, lo, hi) == CharAt(inp, p, |inp.units|)
    ensures var n := Next(inp, lo, hi) - lo;
            && Next(inp, p, |inp.units|) == p + n && inp.units[lo..lo + n] == inp.units[p..p + n]
            && (p + n <= q && q - p == hi - lo && q <= |inp.units| ==>
                  (inp.units[p..q] == inp.units[lo..hi] <==> inp.units[p + n..q] == inp.units[lo + n..hi]))
  {
    var n := Next(inp, lo, hi) - lo;
    var u := inp.units;
    assert u[lo..lo + n] == u[p..p + n];
    if p + n <= q && q - p == hi - lo && q <= |u| {
      SplitAhead(u, p, q, lo, hi, n);
    }
  }

  lemma SplitAhead(u: seq<nat>, p: nat, q: nat, lo: nat, hi: nat, n: nat)
    requires p + n <= q <= |u| && lo <= hi <= |u| && q - p == hi - lo && u[lo..lo + n] == u[p..p + n]
    ensures u[p..q] == u[lo..hi] <==> u[p + n..q] == u[lo + n..hi]
  {
    assert u[p..q] == u[p..p + n] + u[p + n..q] && u[lo..hi] == u[lo..lo + n] + u[lo + n..hi];
  }

  /** Different characters: the texts differ, or the subject goes on with the other
      half of a pair. */
  lemma OtherCharForward(inp: Input, lo: nat, hi: nat, p: nat, q: nat)
    requires inp.Valid() && lo < hi <= |inp.units| && p < |inp.units|
    requires CharAt(inp, lo, hi) != CharAt(inp, p, |inp.units|)
    ensures !SameText(inp, lo, hi, false, p, q)
  {
    if SameText(inp, lo, hi, false, p, q) {
      UnitsForward(inp, lo, hi, p, q);
    }
  }

  lemma UnitsForward(inp: Input, lo: nat, hi: nat, p: nat, q: nat)
    requires lo < hi <= |inp.units| && p < |inp.units| && SameText(inp, lo, hi, false, p, q)
    ensures CharAt(inp, lo, hi) == CharAt(inp, p, |inp.units|)
  {
    var u := inp.units;
    assert u[p] == u[p..q][0] == u[lo..hi][0] == u[lo];
    if lo + 1 < hi {
      assert u[p + 1] == u[p..q][1] == u[lo..hi][1] == u[lo + 1];
    }
  }

  /** A back reference matches forward exactly the text of its group. */
  lemma {:induction false} RefForward(inp: Input, lo: nat, hi: nat, p: nat, q: nat)
    requires inp.Valid() && lo <= hi <= |inp.units| && Boundary(inp, p)
    ensures RefEnd(inp, lo, hi, false, p) == Some(q) <==> SameText(inp, lo, hi, false, p, q)
    decreases hi - lo
  {
    if lo < hi && p < |inp.units| {
      hide RefEnd, CharAt, Next, Boundary;
      RefStepForward(inp, lo, hi, p);
      if CharAt(inp, lo, hi) == CharAt(inp, p, |inp.units|) {
        SameCharForward(inp, lo, hi, p, q);
        StepsKeepBoundaries(inp, p);
        RefForward(inp, Next(inp, lo, hi), hi, Next(inp, p, |inp.units|), q);
      } else {
        OtherCharForward(inp, lo, hi, p, q);
      }
    }
  }

  lemma RefStepForward(inp: Input, lo: nat, hi: nat, p: nat)
    requires lo < hi <= |inp.units| && p < |inp.units|
    ensures RefEnd(inp, lo, hi, false, p)
         == if CharAt(inp, lo, hi) != CharAt(inp, p, |inp.units|) then None
            else RefEnd(inp, Next(inp, lo, hi), hi, false, Next(inp, p, |inp.units|))
  {
  }

  // ----- backward -----------------------------------------------------------------

  lemma SameCharBackward(inp: Input, lo: nat, hi: nat, p: nat, q: nat)
    requires inp.Valid() && lo < hi <= |inp.units| && 0 < p <= |inp.units|
    requires CharAt(inp, Prev(inp, hi, lo), hi) == CharAt(inp, Prev(inp, p, 0), p)
    ensures var n := hi - Prev(inp, hi, lo);
            && Prev(inp, p, 0) == p - n && inp.units[hi - n..hi] == inp.units[p - n..p]
            && (q <= p - n && p - q == hi - lo ==>
                  (inp.units[q..p] == inp.units[lo..hi] <==> inp.units[q..p - n] == inp.units[lo..hi - n]))
  {
    var n := hi - Prev(inp, hi, lo);
    var u := inp.units;
    assert u[hi - n..hi] == u[p - n..p];
    if q <= p - n && p - q == hi - lo {
      SplitBehind(u, q, p, lo, hi, n);
    }
  }

  lemma SplitBehind(u: seq<nat>, q: nat, p: nat, lo: nat, hi: nat, n: nat)
    requires q + n <= p <= |u| && lo <= hi <= |u| && p - q == hi - lo && u[hi - n..hi] == u[p - n..p]
    ensures u[q..p] == u[lo..hi] <==> u[q..p - n] == u[lo..hi - n]
  {
    assert u[q..p] == u[q..p - n] + u[p - n..p] && u[lo..hi] == u[lo..hi - n] + u[hi - n..hi];
    SameBehind(u[q..p - n], u[lo..hi - n], u[p - n..p]);
  }

  lemma SameBehind(a: seq<nat>, b: seq<nat>, c: seq<nat>)
    requires |a| == |b|
    ensures a + c == b + c <==> a == b
  {
    assert (a + c)[..|a|] == a && (b + c)[..|b|] == b;
  }

  lemma UnitsBackward(inp: Input, lo: nat, hi: nat, p: nat, q: nat)
    requires lo < hi <= |inp.units| && 0 < p <= |inp.units| && SameText(inp, lo, hi, true, p, q)
    ensures CharAt(inp, Prev(inp, hi, lo), hi) == CharAt(inp, Prev(inp, p, 0), p)
  {
    var u, n := inp.units, hi - lo;
    assert u[p - 1] == u[q..p][n - 1] == u[lo..hi][n - 1] == u[hi - 1];
    if n > 1 {
      assert u[p - 2] == u[q..p][n - 2] == u[lo..hi][n - 2] == u[hi - 2];
    }
  }

  lemma OtherCharBackward(inp: Input, lo: nat, hi: nat, p: nat, q: nat)
    requires lo < hi <= |inp.units| && 0 < p <= |inp.units|
    requires CharAt(inp, Prev(inp, hi, lo), hi) != CharAt(inp, Prev(inp, p, 0), p)
    ensures !SameText(inp, lo, hi, true, p, q)
  {
    if SameText(inp, lo, hi, true, p, q) {
      UnitsBackward(inp, lo, hi, p, q);
    }
  }

  /** In a lookbehind it matches the text that ends at `p`. */
  lemma {:induction false} RefBackward(inp: Input, lo: nat, hi: nat, p: nat, q: nat)
    requires inp.Valid() && lo <= hi <= |inp.units| && Boundary(inp, p)
    ensures RefEnd(inp, lo, hi, true, p) == Some(q) <==> SameText(inp, lo, hi, true, p, q)
    decreases hi - lo
  {
    if lo < hi && p > 0 {
      hide RefEnd, CharAt, Prev, Boundary;
      RefStepBackward(inp, lo, hi, p);
      if CharAt(inp, Prev(inp, hi, lo), hi) == CharAt(inp, Prev(inp, p, 0), p) {
        SameCharBackward(inp, lo, hi, p, q);
        StepsKeepBoundaries(inp, p);
        RefBackward(inp, lo, Prev(inp, hi, lo), Prev(inp, p, 0), q);
      } else {
        OtherCharBackward(inp, lo, hi, p, q);
      }
    }
  }

  lemma RefStepBackward(inp: Input, lo: nat, hi: nat, p: nat)
    requires lo < hi <= |inp.units| && 0 < p <= |inp.units|
    ensures var hi1, p1 := Prev(inp, hi, lo), Prev(inp, p, 0);
            RefEnd(inp, lo, hi, true, p)
            == if CharAt(inp, hi1, hi) != CharAt(inp, p1, p) then None else RefEnd(inp, lo, hi1, true, p1)
  {
  }

  // ----- outcomes -----------------------------------------------------------------

  predicate TookPart(caps: Caps, g: nat) {
    g < |caps| && caps[g].Some?
  }

  /** The i-th group is the first of the list that took part in the match. */
  predicate FirstPart(caps: Caps, groups: seq<nat>, i: nat) {
    i < |groups| && TookPart(caps, groups[i]) && forall j :: 0 <= j < i ==> !TookPart(caps, groups[j])
  }

  lemma {:induction false} FirstDefinedIs(caps: Caps, groups: seq<nat>)
    ensures FirstDefined(caps, groups).None? <==> forall j :: 0 <= j < |groups| ==> !TookPart(caps, groups[j])
    ensures forall i: nat :: FirstPart(caps, groups, i) ==> FirstDefined(caps, groups) == caps[groups[i]]
  {
    if groups != [] && !TookPart(caps, groups[0]) {
      FirstDefinedIs(caps, groups[1..]);
      assert FirstDefined(caps, groups) == FirstDefined(caps, groups[1..]);
      forall i: nat | FirstPart(caps, groups, i)
        ensures FirstDefined(caps, groups) == caps[groups[i]]
      {
        assert i > 0 && groups[1..][i - 1] == groups[i];
        assert forall j :: 0 <= j < i - 1 ==> groups[1..][j] == groups[j + 1];
        assert FirstPart(caps, groups[1..], i - 1);
      }
      if forall j :: 0 <= j < |groups[1..]| ==> !TookPart(caps, groups[1..][j]) {
        forall j | 0 <= j < |groups|
          ensures !TookPart(caps, groups[j])
        {
          assert j > 0 ==> groups[1..][j - 1] == groups[j];
        }
      }
    }
  }

  /** The outcomes of a back reference: the text of the first group of its list that
      took part, and nothing else; without such a group the empty text. */
  lemma BackRefMeans(inp: Input, groups: seq<nat>, base: nat, back: bool, x: St, y: St)
    requires inp.Valid() && ValidSt(inp, x) && Boundary(inp, x.pos) && base <= |x.caps|
    ensures (forall j :: 0 <= j < |groups| ==> !TookPart(x.caps, groups[j])) ==>
              (y in Match(inp, BackRef(groups), base, back, x) <==> y == x)
    ensures forall i: nat :: FirstPart(x.caps, groups, i) ==>
              var s := x.caps[groups[i]].value;
              && ValidSpan(inp, x.caps[groups[i]])
              && (y in Match(inp, BackRef(groups), base, back, x) <==>
                    y.caps == x.caps && SameText(inp, s.start, s.end, back, x.pos, y.pos))
    ensures |Match(inp, BackRef(groups), base, back, x)| <= 1
  {
    FirstDefinedIs(x.caps, groups);
    var s := FirstDefined(x.caps, groups);
    hide RefEnd, SameText;
    if s.Some? {
      assert ValidSpan(inp, s);
      var lo, hi := s.value.start, s.value.end;
      if back {
        RefBackward(inp, lo, hi, x.pos, y.pos);
      } else {
        RefForward(inp, lo, hi, x.pos, y.pos);
      }
      var q := RefEnd(inp, lo, hi, back, x.pos);
      assert Match(inp, BackRef(groups), base, back, x) == if q.Some? then [x.(pos := q.value)] else [];
    }
  }

  // ----- assertions ---------------------------------------------------------------

  predicate EndsLine(u: nat) {
    u == '\n' as nat || u == '\r' as nat || u == 0x2028 || u == 0x2029
  }

  predicate InWord(u: nat) {
    || 'a' as nat <= u <= 'z' as nat || 'A' as nat <= u <= 'Z' as nat || '0' as nat <= u <= '9' as nat
    || u == '_' as nat
  }

  /** Assertions look at the units beside the position: half a pair is neither the
      end of a line nor part of a word. */
  lemma HoldsByUnits(inp: Input, kind: AssertKind, p: nat)
    requires inp.Valid() && p <= |inp.units|
    ensures var before, after := p > 0 && InWord(inp.units[p - 1]), p < |inp.units| && InWord(inp.units[p]);
            Holds(inp, kind, p) <==>
              match kind
              case LineStart(multiline) => p == 0 || (multiline && EndsLine(inp.units[p - 1]))
              case LineEnd(multiline) => p == |inp.units| || (multiline && EndsLine(inp.units[p]))
              case WordBoundary(positive) => positive == (before != after)
  {
  }
}
