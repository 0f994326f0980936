/** Character classes: how an interval list is written into the code, how the
    engine searches it, and why the two agree. */
module RegexpClass {
  import opened RegexpSemantics
  import opened RegexpInstr

  const UINT32_MAX: nat := 0xFFFF_FFFF

  type Intervals = seq<(nat, nat)>

  /** What CharRange guarantees: non-empty, sorted, disjoint, and the end
      UINT32_MAX only as the last point. */
  ghost predicate Sorted(iv: Intervals) {
    && (forall i :: 0 <= i < |iv| ==> iv[i].0 < iv[i].1 <= UINT32_MAX)
    && (forall i, j :: 0 <= i < j < |iv| ==> iv[i].1 <= iv[j].0)
    && |iv| < 65535
  }

  /** The largest point that decides between the two encodings. */
  function High(iv: Intervals): nat
    requires iv != []
  {
    var last := iv[|iv| - 1];
    if last.1 == UINT32_MAX then last.0 else last.1
  }

  /** Inclusive 16-bit bounds; 0xffff stands for infinity. */
  function Pairs16(iv: Intervals): (r: seq<(nat, nat)>)
    requires forall i :: 0 <= i < |iv| ==> iv[i].0 < iv[i].1
    ensures |r| == |iv|
    ensures forall i :: 0 <= i < |iv| ==>
              r[i] == (iv[i].0, if iv[i].1 == UINT32_MAX then 0xffff else iv[i].1 - 1)
  {
    seq(|iv|, i requires 0 <= i < |iv| => (iv[i].0, if iv[i].1 == UINT32_MAX then 0xffff else iv[i].1 - 1))
  }

  function Pairs32(iv: Intervals): (r: seq<(nat, nat)>)
    requires forall i :: 0 <= i < |iv| ==> iv[i].0 < iv[i].1
    ensures |r| == |iv|
    ensures forall i :: 0 <= i < |iv| ==> r[i] == (iv[i].0, iv[i].1 - 1)
  {
    seq(|iv|, i requires 0 <= i < |iv| => (iv[i].0, iv[i].1 - 1 as nat))
  }

  /** re_emit_range. A class without intervals becomes a test for a character
      that does not exist. */
  function ClassInstr(iv: Intervals): Instr
    requires forall i :: 0 <= i < |iv| ==> iv[i].0 < iv[i].1
  {
    if iv == [] then IChar32(UINT32_MAX)
    else if High(iv) <= 0xffff then IRange(Pairs16(iv))
    else IRange32(Pairs32(iv))
  }

  // ----- the search of the engine -------------------------------------------

  /** The binary search loop. The lower bound of the first pair has been
      checked, so `hi` is never decremented below zero. */
  function Search(pairs: seq<(nat, nat)>, c: nat, lo: nat, hi: nat): bool
    requires 0 < |pairs| && hi < |pairs| && pairs[0].0 <= c
    decreases hi + 1 - lo
  {
    if lo > hi then false
    else
      var mid := (lo + hi) / 2;
      if c < pairs[mid].0 then Search(pairs, c, lo, mid - 1)
      else if c > pairs[mid].1 then mid + 1 < |pairs| && Search(pairs, c, mid + 1, hi)
      else true
  }

  function Find16(pairs: seq<(nat, nat)>, c: nat): bool
    requires pairs != []
  {
    var high := pairs[|pairs| - 1].1;
    if c < pairs[0].0 then false
    else if c >= 0xffff && high == 0xffff then true
    else if c > high then false
    else Search(pairs, c, 0, |pairs| - 1)
  }

  function Find32(pairs: seq<(nat, nat)>, c: nat): bool
    requires pairs != []
  {
    if c < pairs[0].0 then false
    else if c > pairs[|pairs| - 1].1 then false
    else Search(pairs, c, 0, |pairs| - 1)
  }

  ghost predicate Ascending(pairs: seq<(nat, nat)>) {
    && (forall i :: 0 <= i < |pairs| ==> pairs[i].0 <= pairs[i].1)
    && (forall i, j :: 0 <= i < j < |pairs| ==> pairs[i].1 < pairs[j].0)
  }

  ghost predicate Between(pairs: seq<(nat, nat)>, c: nat, lo: int, hi: int)
    requires 0 <= lo && hi < |pairs|
  {
    exists i :: lo <= i <= hi && pairs[i].0 <= c <= pairs[i].1
  }

  lemma {:induction false} SearchFinds(pairs: seq<(nat, nat)>, c: nat, lo: nat, hi: nat)
    requires 0 < |pairs| && hi < |pairs| && pairs[0].0 <= c
    requires Ascending(pairs)
    ensures Search(pairs, c, lo, hi) <==> Between(pairs, c, lo, hi)
    decreases hi + 1 - lo
  {
    if lo <= hi {
      var mid := (lo + hi) / 2;
      if c < pairs[mid].0 {
        SearchFinds(pairs, c, lo, mid - 1);
        assert forall i :: mid < i <= hi ==> pairs[mid].1 < pairs[i].0;
      } else if c > pairs[mid].1 {
        if mid + 1 < |pairs| { SearchFinds(pairs, c, mid + 1, hi); }
        assert forall i :: lo <= i < mid ==> pairs[i].1 < pairs[mid].0;
      }
    }
  }

  lemma SortedPairs(iv: Intervals)
    requires Sorted(iv) && iv != []
    ensures High(iv) <= 0xffff ==> Ascending(Pairs16(iv))
    ensures Ascending(Pairs32(iv))
  {
    var n := |iv| - 1;
    forall i | 0 <= i < n
      ensures iv[i].1 <= iv[n].0
    {
    }
  }

  /** Encoding and search agree: the engine accepts exactly the characters of
      the class, whichever encoding was chosen. The list without intervals is
      written as a test for a character that no subject contains. */
  lemma ClassAgrees(iv: Intervals, c: nat)
    requires Sorted(iv) && c < UINT32_MAX
    ensures iv != [] && High(iv) <= 0xffff ==> (Find16(Pairs16(iv), c) <==> InClass(iv, c))
    ensures iv != [] ==> (Find32(Pairs32(iv), c) <==> InClass(iv, c))
    ensures match ClassInstr(iv)
            case IRange(pairs) => pairs == Pairs16(iv) && (Find16(pairs, c) <==> InClass(iv, c))
            case IRange32(pairs) => pairs == Pairs32(iv) && (Find32(pairs, c) <==> InClass(iv, c))
            case IChar32(d) => iv == [] && (c == d <==> InClass(iv, c))
            case _ => false
  {
    if iv != [] {
      SortedPairs(iv);
      Agrees32(iv, c);
      if High(iv) <= 0xffff {
        Agrees16(iv, c);
      }
    }
  }

  /** The outer bounds of a sorted list enclose all its pairs. */
  lemma OuterBounds(pairs: seq<(nat, nat)>, i: nat)
    requires Ascending(pairs) && i < |pairs|
    ensures pairs[0].0 <= pairs[i].0
    ensures pairs[i].1 <= pairs[|pairs| - 1].1
  {
    assert i > 0 ==> pairs[0].1 < pairs[i].0;
    assert i < |pairs| - 1 ==> pairs[i].1 < pairs[|pairs| - 1].0;
  }

  /** Both bound checks and the search together find a pair around `c`. */
  lemma FindsPair(pairs: seq<(nat, nat)>, c: nat)
    requires Ascending(pairs) && pairs != []
    ensures Find32(pairs, c) <==> Between(pairs, c, 0, |pairs| - 1)
  {
    if pairs[0].0 <= c {
      SearchFinds(pairs, c, 0, |pairs| - 1);
    }
    if Between(pairs, c, 0, |pairs| - 1) {
      var i :| 0 <= i <= |pairs| - 1 && pairs[i].0 <= c <= pairs[i].1;
      OuterBounds(pairs, i);
    }
  }

  lemma Agrees32(iv: Intervals, c: nat)
    requires Sorted(iv) && iv != [] && Ascending(Pairs32(iv))
    ensures Find32(Pairs32(iv), c) <==> InClass(iv, c)
  {
    var pairs := Pairs32(iv);
    FindsPair(pairs, c);
    if InClass(iv, c) {
      var i :| 0 <= i < |iv| && iv[i].0 <= c < iv[i].1;
      assert pairs[i].0 <= c <= pairs[i].1;
    }
    if Between(pairs, c, 0, |pairs| - 1) {
      var i :| 0 <= i <= |pairs| - 1 && pairs[i].0 <= c <= pairs[i].1;
      assert iv[i].0 <= c < iv[i].1;
    }
  }

  lemma Agrees16(iv: Intervals, c: nat)
    requires Sorted(iv) && iv != [] && High(iv) <= 0xffff && c < UINT32_MAX
    requires Ascending(Pairs16(iv))
    ensures Find16(Pairs16(iv), c) <==> InClass(iv, c)
  {
    hide Search;
    var pairs, n := Pairs16(iv), |iv| - 1;
    if c >= 0xffff && pairs[n].1 == 0xffff {
      assert iv[n].0 <= c < iv[n].1;
      OuterBounds(pairs, n);
    } else {
      FindsPair(pairs, c);
      Between16(iv, c);
    }
  }

  lemma Between16(iv: Intervals, c: nat)
    requires Sorted(iv) && iv != [] && High(iv) <= 0xffff && c < UINT32_MAX
    requires c < 0xffff || Pairs16(iv)[|iv| - 1].1 != 0xffff
    ensures Between(Pairs16(iv), c, 0, |iv| - 1) <==> InClass(iv, c)
  {
    var pairs, n := Pairs16(iv), |iv| - 1;
    if InClass(iv, c) {
      var i :| 0 <= i < |iv| && iv[i].0 <= c < iv[i].1;
      assert i < n ==> iv[i].1 <= iv[n].0;
      assert pairs[i].0 <= c <= pairs[i].1;
    }
    if Between(pairs, c, 0, n) {
      var i :| 0 <= i <= n && pairs[i].0 <= c <= pairs[i].1;
      assert iv[i].0 <= c < iv[i].1;
    }
  }
}
