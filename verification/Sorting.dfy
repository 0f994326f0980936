/** What sorting in place means: the elements are the same, those outside a
    range do not move, and those inside end up in order. */
module Sorting {

  /** A C comparison function with a consistent sign. */
  ghost predicate Preorder<T(!new)>(cmp: (T, T) -> int) {
    && (forall x, y :: cmp(x, y) > 0 <==> cmp(y, x) < 0)
    && (forall x, y, z :: cmp(x, y) <= 0 && cmp(y, z) <= 0 ==> cmp(x, z) <= 0)
  }

  ghost predicate Ordered<T(!new)>(s: seq<T>, lo: nat, hi: nat, cmp: (T, T) -> int) {
    forall i, j :: lo <= i < j < hi <= |s| ==> cmp(s[i], s[j]) <= 0
  }

  /** `t` is `s` with the elements of [lo, hi) permuted. */
  ghost predicate Shuffled<T>(s: seq<T>, t: seq<T>, lo: nat, hi: nat) {
    && lo <= hi <= |s| == |t|
    && s[..lo] == t[..lo] && s[hi..] == t[hi..] && multiset(s) == multiset(t)
  }

  lemma ShuffledSelf<T>(s: seq<T>, lo: nat, hi: nat)
    requires lo <= hi <= |s|
    ensures Shuffled(s, s, lo, hi)
  {
  }

  lemma ShuffledTrans<T>(s: seq<T>, t: seq<T>, u: seq<T>, lo: nat, hi: nat)
    requires Shuffled(s, t, lo, hi) && Shuffled(t, u, lo, hi)
    ensures Shuffled(s, u, lo, hi)
  {
  }

  lemma ShuffledWider<T>(s: seq<T>, t: seq<T>, lo: nat, hi: nat, lo1: nat, hi1: nat)
    requires Shuffled(s, t, lo, hi) && lo1 <= lo && hi <= hi1 <= |s|
    ensures Shuffled(s, t, lo1, hi1)
  {
    assert s[..lo1] == s[..lo][..lo1] && t[..lo1] == t[..lo][..lo1];
    assert s[hi1..] == s[hi..][hi1 - hi..] && t[hi1..] == t[hi..][hi1 - hi..];
  }

  lemma ShuffledSwap<T>(s: seq<T>, i: nat, j: nat, lo: nat, hi: nat)
    requires lo <= i < hi <= |s| && lo <= j < hi
    ensures Shuffled(s, s[i := s[j]][j := s[i]], lo, hi)
  {
    var t := s[i := s[j]][j := s[i]];
    assert multiset(s[i := s[j]]) == multiset(s) - multiset{s[i]} + multiset{s[j]};
    assert multiset(t) == multiset(s[i := s[j]]) - multiset{s[i := s[j]][j]} + multiset{s[i]};
    assert s[i := s[j]][j] == s[j];
    assert t[..lo] == s[..lo] && t[hi..] == s[hi..];
  }

  lemma ShuffledParts<T>(s: seq<T>, t: seq<T>, lo: nat, hi: nat)
    requires Shuffled(s, t, lo, hi)
    ensures multiset(s[lo..hi]) == multiset(t[lo..hi])
  {
    assert s == s[..lo] + s[lo..hi] + s[hi..];
    assert t == t[..lo] + t[lo..hi] + t[hi..];
    assert multiset(s) == multiset(s[..lo]) + multiset(s[lo..hi]) + multiset(s[hi..]);
    assert multiset(t) == multiset(t[..lo]) + multiset(t[lo..hi]) + multiset(t[hi..]);
    assert multiset(s[lo..hi]) == multiset(s) - multiset(s[..lo]) - multiset(s[hi..]);
    assert multiset(t[lo..hi]) == multiset(t) - multiset(t[..lo]) - multiset(t[hi..]);
  }

  /** Every element of the range comes from the range. */
  lemma ShuffledFrom<T>(s: seq<T>, t: seq<T>, lo: nat, hi: nat)
    requires Shuffled(s, t, lo, hi)
    ensures forall j :: lo <= j < hi ==> t[j] in s[lo..hi]
    ensures forall j :: 0 <= j < |s| && (j < lo || hi <= j) ==> t[j] == s[j]
  {
    ShuffledParts(s, t, lo, hi);
    forall j | lo <= j < hi
      ensures t[j] in s[lo..hi]
    {
      assert t[lo..hi][j - lo] in multiset(t[lo..hi]);
    }
    forall j | 0 <= j < |s| && (j < lo || hi <= j)
      ensures t[j] == s[j]
    {
      if j < lo {
        assert t[j] == t[..lo][j] && s[j] == s[..lo][j];
      } else {
        assert t[j] == t[hi..][j - hi] && s[j] == s[hi..][j - hi];
      }
    }
  }

  /** `swap`; `lo` and `hi` bound the range being sorted. */
  method Swap<T>(a: array<T>, i: nat, j: nat, ghost lo: nat, ghost hi: nat)
    requires lo <= i < hi <= a.Length && lo <= j < hi
    modifies a
    ensures a[..] == old(a[..])[i := old(a[j])][j := old(a[i])]
    ensures Shuffled(old(a[..]), a[..], lo, hi)
  {
    ShuffledSwap(a[..], i, j, lo, hi);
    a[i], a[j] := a[j], a[i];
  }

  /** In order, but for the element at `pj`, which may still have to go down. */
  ghost predicate OrderedBut<T(!new)>(s: seq<T>, lo: nat, pi: nat, pj: nat, cmp: (T, T) -> int) {
    && lo <= pj <= pi < |s|
    && (forall k, l :: lo <= k < l <= pi && l != pj ==> cmp(s[k], s[l]) <= 0)
  }

  lemma SinkStart<T(!new)>(s: seq<T>, lo: nat, pi: nat, cmp: (T, T) -> int)
    requires lo <= pi < |s| && Ordered(s, lo, pi, cmp)
    ensures OrderedBut(s, lo, pi, pi, cmp)
  {
  }

  lemma SinkStep<T(!new)>(s: seq<T>, lo: nat, pi: nat, pj: nat, cmp: (T, T) -> int)
    requires Preorder(cmp) && OrderedBut(s, lo, pi, pj, cmp) && lo < pj && cmp(s[pj - 1], s[pj]) > 0
    ensures OrderedBut(s[pj := s[pj - 1]][pj - 1 := s[pj]], lo, pi, pj - 1, cmp)
  {
  }

  lemma SinkEnd<T(!new)>(s: seq<T>, lo: nat, pi: nat, pj: nat, cmp: (T, T) -> int)
    requires Preorder(cmp) && OrderedBut(s, lo, pi, pj, cmp) && (lo == pj || cmp(s[pj - 1], s[pj]) <= 0)
    ensures Ordered(s, lo, pi + 1, cmp)
  {
  }

  /** Move the element at `pi` down to its place. */
  method Sink<T(!new)>(a: array<T>, ptr: nat, pi: nat, cmp: (T, T) -> int, ghost top: nat)
    requires ptr <= pi < top <= a.Length
    modifies a
    ensures Shuffled(old(a[..]), a[..], ptr, top)
    ensures Preorder(cmp) && Ordered(old(a[..]), ptr, pi, cmp) ==> Ordered(a[..], ptr, pi + 1, cmp)
  {
    hide Shuffled, Preorder, OrderedBut, Ordered;
    ghost var sorting := Preorder(cmp) && Ordered(a[..], ptr, pi, cmp);
    var pj := pi;
    if sorting { SinkStart(a[..], ptr, pi, cmp); }
    ShuffledSelf(a[..], ptr, top);
    while pj > ptr && cmp(a[pj - 1], a[pj]) > 0
      invariant ptr <= pj <= pi && Shuffled(old(a[..]), a[..], ptr, top)
      invariant sorting ==> OrderedBut(a[..], ptr, pi, pj, cmp)
    {
      ghost var s := a[..];
      if sorting { SinkStep(s, ptr, pi, pj, cmp); }
      Swap(a, pj, pj - 1, ptr, top);
      ShuffledTrans(old(a[..]), s, a[..], ptr, top);
      pj := pj - 1;
    }
    if sorting { SinkEnd(a[..], ptr, pi, pj, cmp); }
  }

  lemma OrderedOne<T(!new)>(s: seq<T>, lo: nat, hi: nat, cmp: (T, T) -> int)
    requires hi <= lo + 1
    ensures Ordered(s, lo, hi, cmp)
  {
  }

  /** Insertion sort by adjacent swaps. */
  method InsertionSort<T(!new)>(a: array<T>, ptr: nat, nmemb: nat, cmp: (T, T) -> int)
    requires ptr + nmemb <= a.Length
    modifies a
    ensures Shuffled(old(a[..]), a[..], ptr, ptr + nmemb)
    ensures Preorder(cmp) ==> Ordered(a[..], ptr, ptr + nmemb, cmp)
  {
    hide Shuffled, Preorder, Ordered;
    var pi, top := ptr + 1, ptr + nmemb;
    ShuffledSelf(a[..], ptr, top);
    OrderedOne(a[..], ptr, if pi < top then pi else top, cmp);
    while pi < top
      invariant ptr < pi && Shuffled(old(a[..]), a[..], ptr, top)
      invariant Preorder(cmp) ==> Ordered(a[..], ptr, if pi < top then pi else top, cmp)
    {
      ghost var s := a[..];
      Sink(a, ptr, pi, cmp, top);
      ShuffledTrans(old(a[..]), s, a[..], ptr, top);
      pi := pi + 1;
    }
  }
}
