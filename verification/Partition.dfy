/** The four-zone partition of rqsort. */
module Partition {
  import opened Sorting

  /** med3, on indices. */
  function Med3<T>(s: seq<T>, a: nat, b: nat, c: nat, cmp: (T, T) -> int): (m: nat)
    requires a < |s| && b < |s| && c < |s|
    ensures m == a || m == b || m == c
  {
    if cmp(s[a], s[b]) < 0 then
      (if cmp(s[b], s[c]) < 0 then b else if cmp(s[a], s[c]) < 0 then c else a)
    else
      (if cmp(s[b], s[c]) > 0 then b else if cmp(s[a], s[c]) < 0 then a else c)
  }

  /** It lies between the other two. */
  lemma Med3IsMedian<T(!new)>(s: seq<T>, a: nat, b: nat, c: nat, cmp: (T, T) -> int)
    requires Preorder(cmp) && a < |s| && b < |s| && c < |s|
    ensures var m := Med3(s, a, b, c, cmp);
            var (x, y) := if m == a then (b, c) else if m == b then (a, c) else (a, b);
            (cmp(s[x], s[m]) <= 0 && cmp(s[m], s[y]) <= 0) || (cmp(s[y], s[m]) <= 0 && cmp(s[m], s[x]) <= 0)
  {
    assert cmp(s[a], s[b]) > 0 <==> cmp(s[b], s[a]) < 0;
    assert cmp(s[b], s[c]) > 0 <==> cmp(s[c], s[b]) < 0;
    assert cmp(s[a], s[c]) > 0 <==> cmp(s[c], s[a]) < 0;
    assert cmp(s[b], s[a]) > 0 <==> cmp(s[a], s[b]) < 0;
    assert cmp(s[c], s[b]) > 0 <==> cmp(s[b], s[c]) < 0;
    assert cmp(s[c], s[a]) > 0 <==> cmp(s[a], s[c]) < 0;
  }

  /** Swap two blocks of `n` elements. */
  method SwapBlock<T>(a: array<T>, x: nat, y: nat, n: nat, ghost lo: nat, ghost hi: nat)
    requires lo <= x && x + n <= y && y + n <= hi <= a.Length
    modifies a
    ensures Shuffled(old(a[..]), a[..], lo, hi) && Exchanged(old(a[..]), a[..], x, y, n)
  {
    hide Shuffled, Exchanged;
    var k := 0;
    ShuffledSelf(a[..], lo, hi);
    NothingExchanged(a[..], x, y);
    while k < n
      invariant k <= n && Shuffled(old(a[..]), a[..], lo, hi) && Exchanged(old(a[..]), a[..], x, y, k)
    {
      ghost var s := a[..];
      Swap(a, x + k, y + k, lo, hi);
      OneExchanged(old(a[..]), s, a[..], x, y, k);
      ShuffledTrans(old(a[..]), s, a[..], lo, hi);
      k := k + 1;
    }
  }

  ghost predicate Exchanged<T>(s: seq<T>, t: seq<T>, x: nat, y: nat, n: nat) {
    && x + n <= y && y + n <= |s| == |t|
    && (forall k :: x <= k < x + n ==> t[k] == s[k - x + y])
    && (forall k :: y <= k < y + n ==> t[k] == s[k - y + x])
    && (forall k :: 0 <= k < |s| && !(x <= k < x + n) && !(y <= k < y + n) ==> t[k] == s[k])
  }

  lemma NothingExchanged<T>(s: seq<T>, x: nat, y: nat)
    requires x <= y <= |s|
    ensures Exchanged(s, s, x, y, 0)
  {
  }

  lemma OneExchanged<T>(s: seq<T>, t: seq<T>, u: seq<T>, x: nat, y: nat, k: nat)
    requires Exchanged(s, t, x, y, k) && x + k < y && y + k < |t|
    requires u == t[x + k := t[y + k]][y + k := t[x + k]]
    ensures Exchanged(s, u, x, y, k + 1)
  {
  }

  // ----- the zones --------------------------------------------------------------------

  /** The pivot is at `lo`; equal elements are collected at both ends. */
  ghost predicate Zones<T(!new)>(s: seq<T>, lo: nat, plt: nat, pi: nat, pj: nat, pgt: nat, top: nat,
                                 cmp: (T, T) -> int) {
    && lo < plt <= pi <= pj <= pgt <= top <= |s|
    && (forall k :: lo < k < plt ==> cmp(s[lo], s[k]) == 0)
    && (forall k :: plt <= k < pi ==> cmp(s[lo], s[k]) > 0)
    && (forall k :: pj <= k < pgt ==> cmp(s[lo], s[k]) < 0)
    && (forall k :: pgt <= k < top ==> cmp(s[lo], s[k]) == 0)
  }

  lemma LeftEqual<T(!new)>(s: seq<T>, lo: nat, plt: nat, pi: nat, pj: nat, pgt: nat, top: nat, cmp: (T, T) -> int)
    requires Zones(s, lo, plt, pi, pj, pgt, top, cmp) && pi < pj && cmp(s[lo], s[pi]) == 0
    ensures Zones(s[plt := s[pi]][pi := s[plt]], lo, plt + 1, pi + 1, pj, pgt, top, cmp)
  {
  }

  lemma RightEqual<T(!new)>(s: seq<T>, lo: nat, plt: nat, pi: nat, pj: nat, pgt: nat, top: nat, cmp: (T, T) -> int)
    requires Zones(s, lo, plt, pi, pj, pgt, top, cmp) && pi < pj && cmp(s[lo], s[pj - 1]) == 0
    ensures Zones(s[pgt - 1 := s[pj - 1]][pj - 1 := s[pgt - 1]], lo, plt, pi, pj - 1, pgt - 1, top, cmp)
  {
  }

  lemma RightGreater<T(!new)>(s: seq<T>, lo: nat, plt: nat, pi: nat, pj: nat, pgt: nat, top: nat, cmp: (T, T) -> int)
    requires Zones(s, lo, plt, pi, pj, pgt, top, cmp) && pi < pj && cmp(s[lo], s[pj - 1]) < 0
    ensures Zones(s, lo, plt, pi, pj - 1, pgt, top, cmp)
  {
  }

  lemma ZonesInside<T(!new)>(s: seq<T>, lo: nat, plt: nat, pi: nat, pj: nat, pgt: nat, top: nat, cmp: (T, T) -> int)
    requires Zones(s, lo, plt, pi, pj, pgt, top, cmp)
    ensures lo < plt <= pi <= pj <= pgt <= top <= |s|
  {
  }

  lemma BothWrong<T(!new)>(s: seq<T>, lo: nat, plt: nat, pi: nat, pj: nat, pgt: nat, top: nat, cmp: (T, T) -> int)
    requires Zones(s, lo, plt, pi, pj + 1, pgt, top, cmp) && pi < pj
    requires cmp(s[lo], s[pi]) < 0 && cmp(s[lo], s[pj]) > 0
    ensures Zones(s[pi := s[pj]][pj := s[pi]], lo, plt, pi + 1, pj, pgt, top, cmp)
  {
  }

  /** The first inner loop. */
  method ScanLeft<T(!new)>(a: array<T>, lo: nat, plt0: nat, pi0: nat, pj: nat, ghost pgt: nat, ghost top: nat,
                           cmp: (T, T) -> int)
    returns (plt: nat, pi: nat)
    requires Zones(a[..], lo, plt0, pi0, pj, pgt, top, cmp)
    modifies a
    ensures Shuffled(old(a[..]), a[..], lo, top) && a[lo] == old(a[lo])
    ensures Zones(a[..], lo, plt, pi, pj, pgt, top, cmp) && (pi == pj || cmp(a[lo], a[pi]) < 0) && pi0 <= pi
  {
    hide Shuffled;
    plt, pi := plt0, pi0;
    ShuffledSelf(a[..], lo, top);
    while pi < pj && cmp(a[lo], a[pi]) >= 0
      invariant pi0 <= pi && Shuffled(old(a[..]), a[..], lo, top) && a[lo] == old(a[lo])
      invariant Zones(a[..], lo, plt, pi, pj, pgt, top, cmp)
      decreases pj - pi
    {
      var c := cmp(a[lo], a[pi]);
      if c == 0 {
        ghost var s := a[..];
        LeftEqual(s, lo, plt, pi, pj, pgt, top, cmp);
        Swap(a, plt, pi, lo, top);
        ShuffledTrans(old(a[..]), s, a[..], lo, top);
        plt := plt + 1;
      }
      pi := pi + 1;
    }
  }

  /** The second inner loop; pj is decremented before each test. */
  method ScanRight<T(!new)>(a: array<T>, lo: nat, ghost plt: nat, pi: nat, pj0: nat, pgt0: nat, ghost top: nat,
                            cmp: (T, T) -> int)
    returns (pj: nat, pgt: nat)
    requires Zones(a[..], lo, plt, pi, pj0, pgt0, top, cmp)
    requires pi == pj0 || cmp(a[lo], a[pi]) < 0
    modifies a
    ensures Shuffled(old(a[..]), a[..], lo, top) && a[lo] == old(a[lo])
    ensures pj < pj0 && Zones(a[..], lo, plt, pi, pj + 1, pgt, top, cmp)
    ensures if pi < pj then cmp(a[lo], a[pj]) > 0 && cmp(a[lo], a[pi]) < 0
            else Zones(a[..], lo, plt, pi, pi, pgt, top, cmp)
  {
    hide Shuffled, Zones;
    pj, pgt := pj0, pgt0;
    ZonesInside(a[..], lo, plt, pi, pj, pgt, top, cmp);
    ShuffledSelf(a[..], lo, top);
    while true
      invariant lo < pi <= pj <= pj0 <= a.Length && pj <= pgt <= top <= a.Length
      invariant Shuffled(old(a[..]), a[..], lo, top) && a[lo] == old(a[lo])
      invariant Zones(a[..], lo, plt, pi, pj, pgt, top, cmp)
      invariant pi == pj0 || cmp(a[lo], a[pi]) < 0
      decreases pj
    {
      if pi < pj && cmp(a[lo], a[pj - 1]) < 0 { RightGreater(a[..], lo, plt, pi, pj, pgt, top, cmp); }
      pj := pj - 1;
      if pi >= pj {
        Meeting(a[..], lo, plt, pi, pj + 1, pgt, top, cmp);
        return;
      }
      var c := cmp(a[lo], a[pj]);
      if c > 0 {
        return;
      }
      if c == 0 {
        pgt := pgt - 1;
        SwapEqual(a, lo, plt, pi, pj, pgt, top, cmp, old(a[..]));
      }
    }
  }

  /** An element equal to the pivot joins the equal ones on the right. */
  method SwapEqual<T(!new)>(a: array<T>, lo: nat, ghost plt: nat, ghost pi: nat, pj: nat, pgt: nat, ghost top: nat,
                            ghost cmp: (T, T) -> int, ghost s0: seq<T>)
    requires lo < pi < pj <= pgt < top <= a.Length && cmp(a[lo], a[pj]) == 0
    requires Zones(a[..], lo, plt, pi, pj + 1, pgt + 1, top, cmp) && Shuffled(s0, a[..], lo, top)
    modifies a
    ensures Zones(a[..], lo, plt, pi, pj, pgt, top, cmp) && Shuffled(s0, a[..], lo, top)
    ensures a[lo] == old(a[lo]) && a[pi] == old(a[pi])
  {
    hide Shuffled, Zones;
    ghost var s := a[..];
    RightEqual(s, lo, plt, pi, pj + 1, pgt + 1, top, cmp);
    Swap(a, pgt, pj, lo, top);
    assert a[lo] == a[..][lo] && a[pi] == a[..][pi];
    ShuffledTrans(s0, s, a[..], lo, top);
  }

  /** The scans have met: what is left between them is greater than the pivot. */
  lemma Meeting<T(!new)>(s: seq<T>, lo: nat, plt: nat, pi: nat, pj: nat, pgt: nat, top: nat, cmp: (T, T) -> int)
    requires Zones(s, lo, plt, pi, pj, pgt, top, cmp) && pj <= pi + 1
    requires pi == pj || cmp(s[lo], s[pi]) < 0
    ensures Zones(s, lo, plt, pi, pi, pgt, top, cmp)
  {
  }

  /** Both scans until they meet. */
  method Scan<T(!new)>(a: array<T>, lo: nat, top: nat, cmp: (T, T) -> int) returns (plt: nat, pi: nat, pgt: nat)
    requires lo < top <= a.Length
    modifies a
    ensures Shuffled(old(a[..]), a[..], lo, top)
    ensures Zones(a[..], lo, plt, pi, pi, pgt, top, cmp)
  {
    hide Shuffled, Zones;
    var pj: nat := top;
    plt, pi, pgt := lo + 1, lo + 1, top;
    ShuffledSelf(a[..], lo, top);
    NoZones(a[..], lo, top, cmp);
    while true
      invariant Shuffled(old(a[..]), a[..], lo, top) && Zones(a[..], lo, plt, pi, pj, pgt, top, cmp)
      decreases pj
    {
      ghost var s := a[..];
      plt, pi := ScanLeft(a, lo, plt, pi, pj, pgt, top, cmp);
      ShuffledTrans(old(a[..]), s, a[..], lo, top);
      ghost var t := a[..];
      pj, pgt := ScanRight(a, lo, plt, pi, pj, pgt, top, cmp);
      ShuffledTrans(old(a[..]), t, a[..], lo, top);
      if pi >= pj {
        return;
      }
      ghost var u := a[..];
      BothWrong(u, lo, plt, pi, pj, pgt, top, cmp);
      ZonesInside(u, lo, plt, pi, pj + 1, pgt, top, cmp);
      Swap(a, pi, pj, lo, top);
      ShuffledTrans(old(a[..]), u, a[..], lo, top);
      pi := pi + 1;
    }
  }

  lemma NoZones<T(!new)>(s: seq<T>, lo: nat, top: nat, cmp: (T, T) -> int)
    requires lo < top <= |s|
    ensures Zones(s, lo, lo + 1, lo + 1, top, top, top, cmp)
  {
  }

  // ----- moving the equal elements to the middle ----------------------------------------

  predicate Alike<T(==)>(cmp: (T, T) -> int, p: T, x: T) {
    x == p || cmp(p, x) == 0
  }

  /** Smaller elements, the pivot and those like it, greater elements. */
  ghost predicate Parted<T(!new)>(s: seq<T>, lo: nat, lt: nat, gt: nat, top: nat, p: T, cmp: (T, T) -> int) {
    && lo <= lt < gt <= top <= |s|
    && (forall k :: lo <= k < lt ==> cmp(p, s[k]) > 0)
    && (forall k :: lt <= k < gt ==> Alike(cmp, p, s[k]))
    && (forall k :: gt <= k < top ==> cmp(p, s[k]) < 0)
  }

  lemma LeftMoved<T(!new)>(s: seq<T>, t: seq<T>, lo: nat, plt: nat, pi: nat, pgt: nat, top: nat, span: nat,
                           cmp: (T, T) -> int)
    requires Zones(s, lo, plt, pi, pi, pgt, top, cmp)
    requires plt <= pi && lo <= plt && span == Least(plt - lo, pi - plt) && Exchanged(s, t, lo, pi - span, span)
    ensures forall k :: lo <= k < lo + (pi - plt) ==> cmp(s[lo], t[k]) > 0
    ensures forall k :: lo + (pi - plt) <= k < pi ==> Alike(cmp, s[lo], t[k])
    ensures forall k :: pi <= k < top ==> t[k] == s[k]
    ensures lo <= pi <= pgt <= top <= |s| == |t|
    ensures forall k :: pi <= k < pgt ==> cmp(s[lo], t[k]) < 0
    ensures forall k :: pgt <= k < top ==> Alike(cmp, s[lo], t[k])
  {
  }

  lemma RightMoved<T(!new)>(t: seq<T>, u: seq<T>, lo: nat, pi: nat, pgt: nat, top: nat, span: nat, p: T,
                            cmp: (T, T) -> int)
    requires lo <= pi <= pgt <= top <= |t|
    requires forall k :: pi <= k < pgt ==> cmp(p, t[k]) < 0
    requires forall k :: pgt <= k < top ==> Alike(cmp, p, t[k])
    requires span == Least(top - pgt, pgt - pi) && Exchanged(t, u, pi, top - span, span)
    ensures forall k :: pi <= k < top - (pgt - pi) ==> Alike(cmp, p, u[k])
    ensures forall k :: top - (pgt - pi) <= k < top ==> cmp(p, u[k]) < 0
    ensures forall k :: lo <= k < pi ==> u[k] == t[k]
  {
  }

  function Least(x: nat, y: nat): nat {
    if x > y then y else x
  }

  /** Both block swaps together. */
  lemma Rearranged<T(!new)>(s: seq<T>, t: seq<T>, u: seq<T>, lo: nat, plt: nat, pi: nat, pgt: nat, top: nat,
                            cmp: (T, T) -> int)
    requires Zones(s, lo, plt, pi, pi, pgt, top, cmp)
    requires Exchanged(s, t, lo, pi - Least(plt - lo, pi - plt), Least(plt - lo, pi - plt))
    requires Exchanged(t, u, pi, top - Least(top - pgt, pgt - pi), Least(top - pgt, pgt - pi))
    ensures Parted(u, lo, lo + (pi - plt), top - (pgt - pi), top, s[lo], cmp)
  {
    LeftMoved(s, t, lo, plt, pi, pgt, top, Least(plt - lo, pi - plt), cmp);
    assert |u| == |t| && lo < plt <= pi;
    hide Exchanged, Zones, Alike, Least;
    RightMoved(t, u, lo, pi, pgt, top, Least(top - pgt, pgt - pi), s[lo], cmp);
  }

  /** One partition: the bounds of the middle part, relative to `ptr`. */
  method Divide<T(!new)>(a: array<T>, ptr: nat, nmemb: nat, cmp: (T, T) -> int) returns (lt: nat, gt: nat, ghost p: T)
    requires 4 <= nmemb && ptr + nmemb <= a.Length
    modifies a
    ensures Shuffled(old(a[..]), a[..], ptr, ptr + nmemb)
    ensures lt < gt <= nmemb && Parted(a[..], ptr, ptr + lt, ptr + gt, ptr + nmemb, p, cmp)
  {
    hide Shuffled, Exchanged, Zones, Parted;
    ghost var s0 := a[..];
    var m4 := nmemb / 4;
    var m := Med3(a[..], ptr + m4, ptr + 2 * m4, ptr + 3 * m4, cmp);
    var top := ptr + nmemb;
    Swap(a, ptr, m, ptr, top);
    ghost var s1 := a[..];
    var plt, pi, pgt := Scan(a, ptr, top, cmp);
    ShuffledTrans(s0, s1, a[..], ptr, top);
    ZonesInside(a[..], ptr, plt, pi, pi, pgt, top, cmp);
    p := a[ptr];
    Gather(a, ptr, plt, pi, pgt, top, cmp, s0);
    lt, gt := pi - plt, nmemb - (pgt - pi);
    assert ptr + gt == top - (pgt - pi);
  }

  /** The two block swaps. */
  method Gather<T(!new)>(a: array<T>, ptr: nat, plt: nat, pi: nat, pgt: nat, top: nat, cmp: (T, T) -> int,
                         ghost s0: seq<T>)
    requires top <= a.Length && ptr < plt <= pi <= pgt <= top && Zones(a[..], ptr, plt, pi, pi, pgt, top, cmp)
    requires Shuffled(s0, a[..], ptr, top)
    modifies a
    ensures Shuffled(s0, a[..], ptr, top)
    ensures Parted(a[..], ptr, ptr + (pi - plt), top - (pgt - pi), top, old(a[ptr]), cmp)
  {
    hide Shuffled, Exchanged, Zones, Parted;
    ghost var s := a[..];
    var span: nat := if plt - ptr > pi - plt then pi - plt else plt - ptr;
    SwapBlock(a, ptr, pi - span, span, ptr, top);
    ghost var t := a[..];
    span := if top - pgt > pgt - pi then pgt - pi else top - pgt;
    SwapBlock(a, pi, top - span, span, ptr, top);
    Rearranged(s, t, a[..], ptr, plt, pi, pgt, top, cmp);
    ShuffledTrans(s0, s, t, ptr, top);
    ShuffledTrans(s0, t, a[..], ptr, top);
  }
}
