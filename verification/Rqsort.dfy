/** rqsort: quicksort with a stack of 50 segments, a heapsort fallback and an
    insertion sort for small fragments. */
module Rqsort {
  import opened Sorting
  import opened HeapSort
  import opened Partition

  const STACK_SIZE: nat := 50

  datatype Segment = Segment(base: nat, count: nat, depth: nat)

  // ----- what the stack of pending segments means -----------------------------------

  predicate Apart(x: Segment, y: Segment) {
    x.base + x.count <= y.base || y.base + y.count <= x.base
  }

  ghost predicate Pending(segs: seq<Segment>, n: nat) {
    && (forall x :: 0 <= x < |segs| ==> segs[x].base + segs[x].count <= n)
    && (forall x, y :: 0 <= x < y < |segs| ==> Apart(segs[x], segs[y]))
  }

  predicate Contains(seg: Segment, i: nat, j: nat) {
    seg.base <= i && j < seg.base + seg.count
  }

  ghost predicate Within(segs: seq<Segment>, i: nat, j: nat) {
    exists x :: 0 <= x < |segs| && Contains(segs[x], i, j)
  }

  /** Elements are out of order only inside a pending segment. */
  ghost predicate OrderedBetween<T(!new)>(s: seq<T>, n: nat, segs: seq<Segment>, cmp: (T, T) -> int) {
    forall i: nat, j: nat {:trigger Within(segs, i, j)} ::
      i < j < n <= |s| ==> Within(segs, i, j) || cmp(s[i], s[j]) <= 0
  }

  /** Depths grow along the stack, so that it never holds more than 50 segments. */
  ghost predicate Depths(segs: seq<Segment>, depth: nat) {
    && (forall x, y :: 0 <= x < y < |segs| ==> segs[x].depth < segs[y].depth)
    && (forall x :: 0 <= x < |segs| ==> x + 1 <= segs[x].depth <= depth)
  }

  function Weight(segs: seq<Segment>): nat {
    if segs == [] then 0 else Weight(segs[..|segs| - 1]) + 2 * segs[|segs| - 1].count + 1
  }

  lemma WeightSnoc(segs: seq<Segment>, seg: Segment)
    ensures Weight(segs + [seg]) == Weight(segs) + 2 * seg.count + 1
  {
    assert (segs + [seg])[..|segs|] == segs;
  }

  lemma DepthsSnoc(segs: seq<Segment>, seg: Segment, depth: nat)
    requires Depths(segs, depth) && seg.depth == depth + 1
    ensures Depths(segs + [seg], depth + 1) && |segs| <= depth
  {
    if segs != [] { assert segs[|segs| - 1].depth <= depth; }
  }

  lemma DepthsPop(segs: seq<Segment>, seg: Segment, depth: nat)
    requires Depths(segs + [seg], depth)
    ensures Depths(segs, seg.depth)
  {
    var all := segs + [seg];
    forall x | 0 <= x < |segs|
      ensures segs[x] == all[x] && segs[x].depth < seg.depth
    {
      assert all[x].depth < all[|segs|].depth;
    }
  }

  // ----- what happens to a segment -----------------------------------------------------

  lemma InsideOnly(segs: seq<Segment>, cur: Segment, i: nat, j: nat, n: nat)
    requires Pending(segs + [cur], n) && i < j && Within(segs + [cur], i, j)
    ensures Within(segs, i, j) || Contains(cur, i, j)
  {
    var all := segs + [cur];
    var x :| 0 <= x < |all| && Contains(all[x], i, j);
    if x < |segs| { assert segs[x] == all[x]; }
  }

  lemma WithinMore(segs: seq<Segment>, more: seq<Segment>, i: nat, j: nat)
    requires Within(segs, i, j)
    ensures Within(segs + more, i, j)
  {
    var x :| 0 <= x < |segs| && Contains(segs[x], i, j);
    assert (segs + more)[x] == segs[x];
  }

  /** A pair with one end in `cur` is in no other segment. */
  lemma NotElsewhere(segs: seq<Segment>, cur: Segment, n: nat, i: nat, j: nat)
    requires Pending(segs + [cur], n) && i < j
    requires cur.base <= i < cur.base + cur.count || cur.base <= j < cur.base + cur.count
    ensures !Within(segs, i, j)
  {
    var all := segs + [cur];
    forall x | 0 <= x < |segs|
      ensures !Contains(segs[x], i, j)
    {
      assert all[x] == segs[x] && all[|segs|] == cur && Apart(all[x], all[|segs|]);
    }
  }

  /** Permuting a pending segment. */
  lemma Permuted<T(!new)>(s: seq<T>, t: seq<T>, n: nat, segs: seq<Segment>, cur: Segment, cmp: (T, T) -> int)
    requires n <= |s| && Pending(segs + [cur], n) && OrderedBetween(s, n, segs + [cur], cmp)
    requires Shuffled(s, t, cur.base, cur.base + cur.count)
    ensures OrderedBetween(t, n, segs + [cur], cmp)
  {
    ShuffledFrom(s, t, cur.base, cur.base + cur.count);
    PendingParts(segs, cur, n);
    assert |s| == |t|;
    hide Shuffled, Pending;
    forall i: nat, j: nat | i < j < n <= |t| && !Within(segs + [cur], i, j)
      ensures cmp(t[i], t[j]) <= 0
    {
      PermutedPair(s, t, n, segs, cur, cmp, i, j);
    }
  }

  lemma PermutedPair<T(!new)>(s: seq<T>, t: seq<T>, n: nat, segs: seq<Segment>, cur: Segment, cmp: (T, T) -> int,
                              i: nat, j: nat)
    requires n <= |s| == |t| && Pending(segs + [cur], n) && OrderedBetween(s, n, segs + [cur], cmp)
    requires cur.base + cur.count <= n && forall k :: cur.base <= k < cur.base + cur.count ==>
             t[k] in s[cur.base..cur.base + cur.count]
    requires forall k :: 0 <= k < |s| && (k < cur.base || cur.base + cur.count <= k) ==> t[k] == s[k]
    requires i < j < n && !Within(segs + [cur], i, j)
    ensures cmp(t[i], t[j]) <= 0
  {
    var lo, hi := cur.base, cur.base + cur.count;
    assert !Contains(cur, i, j) by { assert (segs + [cur])[|segs|] == cur; }
    if lo <= i < hi {
      var i1 :| lo <= i1 < hi && s[i1] == t[i];
      OutsidePair(segs, cur, n, i1, j);
    } else if lo <= j < hi {
      var j1 :| lo <= j1 < hi && s[j1] == t[j];
      OutsidePair(segs, cur, n, i, j1);
    }
  }

  lemma OutsidePair(segs: seq<Segment>, cur: Segment, n: nat, i: nat, j: nat)
    requires Pending(segs + [cur], n) && i < j && !Contains(cur, i, j)
    requires cur.base <= i < cur.base + cur.count || cur.base <= j < cur.base + cur.count
    ensures !Within(segs + [cur], i, j)
  {
    NotElsewhere(segs, cur, n, i, j);
    if Within(segs + [cur], i, j) { InsideOnly(segs, cur, i, j, n); }
  }

  /** A segment in order is no longer pending. */
  lemma Finished<T(!new)>(s: seq<T>, n: nat, segs: seq<Segment>, cur: Segment, cmp: (T, T) -> int)
    requires n <= |s| && Pending(segs + [cur], n) && OrderedBetween(s, n, segs + [cur], cmp)
    requires Ordered(s, cur.base, cur.base + cur.count, cmp)
    ensures OrderedBetween(s, n, segs, cmp)
  {
    PendingParts(segs, cur, n);
    forall i: nat, j: nat | i < j < n <= |s| && !Within(segs, i, j)
      ensures cmp(s[i], s[j]) <= 0
    {
      if Within(segs + [cur], i, j) { InsideOnly(segs, cur, i, j, n); }
    }
  }

  lemma PendingParts(segs: seq<Segment>, cur: Segment, n: nat)
    requires Pending(segs + [cur], n)
    ensures Pending(segs, n) && cur.base + cur.count <= n
  {
    var all := segs + [cur];
    assert all[|segs|] == cur;
    forall x | 0 <= x < |segs| ensures segs[x] == all[x] {}
  }

  /** After a partition only the outer parts are pending. */
  lemma PartsPending(segs: seq<Segment>, cur: Segment, x: Segment, y: Segment, n: nat)
    requires Pending(segs + [cur], n) && Apart(x, y)
    requires cur.base <= x.base && x.base + x.count <= cur.base + cur.count
    requires cur.base <= y.base && y.base + y.count <= cur.base + cur.count
    ensures Pending(segs + [x] + [y], n)
  {
    var all, some := segs + [cur], segs + [x] + [y];
    assert all[|segs|] == cur;
    forall u | 0 <= u < |segs|
      ensures some[u] == all[u] && Apart(all[u], cur)
    {
      assert Apart(all[u], all[|segs|]);
    }
  }

  /** The order between the three parts of a partition. */
  lemma PartedPair<T(!new)>(s: seq<T>, lo: nat, lt: nat, gt: nat, top: nat, p: T, cmp: (T, T) -> int, i: nat, j: nat)
    requires Preorder(cmp) && Parted(s, lo, lt, gt, top, p, cmp) && lo <= i < j < top
    requires !(j < lt) && !(gt <= i)
    ensures cmp(s[i], s[j]) <= 0
  {
    assert cmp(p, p) > 0 <==> cmp(p, p) < 0;
    assert cmp(s[i], p) <= 0 by { assert cmp(s[i], p) > 0 <==> cmp(p, s[i]) < 0; }
    assert cmp(p, s[j]) <= 0;
  }

  lemma Divided<T(!new)>(s: seq<T>, n: nat, segs: seq<Segment>, cur: Segment, x: Segment, y: Segment,
                         lt: nat, gt: nat, p: T, cmp: (T, T) -> int)
    requires Preorder(cmp) && n <= |s| && Pending(segs + [cur], n) && OrderedBetween(s, n, segs + [cur], cmp)
    requires Parted(s, cur.base, lt, gt, cur.base + cur.count, p, cmp)
    requires (x.base == cur.base && x.count == lt - cur.base && y.base == gt && y.count == cur.base + cur.count - gt)
          || (y.base == cur.base && y.count == lt - cur.base && x.base == gt && x.count == cur.base + cur.count - gt)
    ensures OrderedBetween(s, n, segs + [x] + [y], cmp)
  {
    var some := segs + [x] + [y];
    forall i: nat, j: nat | i < j < n <= |s| && !Within(some, i, j)
      ensures cmp(s[i], s[j]) <= 0
    {
      if Within(segs + [cur], i, j) {
        InsideOnly(segs, cur, i, j, n);
        if Within(segs, i, j) {
          assert some == segs + [x, y];
          WithinMore(segs, [x, y], i, j);
        }
        assert some[|segs|] == x && some[|segs| + 1] == y && !Contains(x, i, j) && !Contains(y, i, j);
        PartedPair(s, cur.base, lt, gt, cur.base + cur.count, p, cmp, i, j);
      }
    }
  }

  // ----- the loops ------------------------------------------------------------------------

  /** The state of the sort: pending segments, and the one being worked on. */
  ghost predicate Underway<T(!new)>(s0: seq<T>, s: seq<T>, n: nat, segs: seq<Segment>, cur: Segment,
                                    cmp: (T, T) -> int) {
    && n <= |s| && Shuffled(s0, s, 0, n) && Pending(segs + [cur], n)
    && (Preorder(cmp) ==> OrderedBetween(s, n, segs + [cur], cmp))
  }

  lemma StillSorting<T(!new)>(s0: seq<T>, s: seq<T>, t: seq<T>, n: nat, segs: seq<Segment>, cur: Segment,
                              cmp: (T, T) -> int)
    requires Underway(s0, s, n, segs, cur, cmp) && Shuffled(s, t, cur.base, cur.base + cur.count)
    ensures Underway(s0, t, n, segs, cur, cmp)
  {
    PendingParts(segs, cur, n);
    assert |s| == |t|;
    hide Shuffled, OrderedBetween, Preorder, Pending;
    ShuffledWider(s, t, cur.base, cur.base + cur.count, 0, n);
    ShuffledTrans(s0, s, t, 0, n);
    if Preorder(cmp) { Permuted(s, t, n, segs, cur, cmp); }
  }

  /** The depth of the segment does not matter for the order. */
  lemma AnyDepth<T(!new)>(s0: seq<T>, s: seq<T>, n: nat, segs: seq<Segment>, cur: Segment, cur1: Segment,
                          cmp: (T, T) -> int)
    requires Underway(s0, s, n, segs, cur, cmp) && cur1.base == cur.base && cur1.count == cur.count
    ensures Underway(s0, s, n, segs, cur1, cmp)
  {
    hide Shuffled;
    var all, all1 := segs + [cur], segs + [cur1];
    assert forall x :: 0 <= x < |all| ==> all[x].base == all1[x].base && all[x].count == all1[x].count;
    forall i: nat, j: nat | Within(all, i, j)
      ensures Within(all1, i, j)
    {
      var x :| 0 <= x < |all| && Contains(all[x], i, j);
      assert Contains(all1[x], i, j);
    }
  }

  /** A segment in order leaves room for the next one on the stack. */
  lemma Popped<T(!new)>(s0: seq<T>, s: seq<T>, n: nat, segs: seq<Segment>, cur: Segment, cmp: (T, T) -> int)
    requires Underway(s0, s, n, segs, cur, cmp)
    requires Preorder(cmp) ==> Ordered(s, cur.base, cur.base + cur.count, cmp)
    ensures Pending(segs, n) && Shuffled(s0, s, 0, n) && (Preorder(cmp) ==> OrderedBetween(s, n, segs, cmp))
  {
    hide Shuffled, OrderedBetween, Preorder, Pending, Ordered;
    PendingParts(segs, cur, n);
    if Preorder(cmp) { Finished(s, n, segs, cur, cmp); }
  }

  /** The whole array has been sorted when nothing is pending. */
  lemma NothingPending<T(!new)>(s: seq<T>, n: nat, cmp: (T, T) -> int)
    requires n <= |s| && OrderedBetween(s, n, [], cmp)
    ensures Ordered(s, 0, n, cmp)
  {
    forall i, j | 0 <= i < j < n
      ensures cmp(s[i], s[j]) <= 0
    {
      assert !Within([], i, j);
    }
  }

  lemma AllPending<T(!new)>(s: seq<T>, n: nat, cmp: (T, T) -> int)
    requires n <= |s|
    ensures Pending([Segment(0, n, 0)], n) && OrderedBetween(s, n, [Segment(0, n, 0)], cmp) && Shuffled(s, s, 0, n)
  {
    forall i: nat, j: nat | i < j < n
      ensures Within([Segment(0, n, 0)], i, j)
    {
      assert Contains([Segment(0, n, 0)][0], i, j);
    }
  }

  /** One partition of the current segment: the larger part is pushed, the
      smaller one is worked on next. */
  method Step<T(!new)>(a: array<T>, n: nat, stack: array<Segment>, sp: nat, cur: Segment, cmp: (T, T) -> int,
                       ghost s0: seq<T>)
    returns (next: Segment)
    requires n <= a.Length && stack.Length == STACK_SIZE && sp < STACK_SIZE && cur.count > 6 && (a as object) != stack
    requires Underway(s0, a[..], n, stack[..sp], cur, cmp)
    modifies a, stack
    ensures stack[..sp] == old(stack[..sp]) && stack[sp].depth == cur.depth == next.depth
    ensures Underway(s0, a[..], n, stack[..sp + 1], next, cmp)
    ensures stack[sp].count + next.count < cur.count
  {
    hide Shuffled, OrderedBetween, Preorder, Parted, Pending;
    ghost var s, segs := a[..], stack[..sp];
    PendingParts(segs, cur, n);
    var lt, gt, p := Divide(a, cur.base, cur.count, cmp);
    StillSorting(s0, s, a[..], n, segs, cur, cmp);
    var pushed: Segment;
    if lt > cur.count - gt {
      pushed := Segment(cur.base, lt, cur.depth);
      next := Segment(cur.base + gt, cur.count - gt, cur.depth);
    } else {
      pushed := Segment(cur.base + gt, cur.count - gt, cur.depth);
      next := Segment(cur.base, lt, cur.depth);
    }
    stack[sp] := pushed;
    assert stack[..sp] == segs && stack[..sp + 1] == segs + [pushed];
    PartsPending(segs, cur, pushed, next, n);
    if Preorder(cmp) { Divided(a[..], n, segs, cur, pushed, next, cur.base + lt, cur.base + gt, p, cmp); }
  }

  /** The inner loop: work on one segment until it is in order. */
  method SortSegment<T(!new)>(a: array<T>, n: nat, stack: array<Segment>, sp0: nat, popped: Segment, cmp: (T, T) -> int,
                              ghost s0: seq<T>)
    returns (sp: nat)
    requires n <= a.Length && stack.Length == STACK_SIZE && sp0 < STACK_SIZE && (a as object) != stack
    requires Depths(stack[..sp0], popped.depth) && popped.depth <= STACK_SIZE
    requires Underway(s0, a[..], n, stack[..sp0], popped, cmp)
    modifies a, stack
    ensures sp <= STACK_SIZE && Depths(stack[..sp], STACK_SIZE)
    ensures Weight(stack[..sp]) <= old(Weight(stack[..sp0])) + 2 * popped.count
    ensures Pending(stack[..sp], n) && Shuffled(s0, a[..], 0, n)
    ensures Preorder(cmp) ==> OrderedBetween(a[..], n, stack[..sp], cmp)
  {
    hide Shuffled, OrderedBetween, Preorder, Pending, Weight, Depths, Underway, Ordered;
    sp := sp0;
    var cur, done := popped, false;
    while !done && cur.count > 6
      invariant sp <= STACK_SIZE && cur.depth <= STACK_SIZE && Depths(stack[..sp], cur.depth)
      invariant Underway(s0, a[..], n, stack[..sp], cur, cmp)
      invariant done ==> Preorder(cmp) ==> Ordered(a[..], cur.base, cur.base + cur.count, cmp)
      invariant Weight(stack[..sp]) + 2 * cur.count <= old(Weight(stack[..sp0])) + 2 * popped.count
      decreases !done, cur.count
    {
      ghost var s, segs := a[..], stack[..sp];
      UnderwayInside(s0, s, n, segs, cur, cmp);
      if cur.depth + 1 > STACK_SIZE {
        Heapsortx(a, cur.base, cur.count, cmp);
        StillSorting(s0, s, a[..], n, segs, cur, cmp);
        done := true;
      } else {
        var deeper := cur.(depth := cur.depth + 1);
        AnyDepth(s0, s, n, segs, cur, deeper, cmp);
        assert sp < STACK_SIZE by { DepthsSnoc(segs, deeper, cur.depth); }
        cur := Step(a, n, stack, sp, deeper, cmp, s0);
        assert stack[..sp + 1] == segs + [stack[sp]];
        DepthsSnoc(segs, stack[sp], deeper.depth - 1);
        WeightSnoc(segs, stack[sp]);
        sp := sp + 1;
      }
    }
    if !done {
      ghost var s := a[..];
      UnderwayInside(s0, s, n, stack[..sp], cur, cmp);
      InsertionSort(a, cur.base, cur.count, cmp);
      StillSorting(s0, s, a[..], n, stack[..sp], cur, cmp);
    }
    Popped(s0, a[..], n, stack[..sp], cur, cmp);
    DepthsMore(stack[..sp], cur.depth, STACK_SIZE);
  }

  lemma DepthsMore(segs: seq<Segment>, depth: nat, depth1: nat)
    requires Depths(segs, depth) && depth <= depth1
    ensures Depths(segs, depth1)
  {
  }

  lemma UnderwayInside<T(!new)>(s0: seq<T>, s: seq<T>, n: nat, segs: seq<Segment>, cur: Segment, cmp: (T, T) -> int)
    requires Underway(s0, s, n, segs, cur, cmp)
    ensures cur.base + cur.count <= n
  {
    PendingParts(segs, cur, n);
  }

  /** rqsort: for every comparison function the result is a permutation, and for
      a consistent one it is in order. It always ends, and the stack of 50
      segments is never exceeded. */
  method Rqsort<T(!new)>(a: array<T>, nmemb: nat, cmp: (T, T) -> int)
    requires nmemb <= a.Length
    modifies a
    ensures Shuffled(old(a[..]), a[..], 0, nmemb)
    ensures Preorder(cmp) ==> Ordered(a[..], 0, nmemb, cmp)
  {
    hide Shuffled, OrderedBetween, Preorder, Pending, Weight, Depths, Ordered;
    ghost var s0 := a[..];
    ShuffledSelf(s0, 0, nmemb);
    if nmemb < 2 {
      OrderedOne(s0, 0, nmemb, cmp);
      return;
    }
    var stack := new Segment[STACK_SIZE];
    stack[0] := Segment(0, nmemb, 0);
    var sp: nat := 1;
    AllPending(s0, nmemb, cmp);
    assert stack[..1] == [Segment(0, nmemb, 0)];
    while sp > 0
      invariant sp <= STACK_SIZE
      invariant Depths(stack[..sp], STACK_SIZE) || stack[..sp] == [Segment(0, nmemb, 0)]
      invariant Pending(stack[..sp], nmemb) && Shuffled(s0, a[..], 0, nmemb)
      invariant Preorder(cmp) ==> OrderedBetween(a[..], nmemb, stack[..sp], cmp)
      decreases Weight(stack[..sp])
    {
      ghost var all := stack[..sp];
      sp := sp - 1;
      assert all == stack[..sp] + [stack[sp]];
      WeightSnoc(stack[..sp], stack[sp]);
      DepthsPopped(stack[..sp], stack[sp], nmemb);
      sp := SortSegment(a, nmemb, stack, sp, stack[sp], cmp, s0);
    }
    assert stack[..0] == [];
    if Preorder(cmp) { NothingPending(a[..], nmemb, cmp); }
  }

  lemma DepthsPopped(segs: seq<Segment>, seg: Segment, n: nat)
    requires Depths(segs + [seg], STACK_SIZE) || segs + [seg] == [Segment(0, n, 0)]
    ensures Depths(segs, seg.depth) && seg.depth <= STACK_SIZE
  {
    if Depths(segs + [seg], STACK_SIZE) {
      DepthsPop(segs, seg, STACK_SIZE);
      assert (segs + [seg])[|segs|] == seg;
    } else {
      assert |segs + [seg]| == 1 && (segs + [seg])[0] == seg;
    }
  }
}
