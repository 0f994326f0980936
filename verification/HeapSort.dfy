/** heapsortx: the fallback of rqsort. */
module HeapSort {
  import opened Sorting

  predicate IsChild(r: nat, c: nat) {
    c == 2 * r + 1 || c == 2 * r + 2
  }

  /** From index `k` on, no child of the heap at `b` is above its parent. */
  ghost predicate HeapFrom<T(!new)>(s: seq<T>, b: nat, k: nat, n: nat, cmp: (T, T) -> int) {
    && b + n <= |s|
    && forall r: nat, c: nat {:trigger IsChild(r, c)} ::
       k <= r && IsChild(r, c) && c < n ==> cmp(s[b + c], s[b + r]) <= 0
  }

  /** A heap but for the element at `r`, which may still have to go down. */
  ghost predicate HeapBut<T(!new)>(s: seq<T>, b: nat, k: nat, r: nat, n: nat, cmp: (T, T) -> int) {
    && b + n <= |s| && k <= r
    && (forall q: nat, c: nat {:trigger IsChild(q, c)} ::
        k <= q && q != r && IsChild(q, c) && c < n ==> cmp(s[b + c], s[b + q]) <= 0)
    && (forall q: nat, c: nat {:trigger IsChild(q, r), IsChild(r, c)} ::
          k <= q && IsChild(q, r) && IsChild(r, c) && c < n ==> cmp(s[b + c], s[b + q]) <= 0)
  }

  /** The child that the loop compares with: the greater one. */
  ghost predicate Greater<T(!new)>(s: seq<T>, b: nat, r: nat, c: nat, n: nat, cmp: (T, T) -> int) {
    && b + n <= |s| && IsChild(r, c) && c < n
    && (2 * r + 1 < n ==> cmp(s[b + 2 * r + 1], s[b + c]) <= 0)
    && (2 * r + 2 < n ==> cmp(s[b + 2 * r + 2], s[b + c]) <= 0)
  }

  lemma SiftStart<T(!new)>(s: seq<T>, b: nat, r: nat, n: nat, cmp: (T, T) -> int)
    requires HeapFrom(s, b, r + 1, n, cmp)
    ensures HeapBut(s, b, r, r, n, cmp)
  {
  }

  /** After a swap with child `c`, every other node is above its child `d`. */
  lemma SiftParent<T(!new)>(s: seq<T>, b: nat, k: nat, r: nat, c: nat, n: nat, cmp: (T, T) -> int, q: nat, d: nat)
    requires Preorder(cmp) && HeapBut(s, b, k, r, n, cmp) && Greater(s, b, r, c, n, cmp) && cmp(s[b + r], s[b + c]) <= 0
    requires k <= q && q != c && IsChild(q, d) && d < n
    ensures b + n <= |s| && r < c < n
    ensures var t := s[b + r := s[b + c]][b + c := s[b + r]]; cmp(t[b + d], t[b + q]) <= 0
  {
    hide Preorder;
    assert r < c && IsChild(r, c) && q < d;
    if d == c {
      assert q == r;
    } else if q == r {
      assert cmp(s[b + d], s[b + c]) <= 0;
    } else if d == r {
      assert IsChild(q, r);
    } else {
      assert cmp(s[b + d], s[b + q]) <= 0;
    }
  }

  lemma SiftStep<T(!new)>(s: seq<T>, b: nat, k: nat, r: nat, c: nat, n: nat, cmp: (T, T) -> int)
    requires Preorder(cmp) && HeapBut(s, b, k, r, n, cmp) && Greater(s, b, r, c, n, cmp) && cmp(s[b + r], s[b + c]) <= 0
    ensures HeapBut(s[b + r := s[b + c]][b + c := s[b + r]], b, k, c, n, cmp)
  {
    var t := s[b + r := s[b + c]][b + c := s[b + r]];
    forall q: nat, d: nat | k <= q && q != c && IsChild(q, d) && d < n
      ensures cmp(t[b + d], t[b + q]) <= 0
    {
      SiftParent(s, b, k, r, c, n, cmp, q, d);
    }
    hide Preorder, Greater;
    forall q: nat, d: nat | k <= q && IsChild(q, c) && IsChild(c, d) && d < n
      ensures cmp(t[b + d], t[b + q]) <= 0
    {
      assert q == r && t[b + d] == s[b + d] && t[b + r] == s[b + c];
    }
  }

  lemma SiftEnd<T(!new)>(s: seq<T>, b: nat, k: nat, r: nat, c: nat, n: nat, cmp: (T, T) -> int)
    requires Preorder(cmp) && HeapBut(s, b, k, r, n, cmp)
    requires n <= 2 * r + 1 || (Greater(s, b, r, c, n, cmp) && cmp(s[b + r], s[b + c]) > 0)
    ensures HeapFrom(s, b, k, n, cmp)
  {
    if 2 * r + 1 < n {
      assert cmp(s[b + c], s[b + r]) <= 0;
    }
  }

  method GreaterChild<T(!new)>(a: array<T>, b: nat, r: nat, n: nat, cmp: (T, T) -> int) returns (c: nat)
    requires b + n <= a.Length && 2 * r + 1 < n
    ensures IsChild(r, c) && c < n
    ensures Preorder(cmp) ==> Greater(a[..], b, r, c, n, cmp)
  {
    c := 2 * r + 1;
    if c < n - 1 && cmp(a[b + c], a[b + c + 1]) <= 0 {
      c := c + 1;
    }
  }

  /** The inner loop, which heapsortx contains twice. */
  method Sift<T(!new)>(a: array<T>, b: nat, k: nat, n: nat, cmp: (T, T) -> int)
    requires k < n && b + n <= a.Length
    modifies a
    ensures Shuffled(old(a[..]), a[..], b, b + n)
    ensures Preorder(cmp) && HeapFrom(old(a[..]), b, k + 1, n, cmp) ==> HeapFrom(a[..], b, k, n, cmp)
  {
    hide Shuffled, Preorder, HeapFrom, HeapBut, Greater;
    ghost var sorting := Preorder(cmp) && HeapFrom(a[..], b, k + 1, n, cmp);
    if sorting { SiftStart(a[..], b, k, n, cmp); }
    ShuffledSelf(a[..], b, b + n);
    var r, done := k, false;
    while !done && 2 * r + 1 < n
      invariant k <= r < n && Shuffled(old(a[..]), a[..], b, b + n)
      invariant sorting ==> if done then HeapFrom(a[..], b, k, n, cmp) else HeapBut(a[..], b, k, r, n, cmp)
      decreases n - r, !done
    {
      ghost var s := a[..];
      var c := SiftOnce(a, b, k, r, n, cmp, sorting);
      ShuffledTrans(old(a[..]), s, a[..], b, b + n);
      if c == r {
        done := true;
      }
      r := c;
    }
    if sorting && !done { SiftEnd(a[..], b, k, r, 0, n, cmp); }
  }

  /** One round: the next index, or the same one when the loop is left. */
  method SiftOnce<T(!new)>(a: array<T>, b: nat, k: nat, r: nat, n: nat, cmp: (T, T) -> int, ghost sorting: bool)
    returns (c: nat)
    requires k <= r && 2 * r + 1 < n && b + n <= a.Length
    requires sorting ==> Preorder(cmp) && HeapBut(a[..], b, k, r, n, cmp)
    modifies a
    ensures r <= c < n && Shuffled(old(a[..]), a[..], b, b + n)
    ensures sorting ==> if c == r then HeapFrom(a[..], b, k, n, cmp) else HeapBut(a[..], b, k, c, n, cmp)
  {
    hide Shuffled, Preorder, HeapFrom, HeapBut, Greater;
    c := GreaterChild(a, b, r, n, cmp);
    if cmp(a[b + r], a[b + c]) > 0 {
      ShuffledSelf(a[..], b, b + n);
      if sorting { SiftEnd(a[..], b, k, r, c, n, cmp); }
      return r;
    }
    if sorting { SiftStep(a[..], b, k, r, c, n, cmp); }
    Swap(a, b + r, b + c, b, b + n);
  }

  // ----- the second phase -----------------------------------------------------------

  /** A heap of the `m` least elements, followed by the others in order. */
  ghost predicate HalfSorted<T(!new)>(s: seq<T>, b: nat, m: nat, n: nat, cmp: (T, T) -> int) {
    && m <= n && HeapFrom(s, b, 0, m, cmp) && b + n <= |s| && Ordered(s, b + m, b + n, cmp)
    && Below(s, b, m, n, cmp)
  }

  /** The first `m` elements are not above the others. */
  ghost predicate Below<T(!new)>(s: seq<T>, b: nat, m: nat, n: nat, cmp: (T, T) -> int) {
    forall k, l :: b <= k < b + m <= l < b + n <= |s| ==> cmp(s[k], s[l]) <= 0
  }

  lemma {:induction false} RootIsMax<T(!new)>(s: seq<T>, b: nat, k: nat, m: nat, cmp: (T, T) -> int)
    requires Preorder(cmp) && HeapFrom(s, b, 0, m, cmp) && k < m
    ensures cmp(s[b + k], s[b]) <= 0
    decreases k
  {
    if k == 0 {
      assert cmp(s[b], s[b]) > 0 <==> cmp(s[b], s[b]) < 0;
    } else {
      var q := (k - 1) / 2;
      assert IsChild(q, k);
      RootIsMax(s, b, q, m, cmp);
    }
  }

  lemma RootSwapped<T(!new)>(s: seq<T>, t: seq<T>, b: nat, m: nat, n: nat, cmp: (T, T) -> int)
    requires Preorder(cmp) && HalfSorted(s, b, m, n, cmp) && 1 < m
    requires t == s[b := s[b + m - 1]][b + m - 1 := s[b]]
    ensures HeapFrom(t, b, 1, m - 1, cmp) && Ordered(t, b + m - 1, b + n, cmp) && Below(t, b, m - 1, n, cmp)
  {
    assert forall r: nat, c: nat :: IsChild(r, c) && c < m - 1 && 1 <= r ==>
           t[b + r] == s[b + r] && t[b + c] == s[b + c];
    forall k | b <= k < b + m - 1
      ensures cmp(t[k], t[b + m - 1]) <= 0
    {
      RootIsMax(s, b, if k == b then m - 1 else k - b, m, cmp);
    }
  }

  /** The elements below `b + m` may be permuted. */
  lemma RestKept<T(!new)>(t: seq<T>, u: seq<T>, b: nat, m: nat, n: nat, cmp: (T, T) -> int)
    requires Shuffled(t, u, b, b + m) && m <= n && b + n <= |t| && Ordered(t, b + m, b + n, cmp)
    requires Below(t, b, m, n, cmp)
    ensures Ordered(u, b + m, b + n, cmp) && Below(u, b, m, n, cmp)
  {
    ShuffledFrom(t, u, b, b + m);
    forall k, l | b <= k < b + m <= l < b + n
      ensures cmp(u[k], u[l]) <= 0
    {
      assert u[k] in t[b..b + m];
    }
  }

  method Heapsortx<T(!new)>(a: array<T>, b: nat, nmemb: nat, cmp: (T, T) -> int)
    requires b + nmemb <= a.Length
    modifies a
    ensures Shuffled(old(a[..]), a[..], b, b + nmemb)
    ensures Preorder(cmp) ==> Ordered(a[..], b, b + nmemb, cmp)
  {
    hide Shuffled, Preorder, HeapFrom, HalfSorted, Ordered;
    ShuffledSelf(a[..], b, b + nmemb);
    OrderedOne(a[..], b, if nmemb <= 1 then b + nmemb else b, cmp);
    if nmemb > 1 {
      MakeHeap(a, b, nmemb, cmp);
      var i := nmemb - 1;
      if Preorder(cmp) { HeapReady(a[..], b, nmemb, cmp); }
      while i > 0
        invariant i < nmemb && Shuffled(old(a[..]), a[..], b, b + nmemb)
        invariant Preorder(cmp) ==> HalfSorted(a[..], b, i + 1, nmemb, cmp)
      {
        ghost var s := a[..];
        TakeRoot(a, b, i, nmemb, cmp);
        ShuffledTrans(old(a[..]), s, a[..], b, b + nmemb);
        i := i - 1;
      }
      if Preorder(cmp) { AllSorted(a[..], b, nmemb, cmp); }
    }
  }

  lemma HeapReady<T(!new)>(s: seq<T>, b: nat, n: nat, cmp: (T, T) -> int)
    requires HeapFrom(s, b, 0, n, cmp)
    ensures HalfSorted(s, b, n, n, cmp)
  {
  }

  lemma AllSorted<T(!new)>(s: seq<T>, b: nat, n: nat, cmp: (T, T) -> int)
    requires HalfSorted(s, b, 1, n, cmp)
    ensures Ordered(s, b, b + n, cmp)
  {
  }

  lemma LeavesAreHeap<T(!new)>(s: seq<T>, b: nat, n: nat, cmp: (T, T) -> int)
    requires b + n <= |s|
    ensures HeapFrom(s, b, n / 2, n, cmp)
  {
  }

  method MakeHeap<T(!new)>(a: array<T>, b: nat, n: nat, cmp: (T, T) -> int)
    requires n > 1 && b + n <= a.Length
    modifies a
    ensures Shuffled(old(a[..]), a[..], b, b + n)
    ensures Preorder(cmp) ==> HeapFrom(a[..], b, 0, n, cmp)
  {
    hide Shuffled, Preorder, HeapFrom;
    ShuffledSelf(a[..], b, b + n);
    LeavesAreHeap(a[..], b, n, cmp);
    var i: nat := n / 2;
    while i > 0
      invariant i <= n / 2 && Shuffled(old(a[..]), a[..], b, b + n)
      invariant Preorder(cmp) ==> HeapFrom(a[..], b, i, n, cmp)
    {
      i := i - 1;
      ghost var s := a[..];
      Sift(a, b, i, n, cmp);
      ShuffledTrans(old(a[..]), s, a[..], b, b + n);
    }
  }

  lemma RootTaken<T(!new)>(t: seq<T>, u: seq<T>, b: nat, i: nat, n: nat, cmp: (T, T) -> int)
    requires i <= n && b + n <= |t| && Shuffled(t, u, b, b + i)
    requires HeapFrom(u, b, 0, i, cmp) && Ordered(t, b + i, b + n, cmp) && Below(t, b, i, n, cmp)
    ensures HalfSorted(u, b, i, n, cmp)
  {
    assert |u| == |t|;
    hide HeapFrom, Ordered, Shuffled, Below;
    RestKept(t, u, b, i, n, cmp);
  }

  /** One round of the second loop. */
  method TakeRoot<T(!new)>(a: array<T>, b: nat, i: nat, n: nat, cmp: (T, T) -> int)
    requires 0 < i < n && b + n <= a.Length
    modifies a
    ensures Shuffled(old(a[..]), a[..], b, b + n)
    ensures Preorder(cmp) && HalfSorted(old(a[..]), b, i + 1, n, cmp) ==> HalfSorted(a[..], b, i, n, cmp)
  {
    hide Shuffled, Preorder, HeapFrom, Ordered, HalfSorted, Below;
    ghost var s := a[..];
    ghost var sorting := Preorder(cmp) && HalfSorted(s, b, i + 1, n, cmp);
    Swap(a, b, b + i, b, b + n);
    ghost var t := a[..];
    Sift(a, b, 0, i, cmp);
    if sorting {
      RootSwapped(s, t, b, i + 1, n, cmp);
      RootTaken(t, a[..], b, i, n, cmp);
    }
    ShuffledWider(t, a[..], b, b + i, b, b + n);
    ShuffledTrans(s, t, a[..], b, b + n);
  }
}
