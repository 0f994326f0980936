/** What the emitter may write for a node: the code of a node that the compiler
    treats alike and that matches alike. The two differ only in the order of
    strings of the same length. */
module RegexpRealizes {
  import opened RegexpInput
  import opened RegexpSemantics
  import opened RegexpClass
  import opened RegexpCompiler
  import opened RegexpEquivalence
  import opened RegexpCapped
  import opened RegexpProgram
  import opened RegexpStringList

  ghost predicate Realizes(n: Node, n1: Node, back: bool, ngroups: nat) {
    && Parsed(n1, ngroups) && Groups(n1) == Groups(n) && NoStop(n1) == NoStop(n)
    && Advances(n1, back) == Advances(n, back) && Regs(n1, back) == Regs(n, back)
    && forall inp: Input :: Equivalent(inp, Capped(n, back), Capped(n1, back), back)
  }

  lemma Alike(inp: Input, n: Node, n1: Node, back: bool, ngroups: nat)
    requires Realizes(n, n1, back, ngroups)
    ensures Equivalent(inp, Capped(n, back), Capped(n1, back), back)
  {
  }

  lemma RealizedFacts(n: Node, n1: Node, back: bool, ngroups: nat)
    requires Realizes(n, n1, back, ngroups)
    ensures Parsed(n1, ngroups) && Groups(n1) == Groups(n) && Regs(n1, back) == Regs(n, back)
  {
  }

  lemma RealizesItself(n: Node, back: bool, ngroups: nat)
    requires Parsed(n, ngroups)
    ensures Realizes(n, n, back, ngroups)
  {
    hide Equivalent, Capped;
    forall inp: Input
      ensures Equivalent(inp, Capped(n, back), Capped(n, back), back)
    {
      EquivalentItself(inp, Capped(n, back), back);
    }
  }

  lemma CatRealizes(n: Node, n1: Node, back: bool, ngroups: nat)
    requires n.Cat? && n1.Cat? && Realizes(n.first, n1.first, back, ngroups)
             && Realizes(n.second, n1.second, back, ngroups)
    ensures Realizes(n, n1, back, ngroups)
  {
    forall inp: Input
      ensures Equivalent(inp, Capped(n, back), Capped(n1, back), back)
    {
      hide Equivalent, Realizes;
      Alike(inp, n.first, n1.first, back, ngroups);
      Alike(inp, n.second, n1.second, back, ngroups);
      CatEquivalent(inp, Capped(n, back), Capped(n1, back), back);
    }
    hide Equivalent, Capped;
  }

  lemma AltRealizes(n: Node, n1: Node, back: bool, ngroups: nat)
    requires n.Alt? && n1.Alt? && Realizes(n.left, n1.left, back, ngroups) && Realizes(n.right, n1.right, back, ngroups)
    ensures Realizes(n, n1, back, ngroups)
  {
    forall inp: Input
      ensures Equivalent(inp, Capped(n, back), Capped(n1, back), back)
    {
      hide Equivalent, Realizes;
      Alike(inp, n.left, n1.left, back, ngroups);
      Alike(inp, n.right, n1.right, back, ngroups);
      AltEquivalent(inp, Capped(n, back), Capped(n1, back), back);
    }
    hide Equivalent, Capped;
  }

  lemma GroupRealizes(n: Node, n1: Node, back: bool, ngroups: nat)
    requires n.Group? && n1.Group? && Realizes(n.body, n1.body, back, ngroups)
    ensures Realizes(n, n1, back, ngroups)
  {
    forall inp: Input
      ensures Equivalent(inp, Capped(n, back), Capped(n1, back), back)
    {
      hide Equivalent, Realizes;
      Alike(inp, n.body, n1.body, back, ngroups);
      GroupEquivalent(inp, Capped(n, back), Capped(n1, back), back);
    }
    hide Equivalent, Capped;
  }

  lemma LookRealizes(n: Node, n1: Node, back: bool, ngroups: nat)
    requires n.Look? && n1.Look? && n.behind == n1.behind && n.negative == n1.negative
    requires Realizes(n.body, n1.body, n.behind, ngroups)
    ensures Realizes(n, n1, back, ngroups)
  {
    forall inp: Input
      ensures Equivalent(inp, Capped(n, back), Capped(n1, back), back)
    {
      hide Equivalent, Realizes;
      Alike(inp, n.body, n1.body, n.behind, ngroups);
      LookEquivalent(inp, Capped(n, back), Capped(n1, back), back);
    }
    hide Equivalent, Capped;
  }

  lemma QuantRealizes(n: Node, n1: Node, back: bool, ngroups: nat)
    requires n.Quant? && n1.Quant? && n.min == n1.min && n.max == n1.max && n.greedy == n1.greedy
    requires Realizes(n.body, n1.body, back, ngroups) && n.min <= IntMax(n.max) <= INT32_MAX
    ensures Realizes(n, n1, back, ngroups)
  {
    assert ShapeOf(n.body, n.min, n.max, back) == ShapeOf(n1.body, n.min, n.max, back);
    forall inp: Input
      ensures Equivalent(inp, Capped(n, back), Capped(n1, back), back)
    {
      hide Equivalent, ShapeOf, Realizes;
      Alike(inp, n.body, n1.body, back, ngroups);
      QuantEquivalent(inp, Capped(n, back), Capped(n1, back), back);
    }
    hide Equivalent, Capped, ShapeOf;
  }

  // ----- string lists -----------------------------------------------------------------

  lemma {:induction false} TextFacts(s: Text, ngroups: nat)
    requires forall k :: 0 <= k < |s| ==> s[k] < 0x11_0000
    ensures Parsed(TextNode(s), ngroups) && Groups(TextNode(s)) == 0 && Regs(TextNode(s), false) == 0
    ensures Capped(TextNode(s), false) == TextNode(s)
  {
    if s != [] {
      TextFacts(s[..|s| - 1], ngroups);
    }
  }

  ghost predicate ShortChars(ss: seq<Text>) {
    forall i, k :: 0 <= i < |ss| && 0 <= k < |ss[i]| ==> ss[i][k] < 0x11_0000
  }

  lemma {:induction false} ChoiceFacts(ss: seq<Text>, tail: Node, ngroups: nat)
    requires ShortChars(ss) && Parsed(tail, ngroups) && Groups(tail) == 0 && Regs(tail, false) == 0
    requires Capped(tail, false) == tail
    ensures var n := Choice(ss, tail);
            Parsed(n, ngroups) && Groups(n) == 0 && Regs(n, false) == 0 && Capped(n, false) == n
  {
    hide TextNode;
    if ss != [] {
      TextFacts(ss[0], ngroups);
      ChoiceFacts(ss[1..], tail, ngroups);
    }
  }

  lemma ListFacts(sorted: seq<Text>, hasEmpty: bool, cr: Intervals, ngroups: nat)
    requires ShortChars(sorted) && Sorted(cr)
    ensures var n := ListNode(sorted, hasEmpty, cr);
            Parsed(n, ngroups) && Groups(n) == 0 && Regs(n, false) == 0 && Capped(n, false) == n
  {
    hide TextNode, Choice;
    if Closed(sorted, hasEmpty, cr) {
      TextFacts(sorted[|sorted| - 1], ngroups);
    }
    ChoiceFacts(Forked(sorted, hasEmpty, cr), Tail(sorted, hasEmpty, cr), ngroups);
  }

  /** With two strings or a fork the list is a choice; otherwise there is only one
      way to write it. */
  lemma SameStart(sorted: seq<Text>, sorted1: seq<Text>, hasEmpty: bool, cr: Intervals)
    requires multiset(sorted) == multiset(sorted1)
    ensures var n, n1 := ListNode(sorted, hasEmpty, cr), ListNode(sorted1, hasEmpty, cr);
            NoStop(n) == NoStop(n1) && Advances(n, false) == Advances(n1, false)
  {
    hide TextNode;
    assert |sorted| == |multiset(sorted)| == |sorted1|;
    if |sorted| == 1 {
      assert sorted[0] in multiset(sorted);
      assert sorted[0] in multiset(sorted1);
      assert sorted == sorted1;
    }
  }

  lemma CharsAnyOrder(ss: seq<Text>, sorted: seq<Text>)
    requires Arranged(ss, sorted) && forall s, k :: s in ss && 0 <= k < |s| ==> s[k] < 0x11_0000
    ensures ShortChars(sorted)
  {
    NonEmptyMembers(ss);
    SameMembers(sorted, NonEmpty(ss));
    forall i, k | 0 <= i < |sorted| && 0 <= k < |sorted[i]|
      ensures sorted[i][k] < 0x11_0000
    {
      assert sorted[i] in sorted;
    }
  }

  /** Whatever order the emitter finds, it writes the pattern of the list. */
  lemma StringsRealize(strings: seq<Text>, cr: Intervals, sorted: seq<Text>, ngroups: nat)
    requires Once(strings) && Arranged(strings, sorted) && Sorted(cr)
    requires forall s, k :: s in strings && 0 <= k < |s| ==> s[k] < 0x11_0000
    ensures Realizes(StringsNode(strings, cr), ListNode(sorted, [] in strings, cr), false, ngroups)
  {
    var sorted0 := SortByLength(NonEmpty(strings));
    SortArranged(strings);
    CharsAnyOrder(strings, sorted);
    CharsAnyOrder(strings, sorted0);
    SameStart(sorted0, sorted, [] in strings, cr);
    ListFacts(sorted, [] in strings, cr, ngroups);
    ListFacts(sorted0, [] in strings, cr, ngroups);
    hide ListNode, Capped, Parsed, Groups, Regs, Advances, NoStop, Arranged;
    forall inp: Input
      ensures Equivalent(inp, ListNode(sorted0, [] in strings, cr), ListNode(sorted, [] in strings, cr), false)
    {
      AnyOrder(inp, strings, cr, sorted0, sorted);
    }
  }

  lemma AnyOrder(inp: Input, strings: seq<Text>, cr: Intervals, sorted: seq<Text>, sorted1: seq<Text>)
    requires Once(strings) && Arranged(strings, sorted) && Arranged(strings, sorted1)
    requires Groups(ListNode(sorted, [] in strings, cr)) == Groups(ListNode(sorted1, [] in strings, cr)) == 0
    ensures Equivalent(inp, ListNode(sorted, [] in strings, cr), ListNode(sorted1, [] in strings, cr), false)
  {
    hide ListNode, Match, Groups, Arranged, Once;
    var n, n1 := ListNode(sorted, [] in strings, cr), ListNode(sorted1, [] in strings, cr);
    forall base: nat, x: St | ValidSt(inp, x) && base + Groups(n) <= |x.caps|
      ensures Match(inp, n, base, false, x) == Match(inp, n1, base, false, x)
    {
      OrderIrrelevant(inp, strings, sorted, sorted1, cr, base, x);
    }
  }

  // ----- programs -----------------------------------------------------------------------

  /** The program of one is as good as the program of the other. */
  lemma {:induction false} FindRealized(inp: Input, n: Node, n1: Node, ngroups: nat, sticky: bool, p: nat)
    requires Realizes(n, n1, false, ngroups) && p <= |inp.units|
    ensures Find(inp, Capped(n1, false), sticky, p) == Find(inp, Capped(n, false), sticky, p)
    decreases |inp.units| - p
  {
    var c, c1 := Capped(n, false), Capped(n1, false);
    Alike(inp, n, n1, false, ngroups);
    SameGroups(n, false);
    SameGroups(n1, false);
    GroupEquivalent(inp, Group(c), Group(c1), false);
    GroupCount(c);
    hide Match, Capped, Groups, Equivalent, Realizes;
    EquivalentAt(inp, Group(c), Group(c1), 0, false, St(p, NoCaps(1 + Groups(c))));
    if !sticky && p < |inp.units| {
      FindRealized(inp, n, n1, ngroups, sticky, Next(inp, p, |inp.units|));
    }
  }
}
