/** The emission of a string list. While it is written, the jumps to the end
    are not known yet: each jump's operand holds the position of the operand
    before it, and the chain is resolved at the end. */
module RegexpStringEmitter {
  import opened RegexpSemantics
  import opened RegexpInstr
  import opened RegexpBytecode
  import opened RegexpClass
  import opened RegexpCompiler
  import opened RegexpLayout
  import opened RegexpEmitter
  import opened RegexpStringList
  import Sorting
  import Rqsort

  function TextBytes(s: Text, base: nat): seq<byte> {
    Raw(TextNode(s), base, false)
  }

  /** A string that is not the last: a fork, its characters, and a jump. */
  function Entry(s: Text, base: nat, link: int): (r: seq<byte>)
    ensures |r| == |TextBytes(s, base)| + 10
  {
    ([OP_SPLIT_NEXT_FIRST] + Put32(|TextBytes(s, base)| + 5)) + TextBytes(s, base) + [OP_GOTO] + Put32(link)
  }

  /** The position of the operand of the last jump, or the end of the chain. */
  function Link(linked: seq<byte>, at: nat): int {
    if linked == [] then -1 else at + |linked| - 4
  }

  /** The strings with their jumps chained backward; the code starts at `at`. */
  function Linked(ss: seq<Text>, base: nat, at: nat): (r: seq<byte>)
    ensures ss == [] <==> r == []
    ensures ss != [] ==> |r| >= 10
  {
    if ss == [] then []
    else
      var before := Linked(ss[..|ss| - 1], base, at);
      before + Entry(ss[|ss| - 1], base, Link(before, at))
  }

  /** The strings with every jump leading to the end of the list. */
  function Resolved(ss: seq<Text>, base: nat, tail: seq<byte>): (r: seq<byte>) {
    if ss == [] then tail
    else
      var rest := Resolved(ss[1..], base, tail);
      Entry(ss[0], base, |rest|) + rest
  }

  /** The resolved code is the code of nested alternatives. */
  lemma {:induction false} ResolvedIs(ss: seq<Text>, base: nat, tail: Node)
    ensures Raw(Choice(ss, tail), base, false) == Resolved(ss, base, Raw(tail, base, false))
  {
    hide Raw, Entry, TextNode;
    if ss != [] {
      ResolvedIs(ss[1..], base, tail);
      TextGroups(ss[0]);
      EntryIs(ss[0], Choice(ss[1..], tail), base);
    }
  }

  lemma EntryIs(s: Text, n: Node, base: nat)
    requires Groups(TextNode(s)) == 0
    ensures Raw(Alt(TextNode(s), n), base, false) == Entry(s, base, |Raw(n, base, false)|) + Raw(n, base, false)
  {
    hide Raw, Put32, TextNode;
    OrBytes(TextNode(s), n, base, false);
  }

  // ----- room: how many bytes a list takes, in any order ------------------------

  function Total(ss: seq<Text>, base: nat): nat {
    if ss == [] then 0 else |TextBytes(ss[0], base)| + 10 + Total(ss[1..], base)
  }

  lemma {:induction false} TotalAppend(a: seq<Text>, b: seq<Text>, base: nat)
    ensures Total(a + b, base) == Total(a, base) + Total(b, base)
  {
    hide TextBytes;
    if a == [] {
      assert a + b == b;
    } else {
      assert (a + b)[1..] == a[1..] + b;
      TotalAppend(a[1..], b, base);
    }
  }

  lemma TotalOne(s: Text, base: nat)
    ensures Total([s], base) == |TextBytes(s, base)| + 10
  {
    assert [s][1..] == [];
  }

  lemma TotalWithout(b: seq<Text>, k: nat, base: nat)
    requires k < |b|
    ensures Total(b, base) == Total([b[k]], base) + Total(b[..k] + b[k + 1..], base)
  {
    hide Total;
    assert b == b[..k] + ([b[k]] + b[k + 1..]);
    TotalAppend(b[..k], [b[k]] + b[k + 1..], base);
    TotalAppend([b[k]], b[k + 1..], base);
    TotalAppend(b[..k], b[k + 1..], base);
  }

  lemma Without(b: seq<Text>, k: nat)
    requires k < |b|
    ensures multiset(b) == multiset{b[k]} + multiset(b[..k] + b[k + 1..])
  {
    assert b == b[..k] + ([b[k]] + b[k + 1..]);
  }

  lemma SameRest(a: seq<Text>, b: seq<Text>, k: nat)
    requires multiset(a) == multiset(b) && a != [] && k < |b| && b[k] == a[0]
    ensures multiset(a[1..]) == multiset(b[..k] + b[k + 1..])
  {
    assert a[..0] + a[1..] == a[1..];
    Without(a, 0);
    Without(b, k);
    SameDifference(multiset{a[0]}, multiset(a[1..]), multiset(b[..k] + b[k + 1..]));
  }

  lemma SameDifference(m: multiset<Text>, x: multiset<Text>, y: multiset<Text>)
    requires m + x == m + y
    ensures x == y
  {
    assert x == m + x - m && y == m + y - m;
  }

  lemma Found(a: seq<Text>, b: seq<Text>) returns (k: nat)
    requires multiset(a) == multiset(b) && a != []
    ensures k < |b| && b[k] == a[0]
  {
    assert a[0] in multiset(a);
    assert a[0] in multiset(b);
    k :| k < |b| && b[k] == a[0];
  }

  lemma {:induction false} TotalShuffled(a: seq<Text>, b: seq<Text>, base: nat)
    requires multiset(a) == multiset(b)
    ensures Total(a, base) == Total(b, base)
    decreases |a|
  {
    hide Total;
    if a == [] {
      assert |multiset(b)| == 0;
      assert b == [];
    } else {
      var k := Found(a, b);
      SameRest(a, b, k);
      TotalShuffled(a[1..], b[..k] + b[k + 1..], base);
      assert a[..0] + a[1..] == a[1..];
      TotalWithout(a, 0, base);
      TotalWithout(b, k, base);
    }
  }

  lemma {:induction false} LinkedSize(ss: seq<Text>, base: nat, at: nat)
    ensures |Linked(ss, base, at)| == Total(ss, base)
  {
    hide TextBytes, Entry;
    if ss != [] {
      var init, last := ss[..|ss| - 1], ss[|ss| - 1];
      LinkedSize(init, base, at);
      assert ss == init + [last];
      TotalAppend(init, [last], base);
      TotalOne(last, base);
    }
  }

  // ----- writing ----------------------------------------------------------------

  /** re_emit_char for every character. */
  method EmitText(e: Emitter, s: Text, ghost base: nat, ghost ngroups: nat)
    requires forall k :: 0 <= k < |s| ==> s[k] < 0x11_0000
    modifies e`buf
    ensures e.buf == old(e.buf) + TextBytes(s, base)
  {
    hide TextBytes, CharInstr, Encode;
    var j := 0;
    assert s[..0] == [];
    assert TextBytes([], base) == [] by { EmptyText(base); }
    while j < |s|
      invariant 0 <= j <= |s|
      invariant e.buf == old(e.buf) + TextBytes(s[..j], base)
    {
      CharAppended(s, j, base);
      e.EmitCharTest(Char(s[j]), ngroups);
      j := j + 1;
    }
    assert s[..j] == s;
  }

  lemma EmptyText(base: nat)
    ensures TextBytes([], base) == []
  {
  }

  lemma CharAppended(s: Text, j: nat, base: nat)
    requires j < |s|
    ensures TextBytes(s[..j + 1], base) == TextBytes(s[..j], base) + Encode(CharInstr(Char(s[j])))
  {
    hide Raw, CharInstr;
    assert s[..j + 1][..j] == s[..j];
    CatBytes(TextNode(s[..j]), Char(s[j]), base, false);
    TextGroups(s[..j]);
    TestBytes(Char(s[j]), base, false);
  }

  /** A string with its fork and a jump that is linked to the jump before it. */
  method EmitEntry(e: Emitter, s: Text, link: int, ghost base: nat, ghost ngroups: nat) returns (pos: nat)
    requires forall k :: 0 <= k < |s| ==> s[k] < 0x11_0000
    modifies e`buf
    ensures e.buf == old(e.buf) + Entry(s, base, link) && pos == |e.buf| - 4
  {
    hide TextBytes, Put32;
    var split := e.EmitOpU32(OP_SPLIT_NEXT_FIRST, 0);
    EmitText(e, s, base, ngroups);
    pos := e.EmitOpU32(OP_GOTO, link);
    ghost var pre := old(e.buf) + [OP_SPLIT_NEXT_FIRST];
    assert e.buf == pre + Put32(0) + TextBytes(s, base) + [OP_GOTO] + Put32(link);
    assert e.buf[..split] == pre;
    e.Patch(split, |e.buf| - (split + 4));
    assert e.buf == pre + Put32(|TextBytes(s, base)| + 5) + TextBytes(s, base) + [OP_GOTO] + Put32(link);
  }

  lemma RestBytes(hasEmpty: bool, cr: Intervals, base: nat)
    requires Sorted(cr)
    ensures Raw(Class(cr), base, false) == Encode(ClassInstr(cr))
    ensures Raw(Rest(hasEmpty, cr), base, false)
         == if cr == [] then []
            else if hasEmpty then [OP_SPLIT_NEXT_FIRST] + Put32(|Encode(ClassInstr(cr))|) + Encode(ClassInstr(cr))
            else Encode(ClassInstr(cr))
  {
    hide Encode, EncodeAll, Put32, ClassInstr;
    assert Proper(cr) && CharInstr(Class(cr)) == ClassInstr(cr);
    TestBytes(Class(cr), base, false);
    if cr == [] {
      EmptyBytes(base, false);
    } else if hasEmpty {
      OptionalBytesAre(cr, base);
    }
  }

  lemma OptionalBytesAre(cr: Intervals, base: nat)
    requires Sorted(cr)
    ensures var i := ClassInstr(cr);
            Raw(Quant(Class(cr), 0, Finite(1), true), base, false)
              == [OP_SPLIT_NEXT_FIRST] + Put32(|Encode(i)|) + Encode(i)
  {
    hide EncodeAll, Put32, ClassInstr, Encode, SizeAll, SplitLoop;
    var n, i := Quant(Class(cr), 0, Finite(1), true), ClassInstr(cr);
    assert Proper(cr) && CharInstr(Class(cr)) == i;
    assert ShapeOf(Class(cr), 0, Finite(1), false) == Split(false, false);
    CodeOfQuant(n, base, false, 0, false);
    var code := SplitLoop([i], false, false, true, 0, false);
    assert LoopAtom(Class(cr), base, false, 0, false) == [i];
    assert Code(n, base, false, 0, false) == [] + code == code;
    SplitBytes([i], false, false, true);
    OptionalEncoded(false, ISetPos(0));
    OptionalEncoded(false, ICheckAdv(0));
    EncodeOne(i);
    assert SizeAll([i]) == Size(i) by { OneSize(i); }
    SplitEncoding(Size(i));
    var none: seq<byte> := [];
    assert EncodeAll(code) == Encode(ISplit(true, Size(i))) + (none + (Encode(i) + (none + none)));
  }

  lemma OneSize(i: Instr)
    ensures SizeAll([i]) == Size(i)
  {
    assert [i][1..] == [];
  }

  lemma SplitEncoding(off: int)
    ensures Encode(ISplit(true, off)) == [OP_SPLIT_NEXT_FIRST] + Put32(off)
  {
  }

  method EmitRest(e: Emitter, hasEmpty: bool, cr: Intervals, ghost base: nat)
    requires Sorted(cr)
    modifies e`buf
    ensures e.buf == old(e.buf) + Raw(Rest(hasEmpty, cr), base, false)
  {
    hide Raw, Put32, ClassInstr, Encode;
    RestBytes(hasEmpty, cr, base);
    if cr != [] {
      var split := 0;
      if hasEmpty {
        split := e.EmitOpU32(OP_SPLIT_NEXT_FIRST, 0);
      }
      ghost var head := e.buf;
      e.EmitRange(cr);
      if hasEmpty {
        assert e.buf[..split] == old(e.buf) + [OP_SPLIT_NEXT_FIRST];
        e.Patch(split, |e.buf| - (split + 4));
      }
    }
  }

  // ----- the chain of jumps -----------------------------------------------------

  /** The last jump of the chain: where it is, what it holds, and what becomes of
      the code when it is resolved. */
  lemma LastJump(pre: seq<byte>, ss: seq<Text>, base: nat, rest: seq<byte>)
    requires ss != [] && |pre + Linked(ss, base, |pre|) + rest| < TWO31
    ensures var buf, at := pre + Linked(ss, base, |pre|) + rest, |pre|;
            var init, pos := ss[..|ss| - 1], Link(Linked(ss, base, at), at);
            && 0 <= pos && pos + 4 <= |buf|
            && Signed(Get32(buf, pos)) == Link(Linked(init, base, at), at)
            && buf[..pos] + Put32(|rest|) + buf[pos + 4..]
               == pre + Linked(init, base, at) + (Entry(ss[|ss| - 1], base, |rest|) + rest)
            && |buf| - (pos + 4) == |rest|
  {
    hide TextBytes, Put32;
    var at, last := |pre|, ss[|ss| - 1];
    var before := Linked(ss[..|ss| - 1], base, at);
    var link := Link(before, at);
    var head := pre + before
      + (([OP_SPLIT_NEXT_FIRST] + Put32(|TextBytes(last, base)| + 5)) + TextBytes(last, base) + [OP_GOTO]);
    var buf := pre + Linked(ss, base, at) + rest;
    hide Linked;
    JumpPatched(head, link, rest);
    assert Linked(ss, base, at) == before + Entry(last, base, link) by { LinkedLast(ss, base, at); }
    assert buf == head + Put32(link) + rest;
    assert head + Put32(|rest|) + rest == pre + before + (Entry(last, base, |rest|) + rest);
  }

  lemma LinkedLast(ss: seq<Text>, base: nat, at: nat)
    requires ss != []
    ensures var before := Linked(ss[..|ss| - 1], base, at);
            Linked(ss, base, at) == before + Entry(ss[|ss| - 1], base, Link(before, at))
  {
  }

  lemma JumpPatched(head: seq<byte>, link: int, rest: seq<byte>)
    requires FitsJump(link)
    ensures var buf, pos := head + Put32(link) + rest, |head|;
            && Signed(Get32(buf, pos)) == link
            && buf[..pos] + Put32(|rest|) + buf[pos + 4..] == head + Put32(|rest|) + rest
  {
    hide Put32;
    var buf, pos := head + Put32(link) + rest, |head|;
    assert buf[pos..pos + 4] == Put32(link);
    Get32Put32(buf, pos, link);
    assert buf[..pos] == head && buf[pos + 4..] == rest;
  }

  /** The first `k` jumps are still chained; the others lead to the end. */
  ghost predicate Chained(pre: seq<byte>, buf: seq<byte>, ss: seq<Text>, k: nat, base: nat, tail: seq<byte>, link: int)
    requires k <= |ss|
  {
    && buf == pre + Linked(ss[..k], base, |pre|) + Resolved(ss[k..], base, tail)
    && link == Link(Linked(ss[..k], base, |pre|), |pre|)
  }

  lemma JumpResolved(pre: seq<byte>, buf: seq<byte>, ss: seq<Text>, k: nat, base: nat, tail: seq<byte>, link: int)
    requires k <= |ss| && Chained(pre, buf, ss, k, base, tail, link) && link != -1 && |buf| < TWO31
    ensures k > 0 && 0 <= link && link + 4 <= |buf|
    ensures Chained(pre, buf[..link] + Put32(|buf| - (link + 4)) + buf[link + 4..], ss, k - 1, base, tail,
                    Signed(Get32(buf, link)))
  {
    hide Entry, Put32, Get32, Linked, Signed, Resolved, Link;
    assert k > 0 by { NoLink(ss[..k], base, |pre|); }
    assert ss[..k][..k - 1] == ss[..k - 1] && ss[k - 1..][1..] == ss[k..] && ss[k - 1..][0] == ss[k - 1];
    LastJump(pre, ss[..k], base, Resolved(ss[k..], base, tail));
    ResolvedFirst(ss[k - 1..], base, tail);
  }

  lemma ResolvedFirst(ss: seq<Text>, base: nat, tail: seq<byte>)
    requires ss != []
    ensures var rest := Resolved(ss[1..], base, tail);
            Resolved(ss, base, tail) == Entry(ss[0], base, |rest|) + rest
  {
  }

  lemma NoLink(ss: seq<Text>, base: nat, at: nat)
    ensures ss == [] <==> Link(Linked(ss, base, at), at) == -1
  {
    hide Entry;
  }

  lemma AllResolved(pre: seq<byte>, buf: seq<byte>, ss: seq<Text>, k: nat, base: nat, tail: seq<byte>, link: int)
    requires k <= |ss| && Chained(pre, buf, ss, k, base, tail, link) && link == -1
    ensures buf == pre + Resolved(ss, base, tail)
  {
    hide Entry, Linked, Resolved;
    NoLink(ss[..k], base, |pre|);
    assert ss[k..] == ss;
    assert Linked([], base, |pre|) == [] by { NothingLinked(base, |pre|); }
  }

  lemma NothingLinked(base: nat, at: nat)
    ensures Linked([], base, at) == []
  {
  }

  /** Walk the chain backward: every jump ends up leading to the end. */
  method ResolveJumps(e: Emitter, last: int, ghost pre: seq<byte>, ghost ss: seq<Text>, ghost base: nat,
                      ghost tail: seq<byte>)
    requires e.buf == pre + Linked(ss, base, |pre|) + tail && |e.buf| < TWO31
    requires last == Link(Linked(ss, base, |pre|), |pre|)
    modifies e`buf
    ensures e.buf == pre + Resolved(ss, base, tail)
  {
    hide Chained, Linked, Entry, Put32, Get32, Link, Raw;
    var lastMatchPos := last;
    ghost var k := |ss|;
    assert Chained(pre, e.buf, ss, k, base, tail, last) by { AllChained(pre, ss, base, tail); }
    while lastMatchPos != -1
      invariant 0 <= k <= |ss| && |e.buf| < TWO31
      invariant Chained(pre, e.buf, ss, k, base, tail, lastMatchPos)
      decreases k
    {
      JumpResolved(pre, e.buf, ss, k, base, tail, lastMatchPos);
      var nextPos := Signed(Get32(e.buf, lastMatchPos));
      e.Patch(lastMatchPos, |e.buf| - (lastMatchPos + 4));
      k := k - 1;
      lastMatchPos := nextPos;
    }
    AllResolved(pre, e.buf, ss, k, base, tail, lastMatchPos);
  }

  lemma AllChained(pre: seq<byte>, ss: seq<Text>, base: nat, tail: seq<byte>)
    ensures var linked := Linked(ss, base, |pre|);
            Chained(pre, pre + linked + tail, ss, |ss|, base, tail, Link(linked, |pre|))
  {
    hide Linked, Entry, Link;
    assert ss[..|ss|] == ss && ss[|ss|..] == [];
  }

  // ----- the list ---------------------------------------------------------------

  /** The strings in the order of the hash table, without the empty one. */
  method CollectStrings(strings: seq<Text>) returns (tab: array<Text>, n: nat, hasEmpty: bool)
    ensures fresh(tab) && n <= tab.Length && tab[..n] == NonEmpty(strings)
    ensures hasEmpty <==> [] in strings
  {
    tab := new Text[|strings|];
    n, hasEmpty := 0, false;
    var i := 0;
    while i < |strings|
      invariant n <= i <= |strings| && tab[..n] == NonEmpty(strings[..i])
      invariant hasEmpty <==> [] in strings[..i]
    {
      assert strings[..i + 1][..i] == strings[..i];
      var p := strings[i];
      if |p| == 0 {
        hasEmpty := true;
      } else {
        tab[n] := p;
        n := n + 1;
      }
      i := i + 1;
    }
    assert strings[..i] == strings;
  }

  lemma LengthsPreorder()
    ensures Sorting.Preorder(CompareLengths)
  {
  }

  /** The strings sorted by length. */
  method SortStrings(strings: seq<Text>) returns (tab: array<Text>, n: nat, hasEmpty: bool)
    ensures fresh(tab) && n <= tab.Length && Arranged(strings, tab[..n])
    ensures hasEmpty <==> [] in strings
  {
    tab, n, hasEmpty := CollectStrings(strings);
    ghost var before := tab[..];
    Rqsort.Rqsort(tab, n, CompareLengths);
    LengthsPreorder();
    Sorting.ShuffledParts(before, tab[..], 0, n);
    assert before[0..n] == NonEmpty(strings) && tab[..][0..n] == tab[..n];
    forall i, j | 0 <= i < j < n
      ensures |tab[..n][i]| >= |tab[..n][j]|
    {
      assert CompareLengths(tab[..][i], tab[..][j]) <= 0;
    }
  }

  /** What is known while the strings are being written: `i` of them are. */
  ghost predicate Written(pre: seq<byte>, buf: seq<byte>, sorted: seq<Text>, i: nat, closed: bool, base: nat, link: int)
    requires i <= |sorted|
  {
    var open := if closed && i == |sorted| && i > 0 then i - 1 else i;
    && buf == pre + Linked(sorted[..open], base, |pre|) + (if open < i then TextBytes(sorted[open], base) else [])
    && link == Link(Linked(sorted[..open], base, |pre|), |pre|)
  }

  lemma EntryWritten(pre: seq<byte>, buf: seq<byte>, sorted: seq<Text>, i: nat, closed: bool, base: nat, link: int)
    requires i < |sorted| && Written(pre, buf, sorted, i, closed, base, link) && (closed ==> i + 1 < |sorted|)
    ensures var buf1 := buf + Entry(sorted[i], base, link);
            Written(pre, buf1, sorted, i + 1, closed, base, |buf1| - 4)
  {
    hide Entry, TextBytes, Linked;
    assert sorted[..i + 1][..i] == sorted[..i];
    LinkedLast(sorted[..i + 1], base, |pre|);
  }

  lemma TextWritten(pre: seq<byte>, buf: seq<byte>, sorted: seq<Text>, i: nat, base: nat, link: int)
    requires i + 1 == |sorted| && Written(pre, buf, sorted, i, true, base, link)
    ensures Written(pre, buf + TextBytes(sorted[i], base), sorted, i + 1, true, base, link)
  {
    hide Entry, TextBytes, Linked;
  }

  /** The strings of a list in their order; the last one may end the code. */
  method EmitStrings(e: Emitter, tab: array<Text>, n: nat, closed: bool, ghost base: nat, ghost ngroups: nat)
    returns (link: int)
    requires n <= tab.Length && forall i, k :: 0 <= i < n && 0 <= k < |tab[i]| ==> tab[i][k] < 0x11_0000
    modifies e`buf
    ensures Written(old(e.buf), e.buf, tab[..n], n, closed, base, link)
  {
    hide Written, Entry, TextBytes;
    link := -1;
    var i := 0;
    ghost var sorted := tab[..n];
    NothingWritten(e.buf, sorted, closed, base);
    while i < n
      invariant 0 <= i <= n && sorted == tab[..n]
      invariant Written(old(e.buf), e.buf, sorted, i, closed, base, link)
    {
      ghost var before := e.buf;
      if closed && i == n - 1 {
        TextWritten(old(e.buf), before, sorted, i, base, link);
        EmitText(e, tab[i], base, ngroups);
      } else {
        EntryWritten(old(e.buf), before, sorted, i, closed, base, link);
        link := EmitEntry(e, tab[i], link, base, ngroups);
      }
      i := i + 1;
    }
  }

  lemma NothingWritten(pre: seq<byte>, sorted: seq<Text>, closed: bool, base: nat)
    ensures Written(pre, pre, sorted, 0, closed, base, -1)
  {
    assert sorted[..0] == [];
  }

  /** The bytes a list takes, not counting what follows its strings. */
  function StringBytes(strings: seq<Text>, base: nat): nat {
    Total(NonEmpty(strings), base)
  }

  lemma {:induction false} CharsKept(strings: seq<Text>, sorted: seq<Text>)
    requires Arranged(strings, sorted)
    requires forall s, k :: s in strings && 0 <= k < |s| ==> s[k] < 0x11_0000
    ensures forall i, k :: 0 <= i < |sorted| && 0 <= k < |sorted[i]| ==> sorted[i][k] < 0x11_0000
  {
    NonEmptyMembers(strings);
    SameMembers(sorted, NonEmpty(strings));
    forall i, k | 0 <= i < |sorted| && 0 <= k < |sorted[i]|
      ensures sorted[i][k] < 0x11_0000
    {
      assert sorted[i] in sorted;
    }
  }

  /** re_emit_string_list: whatever order the hash table has, the code is that
      of nested alternatives, longest string first. */
  method EmitStringList(e: Emitter, strings: seq<Text>, cr: Intervals, ghost base: nat, ghost ngroups: nat)
    returns (ghost sorted: seq<Text>)
    requires Sorted(cr) && forall s, k :: s in strings && 0 <= k < |s| ==> s[k] < 0x11_0000
    requires |e.buf| + StringBytes(strings, base) + |Encode(ClassInstr(cr))| + 5 < TWO31
    modifies e`buf
    ensures Arranged(strings, sorted)
    ensures e.buf == old(e.buf) + Raw(ListNode(sorted, [] in strings, cr), base, false)
  {
    hide Raw, Encode, ClassInstr, Arranged, Linked, TextBytes, Resolved, Total;
    if |strings| == 0 {
      sorted := [];
      NoStrings(cr, base);
      e.EmitRange(cr);
      return;
    }
    ghost var pre := e.buf;
    var tab, n, hasEmpty := SortStrings(strings);
    sorted := tab[..n];
    CharsKept(strings, sorted);
    assert forall i :: 0 <= i < n ==> sorted[i] == tab[i];
    var closed := !hasEmpty && |cr| == 0;
    var lastMatchPos := EmitStrings(e, tab, n, closed, base, ngroups);
    ghost var head := e.buf;
    EmitRest(e, hasEmpty, cr, base);
    SomeString(strings, sorted);
    ListWritten(pre, head, e.buf, strings, sorted, cr, base, lastMatchPos);
    ghost var forked, tail := Forked(sorted, hasEmpty, cr), Tail(sorted, hasEmpty, cr);
    ResolveJumps(e, lastMatchPos, pre, forked, base, Raw(tail, base, false));
    ResolvedIs(forked, base, tail);
  }

  lemma NoStrings(cr: Intervals, base: nat)
    requires Sorted(cr)
    ensures Arranged([], [])
    ensures Raw(ListNode([], false, cr), base, false) == Encode(ClassInstr(cr))
  {
    RestBytes(false, cr, base);
  }

  lemma SomeString(strings: seq<Text>, sorted: seq<Text>)
    requires strings != [] && Arranged(strings, sorted)
    ensures sorted != [] || [] in strings
  {
    NonEmptyMembers(strings);
    SameMembers(sorted, NonEmpty(strings));
    assert strings[0] in strings;
  }

  /** Everything is written, and the chain of jumps is still to be resolved. */
  lemma ListWritten(pre: seq<byte>, head: seq<byte>, buf: seq<byte>, strings: seq<Text>, sorted: seq<Text>,
                    cr: Intervals, base: nat, link: int)
    requires Sorted(cr) && Arranged(strings, sorted) && (sorted != [] || [] in strings)
    requires |pre| + StringBytes(strings, base) + |Encode(ClassInstr(cr))| + 5 < TWO31
    requires Written(pre, head, sorted, |sorted|, [] !in strings && cr == [], base, link)
    requires buf == head + Raw(Rest([] in strings, cr), base, false)
    ensures var hasEmpty := [] in strings;
            var linked := Linked(Forked(sorted, hasEmpty, cr), base, |pre|);
            && buf == pre + linked + Raw(Tail(sorted, hasEmpty, cr), base, false)
            && link == Link(linked, |pre|) && |buf| < TWO31
  {
    hide Raw, Encode, ClassInstr, Linked, Total, Put32, Arranged, NonEmpty;
    var hasEmpty, closed := [] in strings, [] !in strings && cr == [];
    var forked, linked := Forked(sorted, hasEmpty, cr), Linked(Forked(sorted, hasEmpty, cr), base, |pre|);
    assert sorted[..|sorted|] == sorted;
    RestBytes(hasEmpty, cr, base);
    LinkedSize(forked, base, |pre|);
    assert Total(sorted, base) == StringBytes(strings, base) by { ArrangedTotal(strings, sorted, base); }
    if closed {
      var last := sorted[|sorted| - 1];
      assert sorted == forked + [last];
      TotalAppend(forked, [last], base);
      TotalOne(last, base);
      assert head == pre + linked + TextBytes(last, base);
    } else {
      assert head == pre + linked;
    }
  }

  lemma ArrangedTotal(strings: seq<Text>, sorted: seq<Text>, base: nat)
    requires Arranged(strings, sorted)
    ensures Total(sorted, base) == StringBytes(strings, base)
  {
    hide Total;
    TotalShuffled(sorted, NonEmpty(strings), base);
  }
}
