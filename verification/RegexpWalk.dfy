/** The walk over a pattern: the parser's three mutually recursive functions, as
    far as they emit code. Each is proved to append the code of a node that
    realizes the part of the pattern it was given. */
module RegexpWalk {
  import opened RegexpSemantics
  import opened RegexpBytecode
  import opened RegexpClass
  import opened RegexpCompiler
  import opened RegexpLayout
  import opened RegexpSyntax
  import opened RegexpEmitter
  import opened RegexpRealizes
  import opened RegexpStringList
  import opened RegexpStringEmitter

  /** The emitter and the error of its buffer, which is noticed when everything
      has been written. */
  class Walker {
    const e: Emitter
    var full: bool

    constructor (e: Emitter)
      ensures this.e == e && !full
    {
      this.e := e;
      full := false;
    }

    /** Writes a string list, unless it does not fit into 2^31 bytes. */
    method EmitList(strings: seq<Text>, cr: Intervals, ghost ngroups: nat) returns (ghost n1: Node)
      requires ParsedAtom(Strings(strings, cr), ngroups, false)
      modifies e`buf, this
      ensures old(full) ==> full
      ensures !full ==> e.buf == old(e.buf) + Raw(n1, e.captureCount, false)
      ensures Realizes(StringsNode(strings, cr), n1, false, ngroups)
    {
      hide Raw, Realizes, Arranged, StringBytes, Encode, ClassInstr, ListNode;
      ghost var sorted := SortByLength(NonEmpty(strings));
      SortArranged(strings);
      if |e.buf| + StringBytes(strings, e.captureCount) + |Encode(ClassInstr(cr))| + 5 < TWO31 {
        sorted := EmitStringList(e, strings, cr, e.captureCount, ngroups);
      } else {
        full := true;
      }
      n1 := ListNode(sorted, [] in strings, cr);
      StringsRealize(strings, cr, sorted, ngroups);
    }

    /** Emits an atom; fails exactly when there are too many groups. */
    method EmitAtom(a: Atom, back: bool, ghost ngroups: nat) returns (ok: bool, ghost n1: Node)
      requires ParsedAtom(a, ngroups, back) && e.captureCount <= CAPTURE_COUNT_MAX
               && e.captureCount + Groups(AtomNode(a)) <= ngroups
      modifies e, this
      ensures ok <==> old(e.captureCount) + Groups(AtomNode(a)) <= CAPTURE_COUNT_MAX
      ensures ok ==> e.captureCount == old(e.captureCount) + Groups(AtomNode(a))
      ensures old(full) ==> full
      ensures NoLists(a) ==> full == old(full) && (ok ==> n1 == AtomNode(a))
      ensures ok ==> Realizes(AtomNode(a), n1, back, ngroups)
      ensures ok && !full ==> e.buf == old(e.buf) + Raw(n1, old(e.captureCount), back)
      decreases a
    {
      hide Encode, EncodeAll, Raw, Put8, Put32, Parsed, Realizes, StringsNode;
      ghost var base := e.captureCount;
      match a
      case Test(n) =>
        e.EmitTest(n, base, back, ngroups);
        ok, n1 := true, n;
        TestGroups(n);
        RealizesItself(n, back, ngroups);
      case Strings(strings, cr) =>
        n1 := EmitList(strings, cr, ngroups);
        ok := true;
        StringsGroups(strings, cr, ngroups);
      case NonCapture(d) => ok, n1 := EmitDisjunction(d, back, ngroups);
      case Capture(d) =>
        ok, n1 := EmitCapture(d, back, ngroups);
      case Lookaround(behind, negative, d) =>
        ok, n1 := EmitLook(d, behind, negative, back, ngroups);
    }

    method EmitCapture(d: Disjunction, back: bool, ghost ngroups: nat) returns (ok: bool, ghost n1: Node)
      requires ParsedDisjunction(d, ngroups, back) && e.captureCount <= CAPTURE_COUNT_MAX
               && e.captureCount + 1 + Groups(DisjunctionNode(d)) <= ngroups
      modifies e, this
      ensures ok <==> old(e.captureCount) + 1 + Groups(DisjunctionNode(d)) <= CAPTURE_COUNT_MAX
      ensures ok ==> e.captureCount == old(e.captureCount) + 1 + Groups(DisjunctionNode(d))
      ensures old(full) ==> full
      ensures NoListsIn(d) ==> full == old(full) && (ok ==> n1 == Node.Group(DisjunctionNode(d)))
      ensures ok ==> Realizes(Node.Group(DisjunctionNode(d)), n1, back, ngroups)
      ensures ok && !full ==> e.buf == old(e.buf) + Raw(n1, old(e.captureCount), back)
      decreases d, 1
    {
      hide Encode, EncodeAll, Raw, Put8, Put32, Parsed, Realizes;
      ghost var base := e.captureCount;
      n1 := Empty;
      if e.captureCount >= CAPTURE_COUNT_MAX {
        return false, n1;
      }
      var captureIndex := e.captureCount;
      e.captureCount := e.captureCount + 1;
      e.EmitOpU8(if back then OP_SAVE_END else OP_SAVE_START, captureIndex);
      ghost var b1;
      ok, b1 := EmitDisjunction(d, back, ngroups);
      if ok {
        e.EmitOpU8(if back then OP_SAVE_START else OP_SAVE_END, captureIndex);
        n1 := Node.Group(b1);
        CaptureBytes(b1, base, back);
        GroupRealizes(Node.Group(DisjunctionNode(d)), n1, back, ngroups);
      }
    }

    method EmitLook(d: Disjunction, behind: bool, negative: bool, back: bool, ghost ngroups: nat)
      returns (ok: bool, ghost n1: Node)
      requires ParsedDisjunction(d, ngroups, behind) && e.captureCount <= CAPTURE_COUNT_MAX
               && e.captureCount + Groups(DisjunctionNode(d)) <= ngroups
      modifies e, this
      ensures ok <==> old(e.captureCount) + Groups(DisjunctionNode(d)) <= CAPTURE_COUNT_MAX
      ensures ok ==> e.captureCount == old(e.captureCount) + Groups(DisjunctionNode(d))
      ensures old(full) ==> full
      ensures NoListsIn(d) ==> full == old(full) && (ok ==> n1 == Look(behind, negative, DisjunctionNode(d)))
      ensures ok ==> Realizes(Look(behind, negative, DisjunctionNode(d)), n1, back, ngroups)
      ensures ok && !full ==> e.buf == old(e.buf) + Raw(n1, old(e.captureCount), back)
      decreases d, 1
    {
      hide Encode, EncodeAll, Raw, Put8, Put32, Parsed, Realizes;
      ghost var base := e.captureCount;
      n1 := Empty;
      var pos := e.EmitOpU32(if negative then OP_LOOKAHEAD + 1 else OP_LOOKAHEAD, 0);
      ghost var b1;
      ok, b1 := EmitDisjunction(d, behind, ngroups);
      if ok {
        n1 := Look(behind, negative, b1);
        LookRealizes(Look(behind, negative, DisjunctionNode(d)), n1, back, ngroups);
        if !full {
          e.EmitOp(if negative then OP_LOOKAHEAD_MATCH + 1 else OP_LOOKAHEAD_MATCH);
          e.Patch(pos, |e.buf| - (pos + 4));
          LookBytes(b1, base, behind, negative, back);
        }
      }
    }

    method EmitTerm(t: Term, back: bool, ghost ngroups: nat) returns (ok: bool, ghost n1: Node)
      requires ParsedTerm(t, ngroups, back) && e.captureCount <= CAPTURE_COUNT_MAX
               && e.captureCount + Groups(TermNode(t)) <= ngroups
      modifies e, this
      ensures ok <==> old(e.captureCount) + Groups(TermNode(t)) <= CAPTURE_COUNT_MAX
      ensures ok ==> e.captureCount == old(e.captureCount) + Groups(TermNode(t))
      ensures old(full) ==> full
      ensures NoLists(t.atom) ==> full == old(full) && (ok ==> n1 == TermNode(t))
      ensures ok ==> Realizes(TermNode(t), n1, back, ngroups)
      ensures ok && !full ==> e.buf == old(e.buf) + Raw(n1, old(e.captureCount), back)
      decreases t, 0
    {
      hide Raw, Parsed, Realizes;
      var lastAtomStart, lastCaptureCount := |e.buf|, e.captureCount;
      ok, n1 := EmitAtom(t.atom, back, ngroups);
      if ok && t.quant.Some? {
        var q := t.quant.value;
        ghost var b1 := n1;
        n1 := Quant(b1, q.min, BoundOf(q.max), q.greedy);
        QuantRealizes(TermNode(t), n1, back, ngroups);
        RealizedFacts(AtomNode(t.atom), b1, back, ngroups);
        if !full {
          assert e.buf[lastAtomStart..] == Raw(b1, lastCaptureCount, back);
          e.EmitQuantifier(lastAtomStart, lastCaptureCount, q, b1, back, ngroups);
        }
      }
    }

    /** In a lookbehind each new term is rotated in front of the earlier ones. */
    method EmitAlternative(a: Alternative, back: bool, ghost ngroups: nat) returns (ok: bool, ghost n1: Node)
      requires forall j :: 0 <= j < |a.terms| ==> ParsedTerm(a.terms[j], ngroups, back)
      requires e.captureCount <= CAPTURE_COUNT_MAX && e.captureCount + Groups(TermsNode(a.terms)) <= ngroups
      modifies e, this
      ensures ok <==> old(e.captureCount) + Groups(TermsNode(a.terms)) <= CAPTURE_COUNT_MAX
      ensures ok ==> e.captureCount == old(e.captureCount) + Groups(TermsNode(a.terms))
      ensures old(full) ==> full
      ensures (forall j :: 0 <= j < |a.terms| ==> NoLists(a.terms[j].atom)) ==>
        full == old(full) && (ok ==> n1 == TermsNode(a.terms))
      ensures ok ==> Realizes(TermsNode(a.terms), n1, back, ngroups)
      ensures ok && !full ==> e.buf == old(e.buf) + Raw(n1, old(e.captureCount), back)
      decreases a, 0
    {
      hide Raw, Parsed, ParsedTerm, TermNode, TermsNode, Groups, Realizes, NoLists;
      var start, i := |e.buf|, 0;
      n1 := Empty;
      assert Raw(Empty, e.captureCount, back) == [] by { EmptyBytes(e.captureCount, back); }
      NothingRealized(back, ngroups);
      assert a.terms[..0] == [];
      while i < |a.terms|
        invariant 0 <= i <= |a.terms|
        invariant e.captureCount == old(e.captureCount) + Groups(TermsNode(a.terms[..i])) <= CAPTURE_COUNT_MAX
        invariant Realizes(TermsNode(a.terms[..i]), n1, back, ngroups) && (old(full) ==> full)
        invariant (forall j :: 0 <= j < i ==> NoLists(a.terms[j].atom)) ==>
          full == old(full) && n1 == TermsNode(a.terms[..i])
        invariant !full ==> e.buf == old(e.buf) + Raw(n1, old(e.captureCount), back)
      {
        NextTerm(a.terms, i);
        RealizedFacts(TermsNode(a.terms[..i]), n1, back, ngroups);
        ghost var t1;
        ok, t1 := EmitNext(start, a.terms[i], back, ngroups, n1, old(e.captureCount));
        if !ok {
          return;
        }
        n1 := Cat(n1, t1);
        CatRealizes(Cat(TermsNode(a.terms[..i]), TermNode(a.terms[i])), n1, back, ngroups);
        i := i + 1;
      }
      assert a.terms[..i] == a.terms;
      ok := true;
    }

    /** One more term of an alternative that begins at `start`. */
    method EmitNext(start: nat, t: Term, back: bool, ghost ngroups: nat, ghost before: Node, ghost base: nat)
      returns (ok: bool, ghost t1: Node)
      requires ParsedTerm(t, ngroups, back) && e.captureCount <= CAPTURE_COUNT_MAX
               && e.captureCount + Groups(TermNode(t)) <= ngroups
      requires e.captureCount == base + Groups(before)
      requires !full ==> start <= |e.buf| && e.buf[start..] == Raw(before, base, back)
      modifies e, this
      ensures ok <==> old(e.captureCount) + Groups(TermNode(t)) <= CAPTURE_COUNT_MAX
      ensures ok ==> e.captureCount == old(e.captureCount) + Groups(TermNode(t))
      ensures old(full) ==> full
      ensures NoLists(t.atom) ==> full == old(full) && (ok ==> t1 == TermNode(t))
      ensures ok ==> Realizes(TermNode(t), t1, back, ngroups)
      ensures ok && !full ==> e.buf == old(e.buf)[..start] + Raw(Cat(before, t1), base, back)
      decreases t, 1
    {
      hide Raw, Parsed, ParsedTerm, TermNode, Realizes;
      var termStart := |e.buf|;
      ghost var pre, code := if full then [] else e.buf[..start], Raw(before, base, back);
      ok, t1 := EmitTerm(t, back, ngroups);
      if ok && !full {
        ghost var term := Raw(t1, base + Groups(before), back);
        assert e.buf == pre + code + term;
        if back {
          e.buf := e.buf[..start] + e.buf[termStart..] + e.buf[start..termStart];
          assert e.buf == pre + (term + code);
        }
        CatBytes(before, t1, base, back);
      }
    }

    /** Each further alternative puts a fork in front of all the code so far and
        a jump, patched later, behind it. */
    method EmitOr(start: nat, a: Alternative, back: bool, ghost ngroups: nat, ghost left: Node, ghost base: nat)
      returns (ok: bool, ghost right: Node)
      requires forall j :: 0 <= j < |a.terms| ==> ParsedTerm(a.terms[j], ngroups, back)
      requires e.captureCount <= CAPTURE_COUNT_MAX && e.captureCount + Groups(TermsNode(a.terms)) <= ngroups
      requires e.captureCount == base + Groups(left)
      requires !full ==> start <= |e.buf| && e.buf[start..] == Raw(left, base, back)
      modifies e, this
      ensures ok <==> old(e.captureCount) + Groups(TermsNode(a.terms)) <= CAPTURE_COUNT_MAX
      ensures ok ==> e.captureCount == old(e.captureCount) + Groups(TermsNode(a.terms))
      ensures old(full) ==> full
      ensures (forall j :: 0 <= j < |a.terms| ==> NoLists(a.terms[j].atom)) ==>
        full == old(full) && (ok ==> right == TermsNode(a.terms))
      ensures ok ==> Realizes(TermsNode(a.terms), right, back, ngroups)
      ensures ok && !full ==> e.buf == old(e.buf)[..start] + Raw(Alt(left, right), base, back)
      decreases a, 1
    {
      hide Raw, Parsed, ParsedTerm, TermsNode, Put32, Realizes;
      if full {
        ok, right := EmitAlternative(a, back, ngroups);
        return;
      }
      ghost var pre, body := e.buf[..start], e.buf[start..];
      var len := |e.buf| - start;
      e.Insert(start, [OP_SPLIT_NEXT_FIRST] + Put32(len + 5));
      var pos := e.EmitOpU32(OP_GOTO, 0);
      ghost var head := pre + ([OP_SPLIT_NEXT_FIRST] + Put32(len + 5)) + body + [OP_GOTO];
      assert e.buf == head + Put32(0) && pos == |head|;
      ok, right := EmitAlternative(a, back, ngroups);
      if ok && !full {
        ghost var code := Raw(right, base + Groups(left), back);
        len := |e.buf| - (pos + 4);
        e.Patch(pos, len);
        assert e.buf == head + Put32(|code|) + code;
        OrBytes(left, right, base, back);
        Regroup5(pre, [OP_SPLIT_NEXT_FIRST] + Put32(|body| + 5), body, [OP_GOTO], Put32(|code|), code);
      }
    }

    method EmitDisjunction(d: Disjunction, back: bool, ghost ngroups: nat) returns (ok: bool, ghost n1: Node)
      requires ParsedDisjunction(d, ngroups, back) && e.captureCount <= CAPTURE_COUNT_MAX
      requires e.captureCount + Groups(DisjunctionNode(d)) <= ngroups
      modifies e, this
      ensures ok <==> old(e.captureCount) + Groups(DisjunctionNode(d)) <= CAPTURE_COUNT_MAX
      ensures ok ==> e.captureCount == old(e.captureCount) + Groups(DisjunctionNode(d))
      ensures old(full) ==> full
      ensures NoListsIn(d) ==> full == old(full) && (ok ==> n1 == DisjunctionNode(d))
      ensures ok ==> Realizes(DisjunctionNode(d), n1, back, ngroups)
      ensures ok && !full ==> e.buf == old(e.buf) + Raw(n1, old(e.captureCount), back)
      decreases d, 0
    {
      hide Raw, Parsed, ParsedTerm, ParsedDisjunction, TermsNode, AltsNode, Groups, Realizes, NoLists, NoListsIn;
      var start := |e.buf|;
      ghost var pre := e.buf;
      FirstAlternative(d, ngroups, back);
      ok, n1 := EmitAlternative(d.alts[0], back, ngroups);
      if !ok {
        return;
      }
      var i := 1;
      while i < |d.alts|
        invariant 1 <= i <= |d.alts|
        invariant e.captureCount == old(e.captureCount) + Groups(AltsNode(d.alts[..i])) <= CAPTURE_COUNT_MAX
        invariant Realizes(AltsNode(d.alts[..i]), n1, back, ngroups) && (old(full) ==> full)
        invariant NoListsIn(d) ==> full == old(full) && n1 == AltsNode(d.alts[..i])
        invariant !full ==> e.buf == pre + Raw(n1, old(e.captureCount), back)
      {
        NextAlternative(d, i, ngroups, back);
        RealizedFacts(AltsNode(d.alts[..i]), n1, back, ngroups);
        assert !full ==> e.buf[start..] == Raw(n1, old(e.captureCount), back) && e.buf[..start] == pre;
        ghost var right;
        ok, right := EmitOr(start, d.alts[i], back, ngroups, n1, old(e.captureCount));
        if !ok {
          return;
        }
        n1 := Alt(n1, right);
        AltRealizes(Alt(AltsNode(d.alts[..i]), TermsNode(d.alts[i].terms)), n1, back, ngroups);
        i := i + 1;
      }
      assert d.alts[..i] == d.alts;
      ok := true;
    }
  }

  lemma StringsGroups(strings: seq<Text>, cr: Intervals, ngroups: nat)
    requires ParsedAtom(Strings(strings, cr), ngroups, false)
    ensures Groups(StringsNode(strings, cr)) == 0
  {
    hide ListNode, Groups, Arranged;
    var sorted := SortByLength(NonEmpty(strings));
    SortArranged(strings);
    CharsAnyOrder(strings, sorted);
    ListFacts(sorted, [] in strings, cr, ngroups);
  }

  lemma NothingRealized(back: bool, ngroups: nat)
    ensures TermsNode([]) == Empty && Groups(Empty) == 0
    ensures Realizes(TermsNode([]), Empty, back, ngroups)
  {
    RealizesItself(Empty, back, ngroups);
  }
}
