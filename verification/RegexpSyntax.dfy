/** Patterns in the shape in which the parser meets them: alternatives made of
    terms, terms made of an atom and perhaps a quantifier. */
module RegexpSyntax {
  import opened RegexpSemantics
  import opened RegexpClass
  import opened RegexpCompiler
  import opened RegexpStringList

  datatype Disjunction = Disjunction(alts: seq<Alternative>)

  datatype Alternative = Alternative(terms: seq<Term>)

  datatype Term = Term(atom: Atom, quant: Option<Quantifier>)

  /** The parser's quant_min and quant_max; INT32_MAX stands for infinity. */
  datatype Quantifier = Quantifier(min: nat, max: nat, greedy: bool)

  /** `Test` is anything that is one piece of code: a character test, an
      assertion or a back reference. `Strings` is a class that contains strings,
      in the order of its hash table. */
  datatype Atom =
    | Test(n: Node)
    | Strings(strings: seq<Text>, cr: Intervals)
    | Capture(body: Disjunction)
    | NonCapture(body: Disjunction)
    | Lookaround(behind: bool, negative: bool, body: Disjunction)

  function BoundOf(max: nat): Bound {
    if max == INT32_MAX then Infinite else Finite(max)
  }

  function AtomNode(a: Atom): Node {
    match a
    case Test(n) => n
    case Strings(strings, cr) => StringsNode(strings, cr)
    case Capture(d) => Node.Group(DisjunctionNode(d))
    case NonCapture(d) => DisjunctionNode(d)
    case Lookaround(behind, negative, d) => Look(behind, negative, DisjunctionNode(d))
  }

  function TermNode(t: Term): Node {
    if t.quant.None? then AtomNode(t.atom)
    else Quant(AtomNode(t.atom), t.quant.value.min, BoundOf(t.quant.value.max), t.quant.value.greedy)
  }

  function TermsNode(ts: seq<Term>): Node {
    if ts == [] then Empty else Cat(TermsNode(ts[..|ts| - 1]), TermNode(ts[|ts| - 1]))
  }

  /** `a|b|c` means (a|b)|c, which is how the splits are nested. */
  function AltsNode(alts: seq<Alternative>): Node {
    if |alts| == 0 then Empty
    else if |alts| == 1 then TermsNode(alts[0].terms)
    else Alt(AltsNode(alts[..|alts| - 1]), TermsNode(alts[|alts| - 1].terms))
  }

  function DisjunctionNode(d: Disjunction): Node {
    AltsNode(d.alts)
  }

  predicate IsTest(n: Node) {
    IsCharTest(n) || n.Assert? || n.BackRef?
  }

  /** What the parser guarantees of the tree it walks through. String lists in a
      lookbehind are not part of the model. */
  ghost predicate ParsedAtom(a: Atom, ngroups: nat, back: bool) {
    match a
    case Test(n) => IsTest(n) && Parsed(n, ngroups)
    case Strings(strings, cr) =>
      !back && Once(strings) && Sorted(cr) && forall s, k :: s in strings && 0 <= k < |s| ==> s[k] < 0x11_0000
    case Capture(d) => ParsedDisjunction(d, ngroups, back)
    case NonCapture(d) => ParsedDisjunction(d, ngroups, back)
    case Lookaround(behind, _, d) => ParsedDisjunction(d, ngroups, behind)
  }

  ghost predicate ParsedTerm(t: Term, ngroups: nat, back: bool) {
    ParsedAtom(t.atom, ngroups, back) && (t.quant.Some? ==> t.quant.value.min <= t.quant.value.max <= INT32_MAX)
  }

  ghost predicate ParsedDisjunction(d: Disjunction, ngroups: nat, back: bool) {
    d.alts != [] && forall i, j :: 0 <= i < |d.alts| && 0 <= j < |d.alts[i].terms| ==>
      ParsedTerm(d.alts[i].terms[j], ngroups, back)
  }

  /** No string list anywhere. */
  ghost predicate NoLists(a: Atom) {
    match a
    case Test(_) => true
    case Strings(_, _) => false
    case Capture(d) => NoListsIn(d)
    case NonCapture(d) => NoListsIn(d)
    case Lookaround(_, _, d) => NoListsIn(d)
  }

  ghost predicate NoListsIn(d: Disjunction) {
    forall i, j :: 0 <= i < |d.alts| && 0 <= j < |d.alts[i].terms| ==> NoLists(d.alts[i].terms[j].atom)
  }

  lemma TermsPrefix(ts: seq<Term>, i: nat)
    requires i < |ts|
    ensures TermsNode(ts[..i + 1]) == Cat(TermsNode(ts[..i]), TermNode(ts[i]))
  {
    assert ts[..i + 1][..i] == ts[..i];
  }

  lemma AltsPrefix(alts: seq<Alternative>, i: nat)
    requires 0 < i < |alts|
    ensures AltsNode(alts[..i + 1]) == Alt(AltsNode(alts[..i]), TermsNode(alts[i].terms))
  {
    assert alts[..i + 1][..i] == alts[..i];
  }

  lemma {:induction false} TermsGroups(ts: seq<Term>, i: nat)
    requires i <= |ts|
    ensures Groups(TermsNode(ts[..i])) <= Groups(TermsNode(ts))
    decreases |ts| - i
  {
    if i < |ts| {
      TermsPrefix(ts, i);
      TermsGroups(ts, i + 1);
    } else {
      assert ts[..i] == ts;
    }
  }

  lemma {:induction false} AltsGroups(alts: seq<Alternative>, i: nat)
    requires 0 < i <= |alts|
    ensures Groups(AltsNode(alts[..i])) <= Groups(AltsNode(alts))
    decreases |alts| - i
  {
    if i < |alts| {
      AltsPrefix(alts, i);
      AltsGroups(alts, i + 1);
    } else {
      assert alts[..i] == alts;
    }
  }

  /** One more term. */
  lemma NextTerm(ts: seq<Term>, i: nat)
    requires i < |ts|
    ensures TermsNode(ts[..i + 1]) == Cat(TermsNode(ts[..i]), TermNode(ts[i]))
    ensures Groups(TermsNode(ts[..i])) + Groups(TermNode(ts[i]))
            == Groups(TermsNode(ts[..i + 1])) <= Groups(TermsNode(ts))
  {
    hide TermNode;
    TermsPrefix(ts, i);
    TermsGroups(ts, i + 1);
  }

  /** One more alternative. */
  lemma NextAlternative(d: Disjunction, i: nat, ngroups: nat, back: bool)
    requires 0 < i < |d.alts| && ParsedDisjunction(d, ngroups, back)
    ensures var n, left, right := DisjunctionNode(d), AltsNode(d.alts[..i]), TermsNode(d.alts[i].terms);
            && AltsNode(d.alts[..i + 1]) == Alt(left, right)
            && Groups(left) + Groups(right) == Groups(Alt(left, right)) <= Groups(n)
    ensures forall j :: 0 <= j < |d.alts[i].terms| ==> ParsedTerm(d.alts[i].terms[j], ngroups, back)
    ensures NoListsIn(d) ==> forall j :: 0 <= j < |d.alts[i].terms| ==> NoLists(d.alts[i].terms[j].atom)
  {
    hide TermsNode;
    AltsPrefix(d.alts, i);
    AltsGroups(d.alts, i + 1);
  }

  lemma FirstAlternative(d: Disjunction, ngroups: nat, back: bool)
    requires ParsedDisjunction(d, ngroups, back)
    ensures d.alts != [] && AltsNode(d.alts[..1]) == TermsNode(d.alts[0].terms)
            && Groups(AltsNode(d.alts[..1])) <= Groups(DisjunctionNode(d))
    ensures forall j :: 0 <= j < |d.alts[0].terms| ==> ParsedTerm(d.alts[0].terms[j], ngroups, back)
    ensures NoListsIn(d) ==> forall j :: 0 <= j < |d.alts[0].terms| ==> NoLists(d.alts[0].terms[j].atom)
  {
    hide TermsNode;
    AltsGroups(d.alts, 1);
  }
}
