/** removeDotSegments of the bundled uri-js (section 5.2.4 of RFC 3986). */
module DotSegments {
  /** A JavaScript string, as 16-bit units. */
  type Text = seq<nat>

  const SLASH: nat := 0x2F
  const DOT: nat := 0x2E

  /** CR, U+2028 and U+2029, which the dot of the last expression does not match;
      it does match LF, which is listed beside it. */
  predicate IsBreak(c: nat) {
    c == 0x0D || c == 0x2028 || c == 0x2029
  }

  predicate Plain(s: Text) {
    forall i :: 0 <= i < |s| ==> !IsBreak(s[i])
  }

  /** The first slash from `from` on, or the end. */
  function NextSlash(s: Text, from: nat): (e: nat)
    requires from <= |s|
    ensures from <= e <= |s| && (e < |s| ==> s[e] == SLASH)
    ensures forall i :: from <= i < e ==> s[i] != SLASH
    decreases |s| - from
  {
    if from == |s| || s[from] == SLASH then from else NextSlash(s, from + 1)
  }

  function Pop(output: seq<Text>): seq<Text> {
    if output == [] then [] else output[..|output| - 1]
  }

  datatype Outcome = Done(output: seq<Text>) | Throws | Diverges

  /** The loop. When the text up to the next slash has a line break in it, the
      last expression matches nothing, or, after a slash, only the empty string,
      so that the loop goes on forever. */
  function Run(input: Text, output: seq<Text>): Outcome
    decreases |input|
  {
    if input == [] then Done(output)
    else if [DOT, SLASH] <= input then Run(input[2..], output)
    else if [DOT, DOT, SLASH] <= input then Run(input[3..], output)
    else if input == [SLASH, DOT] then Run([SLASH], output)
    else if [SLASH, DOT, SLASH] <= input then Run([SLASH] + input[3..], output)
    else if input == [SLASH, DOT, DOT] then Run([SLASH], Pop(output))
    else if [SLASH, DOT, DOT, SLASH] <= input then Run([SLASH] + input[4..], Pop(output))
    else if input == [DOT] || input == [DOT, DOT] then Run([], output)
    else
      var e := PieceEnd(input);
      if Plain(input[..e]) then Run(input[e..], output + [input[..e]])
      else if input[0] == SLASH then Diverges
      else Throws
  }

  /** Where the next piece ends: it may start with a slash. */
  function PieceEnd(input: Text): (e: nat)
    requires input != []
    ensures 0 < e <= |input|
  {
    if input[0] == SLASH then NextSlash(input, 1) else NextSlash(input, 0)
  }

  function Join(pieces: seq<Text>): Text {
    if pieces == [] then [] else pieces[0] + Join(pieces[1..])
  }

  method RemoveDotSegments(path: Text) returns (r: Outcome)
    ensures r == Run(path, [])
  {
    hide Plain, IsBreak;
    var input, output: seq<Text> := path, [];
    while input != []
      invariant Run(input, output) == Run(path, [])
      decreases |input|
    {
      if [DOT, SLASH] <= input {
        input := input[2..];
      } else if [DOT, DOT, SLASH] <= input {
        input := input[3..];
      } else if input == [SLASH, DOT] {
        input := [SLASH];
      } else if [SLASH, DOT, SLASH] <= input {
        input := [SLASH] + input[3..];
      } else if input == [SLASH, DOT, DOT] {
        input, output := [SLASH], Pop(output);
      } else if [SLASH, DOT, DOT, SLASH] <= input {
        input, output := [SLASH] + input[4..], Pop(output);
      } else if input == [DOT] || input == [DOT, DOT] {
        input := [];
      } else {
        var e := PieceEnd(input);
        if !Plain(input[..e]) {
          return if input[0] == SLASH then Diverges else Throws;
        }
        input, output := input[e..], output + [input[..e]];
      }
    }
    r := Done(output);
  }

  // ----- what the output looks like -------------------------------------------------------

  predicate IsDots(s: Text) {
    s == [DOT] || s == [DOT, DOT]
  }

  predicate NoSlash(s: Text) {
    forall i :: 0 <= i < |s| ==> s[i] != SLASH
  }

  /** A slash and a segment, or at the start a segment alone. */
  predicate IsPiece(p: Text, first: bool) {
    p != [] && if p[0] == SLASH then NoSlash(p[1..]) && !IsDots(p[1..]) else first && NoSlash(p) && !IsDots(p)
  }

  ghost predicate Pieces(ps: seq<Text>) {
    forall i :: 0 <= i < |ps| ==> IsPiece(ps[i], i == 0) && Plain(ps[i])
  }

  /** No segment between slashes is "." or "..". */
  predicate NoDotSegments(s: Text)
    decreases |s|
  {
    var e := NextSlash(s, 0);
    !IsDots(s[..e]) && (e < |s| ==> NoDotSegments(s[e + 1..]))
  }

  lemma PiecesPop(ps: seq<Text>)
    requires Pieces(ps)
    ensures Pieces(Pop(ps))
  {
  }

  /** A piece that the last expression cuts off. */
  lemma NextPiece(input: Text, first: bool)
    requires input != [] && (first || input[0] == SLASH)
    requires !([DOT, SLASH] <= input) && !([DOT, DOT, SLASH] <= input) && input != [DOT] && input != [DOT, DOT]
    requires input != [SLASH, DOT] && !([SLASH, DOT, SLASH] <= input)
    requires input != [SLASH, DOT, DOT] && !([SLASH, DOT, DOT, SLASH] <= input)
    ensures var e := PieceEnd(input); IsPiece(input[..e], first) && (e < |input| ==> input[e] == SLASH)
  {
    var e := PieceEnd(input);
    var p := input[..e];
    if input[0] == SLASH {
      var seg := p[1..];
      assert seg == input[1..e];
      assert |seg| > 0 ==> seg[0] == input[1];
      assert |seg| > 1 ==> seg[1] == input[2];
    } else {
      assert p[0] == input[0];
      assert |p| > 1 ==> p[1] == input[1];
    }
  }

  lemma {:induction false} RunMakesPieces(input: Text, output: seq<Text>)
    requires Pieces(output) && (output == [] || input == [] || input[0] == SLASH)
    ensures Run(input, output).Done? ==> Pieces(Run(input, output).output)
    decreases |input|
  {
    PiecesPop(output);
    if input == [] {
    } else if [DOT, SLASH] <= input {
      RunMakesPieces(input[2..], output);
    } else if [DOT, DOT, SLASH] <= input {
      RunMakesPieces(input[3..], output);
    } else if input == [SLASH, DOT] {
      RunMakesPieces([SLASH], output);
    } else if [SLASH, DOT, SLASH] <= input {
      RunMakesPieces([SLASH] + input[3..], output);
    } else if input == [SLASH, DOT, DOT] {
      RunMakesPieces([SLASH], Pop(output));
    } else if [SLASH, DOT, DOT, SLASH] <= input {
      RunMakesPieces([SLASH] + input[4..], Pop(output));
    } else if input == [DOT] || input == [DOT, DOT] {
      RunMakesPieces([], output);
    } else {
      var e := PieceEnd(input);
      NextPiece(input, output == []);
      if Plain(input[..e]) {
        hide IsPiece, Plain;
        RunMakesPieces(input[e..], output + [input[..e]]);
      }
    }
  }

  // ----- the output has no dot segments and is left alone -----------------------------------

  lemma NextSlashIs(s: Text, from: nat, e: nat)
    requires from <= e <= |s| && (e < |s| ==> s[e] == SLASH) && forall i :: from <= i < e ==> s[i] != SLASH
    ensures NextSlash(s, from) == e
  {
  }

  /** What follows a piece starts with a slash. */
  lemma {:induction false} JoinStarts(ps: seq<Text>)
    requires Pieces(ps)
    ensures if ps == [] then Join(ps) == [] else Join(ps) != [] && Join(ps)[0] == ps[0][0]
  {
  }

  lemma PiecesRest(ps: seq<Text>)
    requires Pieces(ps) && ps != []
    ensures Pieces(ps[1..]) && (|ps| > 1 ==> ps[1][0] == SLASH)
  {
    forall i | 0 <= i < |ps[1..]|
      ensures IsPiece(ps[1..][i], i == 0) && Plain(ps[1..][i])
    {
      assert IsPiece(ps[i + 1], false);
    }
  }

  lemma {:induction false} JoinHasNoDots(ps: seq<Text>)
    requires Pieces(ps)
    ensures NoDotSegments(Join(ps))
    decreases |ps|
  {
    if ps == [] {
    } else {
      var p, rest := ps[0], Join(ps[1..]);
      PiecesRest(ps);
      JoinStarts(ps[1..]);
      JoinHasNoDots(ps[1..]);
      assert IsPiece(p, true);
      if p[0] == SLASH {
        NextSlashIs(p + rest, 0, 0);
        assert (p + rest)[..0] == [] && (p + rest)[1..] == p[1..] + rest;
        SegmentThenRest(p[1..], rest);
      } else {
        SegmentThenRest(p, rest);
      }
    }
  }

  lemma SegmentThenRest(seg: Text, rest: Text)
    requires NoSlash(seg) && !IsDots(seg) && (rest != [] ==> rest[0] == SLASH) && NoDotSegments(rest)
    ensures NoDotSegments(seg + rest)
  {
    var s := seg + rest;
    NextSlashIs(s, 0, |seg|);
    assert s[..|seg|] == seg;
    if rest != [] {
      NextSlashIs(rest, 0, 0);
      assert s[|seg| + 1..] == rest[1..];
    }
  }

  /** Pieces at the front are pushed one after the other. */
  lemma {:induction false} RunPieces(ps: seq<Text>, rest: Text, done: seq<Text>)
    requires Pieces(ps) && (rest != [] ==> rest[0] == SLASH)
    ensures Run(Join(ps) + rest, done) == Run(rest, done + ps)
    decreases |ps|
  {
    hide Run, IsPiece, Plain, Join;
    JoinFirst(ps, rest, done);
    if ps != [] {
      var p, more := ps[0], Join(ps[1..]) + rest;
      assert IsPiece(p, true) && Plain(p);
      PiecesRest(ps);
      hide Pieces;
      JoinStarts(ps[1..]);
      FirstPiece(p, more, done);
      RunPieces(ps[1..], rest, done + [p]);
    }
  }

  lemma JoinFirst(ps: seq<Text>, rest: Text, done: seq<Text>)
    ensures if ps == [] then Join(ps) + rest == rest && done + ps == done
            else Join(ps) + rest == ps[0] + (Join(ps[1..]) + rest) && done + ps == (done + [ps[0]]) + ps[1..]
  {
    if ps == [] {
      assert Join(ps) == [];
    } else {
      var j := Join(ps[1..]);
      assert Join(ps) == ps[0] + j;
      hide Join;
      Regroup(ps[0], j, rest);
      assert ps == [ps[0]] + ps[1..];
      Regroup(done, [ps[0]], ps[1..]);
    }
  }

  lemma Regroup<T>(a: seq<T>, b: seq<T>, c: seq<T>)
    ensures (a + b) + c == a + (b + c)
  {
  }

  /** A piece is taken as it is. */
  lemma FirstPiece(p: Text, rest: Text, done: seq<Text>)
    requires IsPiece(p, true) && Plain(p) && (rest != [] ==> rest[0] == SLASH)
    ensures Run(p + rest, done) == Run(rest, done + [p])
  {
    var s := p + rest;
    if p[0] == SLASH {
      NextSlashIs(s, 1, |p|);
    } else {
      NextSlashIs(s, 0, |p|);
    }
    assert s[..|p|] == p && s[|p|..] == rest;
    NotSpecial(p, rest);
    hide Plain, IsPiece;
  }

  lemma PrefixIs(a: Text, s: Text)
    ensures a <= s ==> |a| <= |s| && forall i :: 0 <= i < |a| ==> s[i] == a[i]
  {
  }

  lemma NotSpecial(p: Text, rest: Text)
    requires IsPiece(p, true) && (rest != [] ==> rest[0] == SLASH)
    ensures var s := p + rest;
            && s != [] && !([DOT, SLASH] <= s) && !([DOT, DOT, SLASH] <= s) && s != [DOT] && s != [DOT, DOT]
            && s != [SLASH, DOT] && !([SLASH, DOT, SLASH] <= s)
            && s != [SLASH, DOT, DOT] && !([SLASH, DOT, DOT, SLASH] <= s)
  {
    var s := p + rest;
    PrefixIs([DOT], s);
    PrefixIs([DOT, DOT], s);
    PrefixIs([DOT, SLASH], s);
    PrefixIs([DOT, DOT, SLASH], s);
    PrefixIs([SLASH, DOT], s);
    PrefixIs([SLASH, DOT, SLASH], s);
    PrefixIs([SLASH, DOT, DOT], s);
    PrefixIs([SLASH, DOT, DOT, SLASH], s);
    assert forall i :: 0 <= i < |rest| ==> s[|p| + i] == rest[i];
    assert s[0] == p[0] && [DOT] != [SLASH] && [DOT][0] != SLASH && [DOT, DOT][0] != SLASH;
    if p[0] == SLASH {
      var seg := p[1..];
      assert |seg| == 1 ==> seg == [seg[0]];
      assert |seg| == 2 ==> seg == [seg[0], seg[1]];
      assert |seg| > 0 ==> s[1] == seg[0] != SLASH;
      assert |seg| > 1 ==> s[2] == seg[1] != SLASH;
      assert |seg| > 2 ==> s[3] == seg[2] != SLASH;
    } else {
      assert |p| == 1 ==> p == [p[0]];
      assert |p| == 2 ==> p == [p[0], p[1]];
      assert s[0] == p[0] != SLASH;
      assert |p| > 1 ==> s[1] == p[1] != SLASH;
      assert |p| > 2 ==> s[2] == p[2] != SLASH;
    }
  }

  // ----- main results -------------------------------------------------------------------------

  lemma {:induction false} BreakSurvives(input: Text, output: seq<Text>)
    ensures Run(input, output).Done? <==> Plain(input)
    decreases |input|
  {
    if input == [] {
    } else if [DOT, SLASH] <= input {
      BreakSurvives(input[2..], output);
      PlainParts(input, 2);
    } else if [DOT, DOT, SLASH] <= input {
      BreakSurvives(input[3..], output);
      PlainParts(input, 3);
    } else if input == [SLASH, DOT] {
      BreakSurvives([SLASH], output);
    } else if [SLASH, DOT, SLASH] <= input {
      BreakSurvives([SLASH] + input[3..], output);
      PlainParts(input, 3);
      PlainParts([SLASH] + input[3..], 1);
      assert ([SLASH] + input[3..])[1..] == input[3..];
    } else if input == [SLASH, DOT, DOT] {
      BreakSurvives([SLASH], Pop(output));
    } else if [SLASH, DOT, DOT, SLASH] <= input {
      BreakSurvives([SLASH] + input[4..], Pop(output));
      PlainParts(input, 4);
      PlainParts([SLASH] + input[4..], 1);
      assert ([SLASH] + input[4..])[1..] == input[4..];
    } else if input == [DOT] || input == [DOT, DOT] {
    } else {
      var e := PieceEnd(input);
      PlainParts(input, e);
      if Plain(input[..e]) {
        BreakSurvives(input[e..], output + [input[..e]]);
      }
    }
  }

  lemma PlainParts(s: Text, k: nat)
    requires k <= |s|
    ensures Plain(s) <==> Plain(s[..k]) && Plain(s[k..])
  {
    assert s == s[..k] + s[k..];
    if Plain(s[..k]) && Plain(s[k..]) {
      forall i | 0 <= i < |s| ensures !IsBreak(s[i]) {
        if i < k { assert s[i] == s[..k][i]; } else { assert s[i] == s[k..][i - k]; }
      }
    }
  }

  /** The loop ends normally exactly on paths without CR, U+2028 and U+2029; then
      its result has no dot segment, and removing dot segments again changes
      nothing. */
  lemma RemovesDotSegments(path: Text)
    ensures Run(path, []).Done? <==> Plain(path)
    ensures Plain(path) ==>
              var result := Join(Run(path, []).output);
              NoDotSegments(result) && Run(result, []).Done? && Join(Run(result, []).output) == result
  {
    BreakSurvives(path, []);
    RunMakesPieces(path, []);
    if Plain(path) {
      var ps := Run(path, []).output;
      JoinHasNoDots(ps);
      RunPieces(ps, [], []);
      assert Join(ps) + [] == Join(ps) && [] + ps == ps;
    }
  }

  // ----- what a dot segment does --------------------------------------------------------------

  /** What takes the place of a dot segment and the text behind it. */
  function Behind(r: Text): Text {
    if r == [] then [SLASH] else r
  }

  predicate StartsSegment(r: Text) {
    r == [] || r[0] == SLASH
  }

  /** ".." takes the piece before it away, if there is one. */
  lemma ParentSegment(ps: seq<Text>, r: Text)
    requires Pieces(ps) && StartsSegment(r)
    ensures Run(Join(ps) + [SLASH, DOT, DOT] + r, [])
         == Run((if ps == [] then [] else Join(ps[..|ps| - 1])) + Behind(r), [])
  {
    hide Run, IsPiece, Plain;
    var up := [SLASH, DOT, DOT] + r;
    var front := if ps == [] then [] else ps[..|ps| - 1];
    assert Join(ps) + [SLASH, DOT, DOT] + r == Join(ps) + up;
    assert Pieces(front);
    RunPieces(ps, up, []);
    RunPieces(front, Behind(r), []);
    assert [] + ps == ps && [] + front == front;
    ParentStep(ps, r);
  }

  lemma ParentStep(ps: seq<Text>, r: Text)
    requires StartsSegment(r)
    ensures Run([SLASH, DOT, DOT] + r, ps) == Run(Behind(r), if ps == [] then [] else ps[..|ps| - 1])
  {
    var up := [SLASH, DOT, DOT] + r;
    NotOther(r);
    assert r != [] ==> [SLASH] + up[4..] == r;
  }

  lemma NotOther(r: Text)
    requires StartsSegment(r)
    ensures var up := [SLASH, DOT, DOT] + r;
            && up != [] && !([DOT, SLASH] <= up) && !([DOT, DOT, SLASH] <= up) && up != [SLASH, DOT]
            && !([SLASH, DOT, SLASH] <= up) && (up == [SLASH, DOT, DOT] <==> r == [])
            && ([SLASH, DOT, DOT, SLASH] <= up <==> r != [])
    ensures var same := [SLASH, DOT] + r;
            && same != [] && !([DOT, SLASH] <= same) && !([DOT, DOT, SLASH] <= same)
            && (same == [SLASH, DOT] <==> r == []) && ([SLASH, DOT, SLASH] <= same <==> r != [])
  {
    var up, same := [SLASH, DOT, DOT] + r, [SLASH, DOT] + r;
    assert up[0] == SLASH && up[2] == DOT && same[0] == SLASH && [SLASH, DOT, SLASH][2] == SLASH;
    assert |up| == 3 + |r| && |same| == 2 + |r|;
    assert r != [] ==> up[3] == SLASH && same[2] == SLASH;
    assert r != [] ==> up[..4] == [SLASH, DOT, DOT, SLASH] && same[..3] == [SLASH, DOT, SLASH];
    PrefixIs([DOT, SLASH], up);
    PrefixIs([DOT, DOT, SLASH], up);
    PrefixIs([SLASH, DOT, SLASH], up);
    PrefixIs([DOT, SLASH], same);
    PrefixIs([DOT, DOT, SLASH], same);
  }

  /** "." takes nothing away. */
  lemma SameSegment(ps: seq<Text>, r: Text)
    requires Pieces(ps) && StartsSegment(r)
    ensures Run(Join(ps) + [SLASH, DOT] + r, []) == Run(Join(ps) + Behind(r), [])
  {
    hide Run, IsPiece, Plain;
    var same := [SLASH, DOT] + r;
    assert Join(ps) + [SLASH, DOT] + r == Join(ps) + same;
    RunPieces(ps, same, []);
    RunPieces(ps, Behind(r), []);
    assert [] + ps == ps;
    SameStep(ps, r);
  }

  lemma SameStep(ps: seq<Text>, r: Text)
    requires StartsSegment(r)
    ensures Run([SLASH, DOT] + r, ps) == Run(Behind(r), ps)
  {
    var same := [SLASH, DOT] + r;
    NotOther(r);
    assert r != [] ==> [SLASH] + same[3..] == r;
  }

  /** Dots at the start of a relative path are dropped. */
  lemma LeadingDots(r: Text)
    ensures Run([DOT, SLASH] + r, []) == Run(r, []) && Run([DOT, DOT, SLASH] + r, []) == Run(r, [])
    ensures Run([DOT], []) == Run([DOT, DOT], []) == Done([])
  {
    assert ([DOT, SLASH] + r)[..2] == [DOT, SLASH] && ([DOT, SLASH] + r)[2..] == r;
    assert ([DOT, DOT, SLASH] + r)[..3] == [DOT, DOT, SLASH] && ([DOT, DOT, SLASH] + r)[3..] == r;
    assert ([DOT, DOT, SLASH] + r)[1] == DOT != SLASH;
    PrefixIs([DOT, SLASH], [DOT, DOT, SLASH] + r);
  }

  /** Every other path is made of pieces, or of pieces and a dot segment behind
      them: the laws above say what becomes of it. */
  lemma {:induction false} FirstDotSegment(path: Text, first: bool) returns (ps: seq<Text>, r: Text)
    requires Plain(path) && (first || StartsSegment(path))
    requires !([DOT, SLASH] <= path) && !([DOT, DOT, SLASH] <= path) && path != [DOT] && path != [DOT, DOT]
    ensures Pieces(ps) && StartsSegment(r) && (ps != [] ==> path != [] && ps[0][0] == path[0])
    ensures path == Join(ps) || path == Join(ps) + [SLASH, DOT] + r || path == Join(ps) + [SLASH, DOT, DOT] + r
    decreases |path|
  {
    if path == [] {
      return [], [];
    }
    if path == [SLASH, DOT] || [SLASH, DOT, SLASH] <= path {
      ps, r := [], path[2..];
      assert path == [SLASH, DOT] + r;
    } else if path == [SLASH, DOT, DOT] || [SLASH, DOT, DOT, SLASH] <= path {
      ps, r := [], path[3..];
      assert path == [SLASH, DOT, DOT] + r;
    } else {
      var e := PieceEnd(path);
      NextPiece(path, first);
      PlainParts(path, e);
      var p, rest := path[..e], path[e..];
      assert path == p + rest;
      assert rest != [] ==> rest[0] == SLASH;
      NoLeadingDots(rest);
      hide Plain, IsPiece, Join;
      var more;
      more, r := FirstDotSegment(rest, false);
      PieceInFront(p, more, first);
      JoinFront(p, more, rest, r);
      ps := [p] + more;
    }
  }

  lemma NoLeadingDots(s: Text)
    requires s == [] || s[0] == SLASH
    ensures !([DOT, SLASH] <= s) && !([DOT, DOT, SLASH] <= s) && s != [DOT] && s != [DOT, DOT]
  {
    PrefixIs([DOT, SLASH], s);
    PrefixIs([DOT, DOT, SLASH], s);
  }

  lemma JoinFront(p: Text, ps: seq<Text>, rest: Text, r: Text)
    ensures rest == Join(ps) ==> p + rest == Join([p] + ps)
    ensures rest == Join(ps) + [SLASH, DOT] + r ==> p + rest == Join([p] + ps) + [SLASH, DOT] + r
    ensures rest == Join(ps) + [SLASH, DOT, DOT] + r ==> p + rest == Join([p] + ps) + [SLASH, DOT, DOT] + r
  {
    assert ([p] + ps)[1..] == ps;
  }

  lemma PieceInFront(p: Text, ps: seq<Text>, first: bool)
    requires IsPiece(p, first) && Plain(p) && Pieces(ps) && (ps != [] ==> ps[0][0] == SLASH)
    ensures Pieces([p] + ps)
  {
    forall i | 0 <= i < |[p] + ps|
      ensures IsPiece(([p] + ps)[i], i == 0) && Plain(([p] + ps)[i])
    {
      if i > 0 {
        assert IsPiece(ps[i - 1], i - 1 == 0);
      }
    }
  }

  /** A path without dot segments is what it is. */
  lemma NothingToDo(ps: seq<Text>)
    requires Pieces(ps)
    ensures Run(Join(ps), []) == Done(ps)
  {
    RunPieces(ps, [], []);
    assert Join(ps) + [] == Join(ps) && [] + ps == ps;
  }

  /** "/" and a carriage return: the loop never ends. Without the slash it throws. */
  lemma CarriageReturn()
    ensures Run([SLASH, 0x0D], []) == Diverges && Run([0x0D], []) == Throws
  {
    NextSlashIs([SLASH, 0x0D], 1, 2);
    NextSlashIs([0x0D], 0, 1);
    assert [SLASH, 0x0D][..2][1] == 0x0D && [0x0D][..1][0] == 0x0D;
  }
}
