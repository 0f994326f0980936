/** The serialisation says everything about a value and nothing about the order
    of its members: two values have the same text exactly when they are the same. */
module JsonText {
  import opened Json

  // ----- sorting ------------------------------------------------------------------

  lemma {:induction false} AtMostTotal(a: Text, b: Text)
    ensures AtMost(a, b) || AtMost(b, a)
    ensures AtMost(a, b) && AtMost(b, a) ==> a == b
  {
    if a != [] && b != [] && a[0] == b[0] {
      AtMostTotal(a[1..], b[1..]);
      assert a == [a[0]] + a[1..] && b == [b[0]] + b[1..];
    }
  }

  lemma {:induction false} AtMostTrans(a: Text, b: Text, c: Text)
    requires AtMost(a, b) && AtMost(b, c)
    ensures AtMost(a, c)
  {
    if a != [] && a[0] == b[0] == c[0] { AtMostTrans(a[1..], b[1..], c[1..]); }
  }

  ghost predicate Ascending(s: seq<Text>) {
    forall i, j :: 0 <= i < j < |s| ==> AtMost(s[i], s[j]) && s[i] != s[j]
  }

  lemma {:induction false} InsertAscending(k: Text, s: seq<Text>)
    requires Ascending(s) && k !in s
    ensures Ascending(InsertKey(k, s))
  {
    hide AtMost;
    if s == [] {
    } else if AtMost(k, s[0]) {
      forall j | 0 <= j < |s|
        ensures AtMost(k, s[j]) && k != s[j]
      {
        if j > 0 { AtMostTrans(k, s[0], s[j]); }
      }
    } else {
      AtMostTotal(k, s[0]);
      var r := InsertKey(k, s[1..]);
      InsertAscending(k, s[1..]);
      forall j | 0 <= j < |r|
        ensures AtMost(s[0], r[j]) && s[0] != r[j]
      {
        assert r[j] in r;
      }
    }
  }

  ghost predicate NoDuplicates(s: seq<Text>) {
    forall i, j :: 0 <= i < j < |s| ==> s[i] != s[j]
  }

  lemma {:induction false} SortAscending(keys: seq<Text>)
    requires NoDuplicates(keys)
    ensures Ascending(Sort(keys))
  {
    if keys != [] {
      SortAscending(keys[1..]);
      InsertAscending(keys[0], Sort(keys[1..]));
    }
  }

  lemma InTail(s: seq<Text>, x: Text)
    requires s != [] && Ascending(s)
    ensures x in s[1..] <==> x in s && x != s[0]
  {
    assert s == [s[0]] + s[1..];
  }

  /** An ascending list is determined by its elements. */
  lemma {:induction false} AscendingUnique(s: seq<Text>, t: seq<Text>)
    requires Ascending(s) && Ascending(t) && forall x :: x in s <==> x in t
    ensures s == t
  {
    hide AtMost;
    assert t != [] ==> t[0] in s && s != [];
    if s != [] {
      assert s[0] in t;
      AtMostTotal(s[0], t[0]);
      forall x
        ensures x in s[1..] <==> x in t[1..]
      {
        InTail(s, x);
        InTail(t, x);
      }
      AscendingUnique(s[1..], t[1..]);
      assert s == [s[0]] + s[1..] && t == [t[0]] + t[1..];
    }
  }

  // ----- strings ------------------------------------------------------------------

  function HexValue(c: nat): int {
    if c < 0x40 then c - 0x30 else c - 0x57
  }

  /** How many units the first piece of an escaped string stands for. */
  function Taken(s: Text): (n: nat)
    requires s != []
    ensures 1 <= n <= |s|
  {
    if IsHigh(s[0]) && |s| > 1 && IsLow(s[1]) then 2 else 1
  }

  function Piece(s: Text): (p: Text)
    requires s != [] && IsText(s)
    ensures p != []
  {
    if Taken(s) == 2 then s[..2] else Escape(s[0])
  }

  /** Reading back one piece. */
  function ReadPiece(text: Text): (r: (Text, nat))
    requires text != []
    ensures 1 <= r.1 <= |text|
  {
    if text[0] == BACKSLASH && |text| >= 6 && text[1] == 0x75 then
      var c := ((HexValue(text[2]) * 16 + HexValue(text[3])) * 16 + HexValue(text[4])) * 16 + HexValue(text[5]);
      ([if c >= 0 then c else 0], 6)
    else if text[0] == BACKSLASH && |text| >= 2 then
      var c := text[1];
      ([if c == 0x74 then 9 else if c == 0x72 then 13 else if c == 0x6E then 10 else if c == 0x62 then 8
        else if c == 0x66 then 12 else c], 2)
    else if IsHigh(text[0]) && |text| >= 2 then (text[..2], 2)
    else (text[..1], 1)
  }

  lemma ReadEscape(c: nat, rest: Text)
    requires c < 0x10000 && !(c < 32 || IsHigh(c) || IsLow(c))
    ensures ReadPiece(Escape(c) + rest) == ([c], |Escape(c)|) && Escape(c)[0] != QUOTE
  {
    if c == QUOTE || c == BACKSLASH {
    } else {
      assert ([c] + rest)[..1] == [c];
    }
  }

  lemma HexDigits(c: nat)
    requires c < 0x10000
    ensures c == ((c / 0x1000 * 16 + c / 0x100 % 16) * 16 + c / 16 % 16) * 16 + c % 16
    ensures c / 0x1000 < 16
  {
    assert c / 0x100 / 16 == c / 0x1000 && c / 16 / 16 == c / 0x100;
  }

  lemma ReadHex(c: nat, rest: Text)
    requires c < 0x10000 && (c < 32 || IsHigh(c) || IsLow(c))
    ensures ReadPiece(Escape(c) + rest) == ([c], |Escape(c)|) && Escape(c)[0] != QUOTE
  {
    HexDigits(c);
    hide IsHigh, IsLow;
  }

  lemma ReadBack(s: Text, rest: Text)
    requires s != [] && IsText(s)
    ensures ReadPiece(Piece(s) + rest) == (s[..Taken(s)], |Piece(s)|) && Piece(s)[0] != QUOTE
  {
    if Taken(s) == 2 {
      assert (s[..2] + rest)[..2] == s[..2];
    } else {
      assert s[..1] == [s[0]];
      if s[0] < 32 || IsHigh(s[0]) || IsLow(s[0]) {
        ReadHex(s[0], rest);
      } else {
        ReadEscape(s[0], rest);
      }
    }
  }

  lemma EscapedCons(s: Text)
    requires s != [] && IsText(s)
    ensures IsText(s[Taken(s)..]) && Escaped(s) == Piece(s) + Escaped(s[Taken(s)..])
  {
    hide Escape, IsHigh, IsLow;
  }

  /** A quoted string ends at its closing quote and nowhere else. */
  lemma {:induction false} EscapedDetermines(s: Text, t: Text, r1: Text, r2: Text)
    requires IsText(s) && IsText(t)
    requires Escaped(s) + ([QUOTE] + r1) == Escaped(t) + ([QUOTE] + r2)
    ensures s == t && r1 == r2
    decreases |s|
  {
    hide Escaped, ReadPiece, Piece, IsText, Taken;
    var left, right := Escaped(s) + ([QUOTE] + r1), Escaped(t) + ([QUOTE] + r2);
    if s != [] {
      EscapedCons(s);
      ReadBack(s, Escaped(s[Taken(s)..]) + ([QUOTE] + r1));
      assert left == Piece(s) + (Escaped(s[Taken(s)..]) + ([QUOTE] + r1)) && left[0] != QUOTE;
    } else {
      EscapedNothing();
      assert left == [QUOTE] + r1 && left[0] == QUOTE;
    }
    if t != [] {
      EscapedCons(t);
      ReadBack(t, Escaped(t[Taken(t)..]) + ([QUOTE] + r2));
      assert right == Piece(t) + (Escaped(t[Taken(t)..]) + ([QUOTE] + r2)) && right[0] != QUOTE;
    } else {
      EscapedNothing();
      assert right == [QUOTE] + r2 && right[0] == QUOTE;
    }
    if s != [] && t != [] {
      var n := |Piece(s)|;
      assert left[n..] == Escaped(s[Taken(s)..]) + ([QUOTE] + r1)
             && right[n..] == Escaped(t[Taken(t)..]) + ([QUOTE] + r2);
      EscapedDetermines(s[Taken(s)..], t[Taken(t)..], r1, r2);
      assert s == s[..Taken(s)] + s[Taken(s)..] && t == t[..Taken(t)] + t[Taken(t)..];
    } else if s == [] && t == [] {
      assert left[1..] == r1 && right[1..] == r2;
    }
  }

  lemma EscapedNothing()
    ensures IsText([]) && Escaped([]) == []
  {
  }

  lemma QuoteDetermines(s: Text, t: Text, r1: Text, r2: Text)
    requires IsText(s) && IsText(t) && Quote(s) + r1 == Quote(t) + r2
    ensures s == t && r1 == r2
  {
    hide Escaped;
    assert (Quote(s) + r1)[1..] == Escaped(s) + ([QUOTE] + r1);
    assert (Quote(t) + r2)[1..] == Escaped(t) + ([QUOTE] + r2);
    EscapedDetermines(s, t, r1, r2);
  }

  // ----- values -------------------------------------------------------------------

  /** What may follow a value. */
  predicate Follows(rest: Text) {
    rest == [] || rest[0] == COMMA || rest[0] == CLOSE_LIST || rest[0] == CLOSE_OBJ
  }

  /** The first character tells the kind of value. */
  lemma FirstChar(v: Json)
    requires Valid(v)
    ensures Stringify(v) != []
    ensures var c := Stringify(v)[0];
            && (c == 0x6E <==> v.Null? || v.Infinity?) && (c == 0x74 <==> v == Bool(true))
               && (c == 0x66 <==> v == Bool(false))
            && (c == QUOTE <==> v.Str?) && (c == OPEN_LIST <==> v.Arr?) && (c == OPEN_OBJ <==> v.Obj?)
            && c != CLOSE_LIST && c != CLOSE_OBJ && c != COMMA
  {
    hide ItemsFrom, MembersFrom, SortedKeys, Escaped;
  }

  /** A number ends where its characters end. */
  lemma {:induction false} NumDetermines(s: Text, t: Text, r1: Text, r2: Text)
    requires (forall i :: 0 <= i < |s| ==> IsNumChar(s[i])) && (forall i :: 0 <= i < |t| ==> IsNumChar(t[i]))
    requires Follows(r1) && Follows(r2) && s + r1 == t + r2
    ensures s == t && r1 == r2
  {
    assert s == [] ==> s + r1 == r1;
    assert t == [] ==> t + r2 == r2;
    assert s != [] ==> (s + r1)[0] == s[0] && (s + r1)[1..] == s[1..] + r1;
    assert t != [] ==> (t + r2)[0] == t[0] && (t + r2)[1..] == t[1..] + r2;
    if s != [] && t != [] {
      NumDetermines(s[1..], t[1..], r1, r2);
    }
  }

  lemma Drop<T>(a: seq<T>, x: seq<T>, b: seq<T>, y: seq<T>)
    requires |a| == |b| && a + x == b + y
    ensures a == b && x == y
  {
    assert (a + x)[..|a|] == a && (b + y)[..|b|] == b && (a + x)[|a|..] == x && (b + y)[|b|..] == y;
  }

  lemma {:induction false} TextDetermines(a: Json, b: Json, r1: Text, r2: Text)
    requires Valid(a) && Valid(b) && Follows(r1) && Follows(r2)
    requires Stringify(a) + r1 == Stringify(b) + r2
    ensures Same(a, b, true) && r1 == r2
    decreases a, 1, 0
  {
    FirstChar(a);
    FirstChar(b);
    assert Stringify(a)[0] == (Stringify(a) + r1)[0] == (Stringify(b) + r2)[0] == Stringify(b)[0];
    hide ItemsFrom, MembersFrom, SortedKeys, Escaped, Quote, IsNumChar;
    match a
    case Null => Drop(NULL_TEXT, r1, NULL_TEXT, r2);
    case Infinity(_) => Drop(NULL_TEXT, r1, NULL_TEXT, r2);
    case Bool(x) => Drop(Stringify(a), r1, Stringify(a), r2);
    case Num(t) => NumDetermines(t, b.text, r1, r2);
    case Str(s) => QuoteDetermines(s, b.s, r1, r2);
    case Arr(_) => ArrDetermines(a, b, r1, r2);
    case Obj(_) => ObjDetermines(a, b, r1, r2);
  }

  lemma {:induction false} ArrDetermines(a: Json, b: Json, r1: Text, r2: Text)
    requires a.Arr? && b.Arr? && Valid(a) && Valid(b) && Stringify(a) + r1 == Stringify(b) + r2
    ensures Same(a, b, true) && r1 == r2
    decreases a, 0, |a.items| + 1
  {
    hide ItemsFrom;
    var x, y := ItemsFrom(a, 0) + ([CLOSE_LIST] + r1), ItemsFrom(b, 0) + ([CLOSE_LIST] + r2);
    assert Stringify(a) + r1 == [OPEN_LIST] + x && Stringify(b) + r2 == [OPEN_LIST] + y;
    Drop([OPEN_LIST], x, [OPEN_LIST], y);
    ItemsDetermine(a, b, 0, r1, r2);
  }

  lemma {:induction false} ObjDetermines(a: Json, b: Json, r1: Text, r2: Text)
    requires a.Obj? && b.Obj? && Valid(a) && Valid(b) && Stringify(a) + r1 == Stringify(b) + r2
    ensures Same(a, b, true) && r1 == r2
    decreases a, 0, |SortedKeys(a.members)| + 1
  {
    hide MembersFrom, SortedKeys, Same;
    var ka, kb := SortedKeys(a.members), SortedKeys(b.members);
    var x, y := MembersFrom(a, ka, 0) + ([CLOSE_OBJ] + r1), MembersFrom(b, kb, 0) + ([CLOSE_OBJ] + r2);
    assert Stringify(a) + r1 == [OPEN_OBJ] + x && Stringify(b) + r2 == [OPEN_OBJ] + y;
    Drop([OPEN_OBJ], x, [OPEN_OBJ], y);
    MembersDetermine(a, b, ka, kb, 0, r1, r2);
    KeysDetermine(a, b);
  }

  lemma {:induction false} ItemsDetermine(a: Json, b: Json, i: nat, r1: Text, r2: Text)
    requires a.Arr? && b.Arr? && Valid(a) && Valid(b) && i <= |a.items| && i <= |b.items|
    requires ItemsFrom(a, i) + ([CLOSE_LIST] + r1) == ItemsFrom(b, i) + ([CLOSE_LIST] + r2)
    ensures |a.items| == |b.items| && (forall j :: i <= j < |a.items| ==> Same(a.items[j], b.items[j], true))
    ensures r1 == r2
    decreases a, 0, |a.items| - i
  {
    ItemsCons(a, i, r1);
    ItemsCons(b, i, r2);
    assert ([CLOSE_LIST] + r1)[0] == CLOSE_LIST && ([CLOSE_LIST] + r2)[0] == CLOSE_LIST;
    hide ItemsFrom, Stringify, Same;
    if i < |a.items| && i < |b.items| {
      var x, y := ItemsFrom(a, i + 1) + ([CLOSE_LIST] + r1), ItemsFrom(b, i + 1) + ([CLOSE_LIST] + r2);
      Drop(Separator(i), Stringify(a.items[i]) + x, Separator(i), Stringify(b.items[i]) + y);
      TextDetermines(a.items[i], b.items[i], x, y);
      ItemsDetermine(a, b, i + 1, r1, r2);
    } else if i == |a.items| == |b.items| {
      Drop([CLOSE_LIST], r1, [CLOSE_LIST], r2);
    }
  }

  /** The text of the rest of a list starts with an item, a comma or the end. */
  lemma ItemsCons(v: Json, i: nat, r: Text)
    requires v.Arr? && Valid(v) && i <= |v.items|
    ensures i == |v.items| ==> ItemsFrom(v, i) + ([CLOSE_LIST] + r) == [CLOSE_LIST] + r
    ensures i < |v.items| ==>
              var x := ItemsFrom(v, i + 1) + ([CLOSE_LIST] + r);
              && ItemsFrom(v, i) + ([CLOSE_LIST] + r) == Separator(i) + (Stringify(v.items[i]) + x)
              && Follows(x) && (Separator(i) + (Stringify(v.items[i]) + x))[0] != CLOSE_LIST
  {
    if i < |v.items| {
      FirstChar(v.items[i]);
      hide Stringify, Valid;
    }
  }

  lemma {:induction false} MembersDetermine(a: Json, b: Json, ka: seq<Text>, kb: seq<Text>, i: nat, r1: Text, r2: Text)
    requires a.Obj? && b.Obj? && Valid(a) && Valid(b) && i <= |ka| && i <= |kb|
    requires (forall k :: k in ka ==> Has(a.members, k)) && (forall k :: k in kb ==> Has(b.members, k))
    requires MembersFrom(a, ka, i) + ([CLOSE_OBJ] + r1) == MembersFrom(b, kb, i) + ([CLOSE_OBJ] + r2)
    ensures |ka| == |kb| && r1 == r2
    ensures forall j :: i <= j < |ka| ==> ka[j] == kb[j] && Same(Value(a, ka[j]), Value(b, kb[j]), true)
    decreases a, 0, |ka| - i
  {
    hide MembersFrom, Stringify, Same, Quote, Valid, Value, Has, Separator, IsText;
    MembersCons(a, ka, i, r1);
    MembersCons(b, kb, i, r2);
    assert ([CLOSE_OBJ] + r1)[0] == CLOSE_OBJ && ([CLOSE_OBJ] + r2)[0] == CLOSE_OBJ;
    if i < |ka| && i < |kb| {
      var x, y := MembersFrom(a, ka, i + 1) + ([CLOSE_OBJ] + r1), MembersFrom(b, kb, i + 1) + ([CLOSE_OBJ] + r2);
      var va, vb := Value(a, ka[i]), Value(b, kb[i]);
      ValueBelow(a, ka[i]);
      ValueBelow(b, kb[i]);
      MemberDetermines(i, ka[i], kb[i], Stringify(va) + x, Stringify(vb) + y);
      TextDetermines(va, vb, x, y);
      MembersDetermine(a, b, ka, kb, i + 1, r1, r2);
    } else if i == |ka| == |kb| {
      Drop([CLOSE_OBJ], r1, [CLOSE_OBJ], r2);
    }
  }

  lemma MemberDetermines(i: nat, k1: Text, k2: Text, x: Text, y: Text)
    requires IsText(k1) && IsText(k2)
    requires Separator(i) + (Quote(k1) + ([COLON] + x)) == Separator(i) + (Quote(k2) + ([COLON] + y))
    ensures k1 == k2 && x == y
  {
    hide Quote;
    Drop(Separator(i), Quote(k1) + ([COLON] + x), Separator(i), Quote(k2) + ([COLON] + y));
    QuoteDetermines(k1, k2, [COLON] + x, [COLON] + y);
    Drop([COLON], x, [COLON], y);
  }

  lemma ValueBelow(v: Json, key: Text)
    requires v.Obj? && Valid(v) && Has(v.members, key)
    ensures IsText(key) && Valid(Value(v, key)) && Value(v, key) < v
  {
    var j := IndexOf(v.members, key);
    assert Value(v, key) == v.members[j].value;
  }

  lemma MembersCons(v: Json, keys: seq<Text>, i: nat, r: Text)
    requires v.Obj? && Valid(v) && i <= |keys| && forall k :: k in keys ==> Has(v.members, k)
    ensures i == |keys| ==> MembersFrom(v, keys, i) + ([CLOSE_OBJ] + r) == [CLOSE_OBJ] + r
    ensures i < |keys| && keys[i] in keys ==>
              var x := MembersFrom(v, keys, i + 1) + ([CLOSE_OBJ] + r);
              var text := Separator(i) + (Quote(keys[i]) + ([COLON] + (Stringify(Value(v, keys[i])) + x)));
              && MembersFrom(v, keys, i) + ([CLOSE_OBJ] + r) == text && Follows(x) && text[0] != CLOSE_OBJ
  {
    hide Stringify, Valid, Escaped;
  }

  // ----- members in any order -----------------------------------------------------

  lemma KeysAscending(ms: seq<Member>)
    requires DistinctKeys(ms)
    ensures Ascending(SortedKeys(ms))
    ensures forall k :: k in SortedKeys(ms) <==> Has(ms, k)
  {
    SortAscending(Keys(ms));
    forall k | Has(ms, k) ensures k in SortedKeys(ms) {
      var i :| 0 <= i < |ms| && ms[i].key == k;
      assert Keys(ms)[i] == k;
    }
  }

  lemma ValueAt(v: Json, i: nat)
    requires v.Obj? && Valid(v) && i < |v.members|
    ensures Has(v.members, v.members[i].key) && Value(v, v.members[i].key) == v.members[i].value
  {
    var key := v.members[i].key;
    assert Has(v.members, key);
    var j :| 0 <= j < |v.members| && v.members[j] == Member(key, Value(v, key));
    assert j == i;
  }

  lemma KeysDetermine(a: Json, b: Json)
    requires a.Obj? && b.Obj? && Valid(a) && Valid(b) && SortedKeys(a.members) == SortedKeys(b.members)
    requires forall k :: k in SortedKeys(a.members) ==> Has(b.members, k) && Same(Value(a, k), Value(b, k), true)
    ensures Same(a, b, true)
  {
    hide SortedKeys;
    KeysAscending(a.members);
    forall i | 0 <= i < |a.members|
      ensures Has(b.members, a.members[i].key) && Same(a.members[i].value, Value(b, a.members[i].key), true)
    {
      ValueAt(a, i);
    }
  }

  function KeySet(ms: seq<Member>): (r: set<Text>)
    ensures forall k :: k in r <==> Has(ms, k)
  {
    set i | 0 <= i < |ms| :: ms[i].key
  }

  lemma {:induction false} KeyCount(ms: seq<Member>)
    requires DistinctKeys(ms)
    ensures |KeySet(ms)| == |ms|
  {
    if ms != [] {
      KeyCount(ms[1..]);
      assert KeySet(ms) == {ms[0].key} + KeySet(ms[1..]);
      assert ms[0].key !in KeySet(ms[1..]);
    }
  }

  lemma SubsetOfSameSize(a: set<Text>, b: set<Text>)
    requires a <= b && |a| == |b|
    ensures a == b
  {
    assert b == a + (b - a) && |b| == |a| + |b - a|;
  }

  lemma SameKeys(a: Json, b: Json, asText: bool)
    requires a.Obj? && Valid(a) && Valid(b) && Same(a, b, asText)
    ensures b.Obj? && SortedKeys(a.members) == SortedKeys(b.members)
  {
    hide SortedKeys;
    KeyCount(a.members);
    KeyCount(b.members);
    SubsetOfSameSize(KeySet(a.members), KeySet(b.members));
    KeysAscending(a.members);
    KeysAscending(b.members);
    forall k ensures k in SortedKeys(a.members) <==> k in SortedKeys(b.members) {
      assert k in KeySet(a.members) <==> k in KeySet(b.members);
    }
    AscendingUnique(SortedKeys(a.members), SortedKeys(b.members));
  }

  lemma {:induction false} SameText(a: Json, b: Json)
    requires Valid(a) && Valid(b) && Same(a, b, true)
    ensures Stringify(a) == Stringify(b)
    decreases a, 1, 0
  {
    hide ItemsFrom, MembersFrom, SortedKeys, Quote;
    match a
    case Arr(_) => SameItems(a, b, 0);
    case Obj(ms) =>
      SameKeys(a, b, true);
      SameMembers(a, b, SortedKeys(ms), 0);
    case _ =>
  }

  lemma {:induction false} SameItems(a: Json, b: Json, i: nat)
    requires a.Arr? && Valid(a) && Valid(b) && Same(a, b, true) && i <= |a.items|
    ensures ItemsFrom(a, i) == ItemsFrom(b, i)
    decreases a, 0, |a.items| - i
  {
    if i < |a.items| {
      SameText(a.items[i], b.items[i]);
      SameItems(a, b, i + 1);
    }
  }

  lemma {:induction false} SameMembers(a: Json, b: Json, keys: seq<Text>, i: nat)
    requires a.Obj? && Valid(a) && Valid(b) && Same(a, b, true) && i <= |keys|
    requires forall k :: k in keys ==> Has(a.members, k) && Has(b.members, k)
    ensures MembersFrom(a, keys, i) == MembersFrom(b, keys, i)
    decreases a, 0, |keys| - i
  {
    if i < |keys| {
      var j := IndexOf(a.members, keys[i]);
      assert Same(a.members[j].value, Value(b, keys[i]), true);
      SameText(a.members[j].value, Value(b, keys[i]));
      SameMembers(a, b, keys, i + 1);
    }
  }

  /** The key of the schema cache identifies a schema: two values have the same
      text exactly when they are the same up to the order of members (and up to
      infinities, which are written as null). */
  lemma TextIdentifies(a: Json, b: Json)
    requires Valid(a) && Valid(b)
    ensures Stringify(a) == Stringify(b) <==> Same(a, b, true)
  {
    if Stringify(a) == Stringify(b) {
      assert Stringify(a) + [] == Stringify(b) + [];
      TextDetermines(a, b, [], []);
    }
    if Same(a, b, true) {
      SameText(a, b);
    }
  }

  lemma {:induction false} FiniteSame(a: Json, b: Json)
    requires Valid(a) && Valid(b) && IsFinite(a) && IsFinite(b)
    ensures Same(a, b, true) <==> Same(a, b, false)
    decreases a
  {
    match a
    case Arr(items) =>
      if b.Arr? && |b.items| == |items| {
        forall i | 0 <= i < |items| ensures Same(items[i], b.items[i], true) <==> Same(items[i], b.items[i], false) {
          FiniteSame(items[i], b.items[i]);
        }
      }
    case Obj(ms) =>
      if b.Obj? && |b.members| == |ms| {
        forall i | 0 <= i < |ms| && Has(b.members, ms[i].key)
          ensures Same(ms[i].value, Value(b, ms[i].key), true) <==> Same(ms[i].value, Value(b, ms[i].key), false)
        {
          FiniteSame(ms[i].value, Value(b, ms[i].key));
        }
      }
    case _ =>
  }
}
