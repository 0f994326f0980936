/** A reader of JSON texts (RFC 8259), to say what the serialisation writes: a text
    that reads as the value, with the members of each object in order. */
module JsonReader {
  import opened Json
  import opened JsonText

  // ----- the order of keys ------------------------------------------------------------

  /** `a` begins `b`, or is smaller at the first unit where they differ. */
  ghost predicate Before(a: Text, b: Text) {
    || a <= b
    || exists k :: 0 <= k < |a| && k < |b| && a[..k] == b[..k] && a[k] < b[k]
  }

  lemma {:induction false} AtMostIs(a: Text, b: Text)
    ensures AtMost(a, b) <==> Before(a, b)
  {
    if a != [] && b != [] {
      if a[0] == b[0] {
        AtMostIs(a[1..], b[1..]);
        SameStart(a, b);
      } else {
        DifferAtOnce(a, b);
      }
    }
  }

  lemma DifferAtOnce(a: Text, b: Text)
    requires a != [] && b != [] && a[0] != b[0]
    ensures Before(a, b) <==> a[0] < b[0]
  {
    assert a[..0] == b[..0];
    assert forall k :: 0 < k <= |a| ==> a[..k][0] == a[0];
    assert forall k :: 0 < k <= |b| ==> b[..k][0] == b[0];
  }

  lemma SameStart(a: Text, b: Text)
    requires a != [] && b != [] && a[0] == b[0]
    ensures Before(a, b) <==> Before(a[1..], b[1..])
  {
    assert a == [a[0]] + a[1..] && b == [b[0]] + b[1..];
    if k :| 0 <= k < |a| && k < |b| && a[..k] == b[..k] && a[k] < b[k] {
      assert k > 0;
      assert a[1..][..k - 1] == a[..k][1..] && b[1..][..k - 1] == b[..k][1..];
      assert a[1..][k - 1] < b[1..][k - 1];
    }
    if k :| 0 <= k < |a[1..]| && k < |b[1..]| && a[1..][..k] == b[1..][..k] && a[1..][k] < b[1..][k] {
      assert a[..k + 1] == [a[0]] + a[1..][..k] && b[..k + 1] == [b[0]] + b[1..][..k];
      assert a[k + 1] < b[k + 1];
    }
  }

  /** In each object, at any depth, every key is before those behind it. */
  ghost predicate InOrder(v: Json) {
    match v
    case Arr(items) => forall i :: 0 <= i < |items| ==> InOrder(items[i])
    case Obj(ms) =>
      && (forall i, j :: 0 <= i < j < |ms| ==> Before(ms[i].key, ms[j].key) && ms[i].key != ms[j].key)
      && forall i :: 0 <= i < |ms| ==> InOrder(ms[i].value)
    case _ => true
  }

  // ----- reading ------------------------------------------------------------------------

  datatype Read<T> = Read(value: T, rest: Text) | Malformed

  /** The characters of a string up to its closing quote. */
  function ReadString(text: Text): (r: Read<Text>)
    ensures r.Read? ==> |r.rest| < |text|
    decreases |text|
  {
    if text == [] then Malformed
    else if text[0] == QUOTE then Read([], text[1..])
    else
      var (p, n) := ReadPiece(text);
      match ReadString(text[n..])
      case Read(s, rest) => Read(p + s, rest)
      case Malformed => Malformed
  }

  /** How many of the next characters may belong to a number. */
  function NumLength(text: Text): (n: nat)
    ensures n <= |text|
  {
    if text == [] || !IsNumChar(text[0]) then 0 else 1 + NumLength(text[1..])
  }

  function ReadValue(text: Text): (r: Read<Json>)
    ensures r.Read? ==> |r.rest| < |text|
    decreases |text|, 1
  {
    if text == [] then Malformed
    else if NULL_TEXT <= text then Read(Null, text[4..])
    else if TRUE_TEXT <= text then Read(Bool(true), text[4..])
    else if FALSE_TEXT <= text then Read(Bool(false), text[5..])
    else if text[0] == QUOTE then
      match ReadString(text[1..])
      case Read(s, rest) => Read(Str(s), rest)
      case Malformed => Malformed
    else if text[0] == OPEN_LIST then
      if |text| > 1 && text[1] == CLOSE_LIST then Read(Arr([]), text[2..])
      else
        match ReadItems(text[1..])
        case Read(items, rest) => Read(Arr(items), rest)
        case Malformed => Malformed
    else if text[0] == OPEN_OBJ then
      if |text| > 1 && text[1] == CLOSE_OBJ then Read(Obj([]), text[2..])
      else
        match ReadMembers(text[1..])
        case Read(ms, rest) => Read(Obj(ms), rest)
        case Malformed => Malformed
    else
      var n := NumLength(text);
      if n > 0 then Read(Num(text[..n]), text[n..]) else Malformed
  }

  /** One item or more, with commas between them, and the end of the list. */
  function ReadItems(text: Text): (r: Read<seq<Json>>)
    ensures r.Read? ==> |r.rest| < |text|
    decreases |text|, 2
  {
    match ReadValue(text)
    case Malformed => Malformed
    case Read(v, rest) =>
      if rest == [] then Malformed
      else if rest[0] == CLOSE_LIST then Read([v], rest[1..])
      else if rest[0] != COMMA then Malformed
      else
        match ReadItems(rest[1..])
        case Read(items, rest1) => Read([v] + items, rest1)
        case Malformed => Malformed
  }

  /** A key, a colon and a value. */
  function ReadMember(text: Text): (r: Read<Member>)
    ensures r.Read? ==> |r.rest| < |text|
    decreases |text|, 2
  {
    if text == [] || text[0] != QUOTE then Malformed
    else
      match ReadString(text[1..])
      case Malformed => Malformed
      case Read(key, rest) =>
        if rest == [] || rest[0] != COLON then Malformed
        else
          match ReadValue(rest[1..])
          case Malformed => Malformed
          case Read(v, rest1) => Read(Member(key, v), rest1)
  }

  function ReadMembers(text: Text): (r: Read<seq<Member>>)
    ensures r.Read? ==> |r.rest| < |text|
    decreases |text|, 3
  {
    match ReadMember(text)
    case Malformed => Malformed
    case Read(m, rest) =>
      if rest == [] then Malformed
      else if rest[0] == CLOSE_OBJ then Read([m], rest[1..])
      else if rest[0] != COMMA then Malformed
      else
        match ReadMembers(rest[1..])
        case Read(ms, rest1) => Read([m] + ms, rest1)
        case Malformed => Malformed
  }

  // ----- strings and numbers ---------------------------------------------------------------

  /** A quoted string reads as the string. */
  lemma {:induction false} EscapedReads(s: Text, r: Text)
    requires IsText(s)
    ensures ReadString(Escaped(s) + ([QUOTE] + r)) == Read(s, r)
    decreases |s|
  {
    hide Escaped, ReadPiece, Piece, IsText, Taken;
    if s == [] {
      EscapedNothing();
      assert Escaped(s) + ([QUOTE] + r) == [QUOTE] + r;
    } else {
      EscapedCons(s);
      var more := Escaped(s[Taken(s)..]) + ([QUOTE] + r);
      JsonText.ReadBack(s, more);
      EscapedReads(s[Taken(s)..], r);
      var text := Piece(s) + more;
      assert Escaped(s) + ([QUOTE] + r) == text && text[|Piece(s)|..] == more && text[0] != QUOTE;
      assert s == s[..Taken(s)] + s[Taken(s)..];
    }
  }

  lemma QuoteReads(s: Text, r: Text)
    requires IsText(s)
    ensures (Quote(s) + r)[0] == QUOTE && ReadString((Quote(s) + r)[1..]) == Read(s, r)
  {
    hide Escaped;
    EscapedReads(s, r);
    assert (Quote(s) + r)[1..] == Escaped(s) + ([QUOTE] + r);
  }

  lemma {:induction false} NumberEnds(t: Text, r: Text)
    requires (forall i :: 0 <= i < |t| ==> IsNumChar(t[i])) && Follows(r)
    ensures NumLength(t + r) == |t|
  {
    if t == [] {
      assert t + r == r;
    } else {
      assert (t + r)[1..] == t[1..] + r;
      NumberEnds(t[1..], r);
    }
  }

  // ----- what is written reads as the value --------------------------------------------------

  /** The value that a text stands for: the same one, with its keys in order. */
  ghost predicate Stands(w: Json, v: Json)
    requires Valid(v)
  {
    Valid(w) && Same(v, w, true) && InOrder(w)
  }

  lemma {:induction false} ReadBack(v: Json, r: Text) returns (w: Json)
    requires Valid(v) && Follows(r)
    ensures ReadValue(Stringify(v) + r) == Read(w, r) && Stands(w, v)
    decreases v, 1, 0
  {
    hide ItemsFrom, MembersFrom, SortedKeys, Quote, IsNumChar, ReadValue;
    match v
    case Null =>
      WordReads(v, r);
      w := Null;
    case Infinity(_) =>
      WordReads(v, r);
      w := Null;
    case Bool(b) =>
      WordReads(v, r);
      w := v;
    case Num(t) =>
      NumberReads(t, r);
      w := v;
    case Str(s) =>
      StringReads(s, r);
      w := v;
    case Arr(_) => w := ListReads(v, r);
    case Obj(_) => w := ObjectReads(v, r);
  }

  lemma NumberReads(t: Text, r: Text)
    requires IsNumText(t) && Follows(r)
    ensures ReadValue(t + r) == Read(Num(t), r)
  {
    NumberEnds(t, r);
    var text := t + r;
    assert text[0] == t[0] && text[..|t|] == t && text[|t|..] == r;
    NotWord(text);
  }

  lemma StringReads(s: Text, r: Text)
    requires IsText(s)
    ensures ReadValue(Quote(s) + r) == Read(Str(s), r)
  {
    QuoteReads(s, r);
    NotWord(Quote(s) + r);
    hide Quote, ReadString;
  }

  lemma Starts(word: Text, text: Text)
    requires word != []
    ensures word <= text ==> text != [] && text[0] == word[0]
  {
  }

  lemma NotWord(text: Text)
    requires text != [] && text[0] != 0x6E && text[0] != 0x74 && text[0] != 0x66
    ensures !(NULL_TEXT <= text) && !(TRUE_TEXT <= text) && !(FALSE_TEXT <= text)
  {
    Starts(NULL_TEXT, text);
    Starts(TRUE_TEXT, text);
    Starts(FALSE_TEXT, text);
  }

  lemma WordReads(v: Json, r: Text)
    requires v.Null? || v.Infinity? || v.Bool?
    ensures ReadValue(Stringify(v) + r) == Read(if v.Bool? then v else Null, r)
  {
    var word := Stringify(v);
    var text := word + r;
    assert word <= text && text[|word|..] == r;
    Starts(NULL_TEXT, text);
    Starts(TRUE_TEXT, text);
    assert text[0] == word[0];
  }

  lemma ItemsStep(text: Text, w: Json, x: Text, more: seq<Json>, r: Text)
    requires ReadValue(text) == Read(w, x) && x != []
    ensures x[0] == CLOSE_LIST ==> ReadItems(text) == Read([w], x[1..])
    ensures x[0] == COMMA && ReadItems(x[1..]) == Read(more, r) ==> ReadItems(text) == Read([w] + more, r)
  {
    hide ReadValue;
  }

  lemma MembersStep(text: Text, m: Member, x: Text, more: seq<Member>, r: Text)
    requires ReadMember(text) == Read(m, x) && x != []
    ensures x[0] == CLOSE_OBJ ==> ReadMembers(text) == Read([m], x[1..])
    ensures x[0] == COMMA && ReadMembers(x[1..]) == Read(more, r) ==> ReadMembers(text) == Read([m] + more, r)
  {
    hide ReadMember;
  }

  lemma ListStep(x: Text, ws: seq<Json>, r: Text)
    ensures x != [] && x[0] == CLOSE_LIST ==> ReadValue([OPEN_LIST] + x) == Read(Arr([]), x[1..])
    ensures x != [] && x[0] != CLOSE_LIST && ReadItems(x) == Read(ws, r) ==>
              ReadValue([OPEN_LIST] + x) == Read(Arr(ws), r)
  {
    hide ReadItems, ReadMembers, ReadString;
    var text := [OPEN_LIST] + x;
    NotWord(text);
    assert text[1..] == x;
    assert x != [] ==> text[1] == x[0] && text[2..] == x[1..];
  }

  lemma ObjectStep(x: Text, ms: seq<Member>, r: Text)
    ensures x != [] && x[0] == CLOSE_OBJ ==> ReadValue([OPEN_OBJ] + x) == Read(Obj([]), x[1..])
    ensures x != [] && x[0] != CLOSE_OBJ && ReadMembers(x) == Read(ms, r) ==>
              ReadValue([OPEN_OBJ] + x) == Read(Obj(ms), r)
  {
    hide ReadItems, ReadMembers, ReadString;
    var text := [OPEN_OBJ] + x;
    NotWord(text);
    assert text[1..] == x;
    assert x != [] ==> text[1] == x[0] && text[2..] == x[1..];
  }

  /** The text of the items from the i-th on, behind the comma. */
  ghost function ItemText(v: Json, i: nat, r: Text): Text
    requires v.Arr? && Valid(v) && i < |v.items|
  {
    Stringify(v.items[i]) + (ItemsFrom(v, i + 1) + ([CLOSE_LIST] + r))
  }

  ghost predicate ItemsStand(ws: seq<Json>, v: Json, i: nat)
    requires v.Arr? && Valid(v)
  {
    i + |ws| == |v.items| && forall j :: 0 <= j < |ws| ==> Stands(ws[j], v.items[i + j])
  }

  lemma ItemInFront(w: Json, ws: seq<Json>, v: Json, i: nat)
    requires v.Arr? && Valid(v) && i < |v.items| && Stands(w, v.items[i]) && ItemsStand(ws, v, i + 1)
    ensures ItemsStand([w] + ws, v, i)
  {
    hide Stands;
    forall j | 0 <= j < |[w] + ws|
      ensures Stands(([w] + ws)[j], v.items[i + j])
    {
      assert j > 0 ==> ([w] + ws)[j] == ws[j - 1] && i + j == i + 1 + (j - 1);
    }
  }

  /** What follows an item: the end of the list, or a comma and the next item. */
  lemma BehindItem(v: Json, i: nat, r: Text)
    requires v.Arr? && Valid(v) && i < |v.items|
    ensures var x := ItemsFrom(v, i + 1) + ([CLOSE_LIST] + r);
            && x != [] && Follows(x) && Valid(v.items[i])
            && (if i + 1 < |v.items| then x[0] == COMMA && x[1..] == ItemText(v, i + 1, r)
                else x[0] == CLOSE_LIST && x[1..] == r)
  {
    ItemsCons(v, i, r);
    ItemsCons(v, i + 1, r);
    hide ItemsFrom, Stringify;
  }

  lemma {:induction false} ItemsRead(v: Json, i: nat, r: Text) returns (ws: seq<Json>)
    requires v.Arr? && Valid(v) && i < |v.items|
    ensures ReadItems(ItemText(v, i, r)) == Read(ws, r) && ItemsStand(ws, v, i)
    decreases v, 0, |v.items| - i
  {
    BehindItem(v, i, r);
    hide ItemsFrom, Stringify, ReadValue, ReadItems, Stands, ItemsStand, Valid;
    var x := ItemsFrom(v, i + 1) + ([CLOSE_LIST] + r);
    var w := ReadBack(v.items[i], x);
    var more: seq<Json> := [];
    if i + 1 < |v.items| {
      more := ItemsRead(v, i + 1, r);
    } else {
      assert ItemsStand([], v, i + 1) by { NoItems(v); }
    }
    ItemsStep(ItemText(v, i, r), w, x, more, r);
    ItemInFront(w, more, v, i);
    ws := [w] + more;
    assert more == [] ==> [w] + more == [w];
  }

  lemma NoItems(v: Json)
    requires v.Arr? && Valid(v)
    ensures ItemsStand([], v, |v.items|)
  {
  }

  lemma ListText(v: Json, r: Text)
    requires v.Arr? && Valid(v)
    ensures Stringify(v) + r == [OPEN_LIST] + (ItemsFrom(v, 0) + ([CLOSE_LIST] + r))
  {
    hide ItemsFrom;
  }

  lemma ObjectText(v: Json, r: Text)
    requires v.Obj? && Valid(v)
    ensures Stringify(v) + r == [OPEN_OBJ] + (MembersFrom(v, SortedKeys(v.members), 0) + ([CLOSE_OBJ] + r))
  {
    hide MembersFrom, SortedKeys;
  }

  lemma {:induction false} ListReads(v: Json, r: Text) returns (w: Json)
    requires v.Arr? && Valid(v)
    ensures ReadValue(Stringify(v) + r) == Read(w, r) && Stands(w, v)
    decreases v, 0, |v.items| + 1
  {
    ListText(v, r);
    hide ItemsFrom, Stringify, ReadItems, ReadValue, ItemsStand, Stands;
    var x := ItemsFrom(v, 0) + ([CLOSE_LIST] + r);
    var ws: seq<Json> := [];
    if v.items == [] {
      ItemsCons(v, 0, r);
      NoItems(v);
      assert x[1..] == r;
    } else {
      FirstItem(v, r);
      ws := ItemsRead(v, 0, r);
    }
    ListStep(x, ws, r);
    SameList(v, ws);
    w := Arr(ws);
  }

  lemma FirstItem(v: Json, r: Text)
    requires v.Arr? && Valid(v) && v.items != []
    ensures var x := ItemsFrom(v, 0) + ([CLOSE_LIST] + r);
            x == ItemText(v, 0, r) && x != [] && x[0] != CLOSE_LIST
  {
    ItemsCons(v, 0, r);
    FirstChar(v.items[0]);
    hide ItemsFrom, Stringify;
  }

  lemma SameList(v: Json, ws: seq<Json>)
    requires v.Arr? && Valid(v) && ItemsStand(ws, v, 0)
    ensures Stands(Arr(ws), v)
  {
    assert forall j :: 0 <= j < |ws| ==> Stands(ws[j], v.items[0 + j]);
  }

  lemma MemberReads(k: Text, value: Json, x: Text, w: Json)
    requires IsText(k) && Valid(value) && ReadValue(Stringify(value) + x) == Read(w, x)
    ensures ReadMember(Quote(k) + ([COLON] + (Stringify(value) + x))) == Read(Member(k, w), x)
  {
    hide Stringify, Quote, ReadValue, ReadString;
    var more := [COLON] + (Stringify(value) + x);
    QuoteReads(k, more);
    assert more[0] == COLON && more[1..] == Stringify(value) + x;
  }

  /** The text of the members from the i-th on, behind the comma. */
  ghost function MemberText(v: Json, keys: seq<Text>, i: nat, r: Text): Text
    requires v.Obj? && Valid(v) && i < |keys| && forall k :: k in keys ==> Has(v.members, k)
  {
    assert keys[i] in keys;
    ValueBelow(v, keys[i]);
    Quote(keys[i]) + ([COLON] + (Stringify(Value(v, keys[i])) + (MembersFrom(v, keys, i + 1) + ([CLOSE_OBJ] + r))))
  }

  ghost predicate MemberStands(m: Member, v: Json, key: Text)
    requires v.Obj? && Valid(v)
  {
    Has(v.members, key) && m.key == key && Stands(m.value, Value(v, key))
  }

  ghost predicate MembersStand(ms: seq<Member>, v: Json, keys: seq<Text>, i: nat)
    requires v.Obj? && Valid(v)
  {
    i + |ms| == |keys| && forall j :: 0 <= j < |ms| ==> MemberStands(ms[j], v, keys[i + j])
  }

  lemma MemberInFront(m: Member, ms: seq<Member>, v: Json, keys: seq<Text>, i: nat)
    requires v.Obj? && Valid(v) && i < |keys| && MemberStands(m, v, keys[i]) && MembersStand(ms, v, keys, i + 1)
    ensures MembersStand([m] + ms, v, keys, i)
  {
    hide MemberStands;
    var all := [m] + ms;
    forall j | 0 <= j < |all|
      ensures MemberStands(all[j], v, keys[i + j])
    {
      if j > 0 {
        assert MemberStands(ms[j - 1], v, keys[i + 1 + (j - 1)]) && all[j] == ms[j - 1];
      }
    }
  }

  lemma BehindMember(v: Json, keys: seq<Text>, i: nat, r: Text)
    requires v.Obj? && Valid(v) && i < |keys| && forall k :: k in keys ==> Has(v.members, k)
    ensures var x := MembersFrom(v, keys, i + 1) + ([CLOSE_OBJ] + r);
            && x != [] && Follows(x) && Has(v.members, keys[i]) && IsText(keys[i]) && Valid(Value(v, keys[i]))
            && Value(v, keys[i]) < v
            && (if i + 1 < |keys| then x[0] == COMMA && x[1..] == MemberText(v, keys, i + 1, r)
                else x[0] == CLOSE_OBJ && x[1..] == r)
  {
    assert keys[i] in keys && (i + 1 < |keys| ==> keys[i + 1] in keys);
    MembersCons(v, keys, i, r);
    MembersCons(v, keys, i + 1, r);
    ValueBelow(v, keys[i]);
    hide MembersFrom, Stringify, Quote;
  }

  lemma NoMembers(v: Json, keys: seq<Text>)
    requires v.Obj? && Valid(v)
    ensures MembersStand([], v, keys, |keys|)
  {
  }

  lemma {:induction false} MembersRead(v: Json, keys: seq<Text>, i: nat, r: Text) returns (ms: seq<Member>)
    requires v.Obj? && Valid(v) && i < |keys| && forall k :: k in keys ==> Has(v.members, k)
    ensures ReadMembers(MemberText(v, keys, i, r)) == Read(ms, r) && MembersStand(ms, v, keys, i)
    decreases v, 0, |keys| - i
  {
    BehindMember(v, keys, i, r);
    hide MembersFrom, Stringify, Quote, ReadMember, ReadMembers, MembersStand, Stands, Value, Valid, Has, IsText;
    var x := MembersFrom(v, keys, i + 1) + ([CLOSE_OBJ] + r);
    var value := Value(v, keys[i]);
    var w := ReadBack(value, x);
    MemberReads(keys[i], value, x, w);
    var m, more: seq<Member> := Member(keys[i], w), [];
    if i + 1 < |keys| {
      more := MembersRead(v, keys, i + 1, r);
    } else {
      NoMembers(v, keys);
    }
    MembersStep(MemberText(v, keys, i, r), m, x, more, r);
    MemberInFront(m, more, v, keys, i);
    ms := [m] + more;
    assert more == [] ==> [m] + more == [m];
  }

  lemma {:induction false} ObjectReads(v: Json, r: Text) returns (w: Json)
    requires v.Obj? && Valid(v)
    ensures ReadValue(Stringify(v) + r) == Read(w, r) && Stands(w, v)
    decreases v, 0, |v.members| + 1
  {
    var keys := SortedKeys(v.members);
    ObjectText(v, r);
    hide SortedKeys, Stringify, MembersFrom, ReadMembers, ReadValue, Quote, Stands, MembersStand;
    var x := MembersFrom(v, keys, 0) + ([CLOSE_OBJ] + r);
    MembersCons(v, keys, 0, r);
    var ms: seq<Member> := [];
    if keys == [] {
      NoMembers(v, keys);
      assert x[1..] == r;
    } else {
      assert keys[0] in keys;
      ms := MembersRead(v, keys, 0, r);
      assert x == MemberText(v, keys, 0, r);
    }
    ObjectStep(x, ms, r);
    SameObject(v, keys, ms);
    w := Obj(ms);
  }

  lemma SameObject(v: Json, keys: seq<Text>, ms: seq<Member>)
    requires v.Obj? && Valid(v) && keys == SortedKeys(v.members) && MembersStand(ms, v, keys, 0)
    ensures Stands(Obj(ms), v)
  {
    hide SortedKeys, AtMost, Same, InOrder, Value, MembersStand, Ascending;
    KeysAscending(v.members);
    CountMembers(v, keys, ms);
    SortedObject(v, keys, ms);
    SameMembers(v, keys, ms);
    assert Same(v, Obj(ms), true) by { ObjectSame(v, Obj(ms)); }
  }

  lemma CountMembers(v: Json, keys: seq<Text>, ms: seq<Member>)
    requires v.Obj? && Valid(v) && MembersStand(ms, v, keys, 0)
    ensures |ms| == |keys|
    ensures forall j :: 0 <= j < |ms| ==> MemberStands(ms[j], v, keys[j])
  {
    assert forall j :: 0 <= j < |ms| ==> MemberStands(ms[j], v, keys[0 + j]);
  }

  lemma ObjectSame(v: Json, w: Json)
    requires v.Obj? && w.Obj? && Valid(v) && Valid(w) && |v.members| == |w.members|
    requires forall i :: 0 <= i < |v.members| ==>
      Has(w.members, v.members[i].key) && Same(v.members[i].value, Value(w, v.members[i].key), true)
    ensures Same(v, w, true)
  {
  }

  lemma SortedObject(v: Json, keys: seq<Text>, ms: seq<Member>)
    requires v.Obj? && Valid(v) && Ascending(keys) && |ms| == |keys|
    requires forall j :: 0 <= j < |ms| ==> MemberStands(ms[j], v, keys[j])
    ensures Valid(Obj(ms)) && InOrder(Obj(ms))
  {
    hide AtMost, Same, Value, Has;
    forall i, j | 0 <= i < j < |ms|
      ensures Before(ms[i].key, ms[j].key) && ms[i].key != ms[j].key
    {
      AtMostIs(keys[i], keys[j]);
    }
    forall j | 0 <= j < |ms|
      ensures IsText(ms[j].key)
    {
      ValueBelow(v, keys[j]);
    }
  }

  lemma SameMembers(v: Json, keys: seq<Text>, ms: seq<Member>)
    requires v.Obj? && Valid(v) && |ms| == |keys| && Valid(Obj(ms)) && forall k :: k in keys <==> Has(v.members, k)
    requires forall j :: 0 <= j < |ms| ==> MemberStands(ms[j], v, keys[j])
    ensures forall i :: 0 <= i < |v.members| ==>
      Has(ms, v.members[i].key) && Same(v.members[i].value, Value(Obj(ms), v.members[i].key), true)
  {
    hide Same, InOrder, Value;
    forall i | 0 <= i < |v.members|
      ensures Has(ms, v.members[i].key) && Same(v.members[i].value, Value(Obj(ms), v.members[i].key), true)
    {
      var key := v.members[i].key;
      assert Has(v.members, key);
      var j :| 0 <= j < |keys| && keys[j] == key;
      assert ms[j].key == key;
      ValueAt(v, i);
      ValueAt(Obj(ms), j);
    }
  }

  /** The serialisation is a JSON text of the value: it reads as the same value, with
      null for an infinity, and the keys of every object stand in order. */
  lemma TextReads(v: Json)
    requires Valid(v)
    ensures var r := ReadValue(Stringify(v)); r.Read? && r.rest == [] && Stands(r.value, v)
  {
    var w := ReadBack(v, []);
    assert Stringify(v) + [] == Stringify(v);
  }

  /** The short escapes, and the form of the others, in lower case. */
  lemma Escapes()
    ensures Escape('\t' as nat) == [BACKSLASH, 't' as nat] && Escape('\n' as nat) == [BACKSLASH, 'n' as nat]
            && Escape('\r' as nat) == [BACKSLASH, 'r' as nat]
    ensures Escape(8) == [BACKSLASH, 'b' as nat] && Escape(12) == [BACKSLASH, 'f' as nat]
    ensures Escape('"' as nat) == [BACKSLASH, '"' as nat] && Escape(BACKSLASH) == [BACKSLASH, BACKSLASH]
    ensures Escape(0x1F) == [BACKSLASH, 'u' as nat, '0' as nat, '0' as nat, '1' as nat, 'f' as nat]
    ensures Escape(0xDABC) == [BACKSLASH, 'u' as nat, 'd' as nat, 'a' as nat, 'b' as nat, 'c' as nat]
  {
  }
}
