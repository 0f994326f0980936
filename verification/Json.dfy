/** JSON values, the stable serialisation that keys the schema cache, and the
    deep comparison it is meant to agree with. */
module Json {

  /** A JavaScript string, as 16-bit units. */
  type Text = seq<nat>

  /** What JSON.parse returns. A finite number stands for its Number::toString
      text, which identifies it up to the sign of zero; a literal too large for
      a double becomes an infinity. Members are in Object.keys order. */
  datatype Json =
    | Null
    | Bool(b: bool)
    | Num(text: Text)
    | Infinity(negative: bool)
    | Str(s: Text)
    | Arr(items: seq<Json>)
    | Obj(members: seq<Member>)

  datatype Member = Member(key: Text, value: Json)

  const QUOTE: nat := 0x22
  const BACKSLASH: nat := 0x5C
  const COMMA: nat := 0x2C
  const COLON: nat := 0x3A
  const OPEN_LIST: nat := 0x5B
  const CLOSE_LIST: nat := 0x5D
  const OPEN_OBJ: nat := 0x7B
  const CLOSE_OBJ: nat := 0x7D

  const NULL_TEXT: Text := [0x6E, 0x75, 0x6C, 0x6C]
  const TRUE_TEXT: Text := [0x74, 0x72, 0x75, 0x65]
  const FALSE_TEXT: Text := [0x66, 0x61, 0x6C, 0x73, 0x65]

  /** The characters of a number: digits, "-", "+", "." and "e". */
  predicate IsNumChar(c: nat) {
    0x30 <= c <= 0x39 || c == 0x2D || c == 0x2B || c == 0x2E || c == 0x65
  }

  predicate IsNumText(t: Text) {
    t != [] && (0x30 <= t[0] <= 0x39 || t[0] == 0x2D) && forall i :: 0 <= i < |t| ==> IsNumChar(t[i])
  }

  predicate IsText(t: Text) {
    forall i :: 0 <= i < |t| ==> t[i] < 0x10000
  }

  predicate DistinctKeys(ms: seq<Member>) {
    forall i, j :: 0 <= i < j < |ms| ==> ms[i].key != ms[j].key
  }

  predicate Valid(v: Json) {
    match v
    case Num(t) => IsNumText(t)
    case Str(s) => IsText(s)
    case Arr(items) => forall i :: 0 <= i < |items| ==> Valid(items[i])
    case Obj(ms) => DistinctKeys(ms) && forall i :: 0 <= i < |ms| ==> IsText(ms[i].key) && Valid(ms[i].value)
    case _ => true
  }

  // ----- members and keys -----------------------------------------------------

  predicate Has(ms: seq<Member>, key: Text) {
    exists i :: 0 <= i < |ms| && ms[i].key == key
  }

  /** Where the member `key` is. */
  function IndexOf(ms: seq<Member>, key: Text): (i: nat)
    requires Has(ms, key)
    ensures i < |ms| && ms[i].key == key
  {
    if ms[0].key == key then 0
    else
      assert Has(ms[1..], key) by {
        var j :| 0 <= j < |ms| && ms[j].key == key;
        assert ms[1..][j - 1].key == key;
      }
      1 + IndexOf(ms[1..], key)
  }

  function Keys(ms: seq<Member>): (r: seq<Text>)
    ensures |r| == |ms| && forall i :: 0 <= i < |ms| ==> r[i] == ms[i].key
  {
    seq(|ms|, i requires 0 <= i < |ms| => ms[i].key)
  }

  /** The order of Array.prototype.sort on strings. */
  predicate AtMost(a: Text, b: Text) {
    a == [] || (b != [] && (a[0] < b[0] || (a[0] == b[0] && AtMost(a[1..], b[1..]))))
  }

  function InsertKey(k: Text, keys: seq<Text>): (r: seq<Text>)
    ensures forall x :: x in r <==> x == k || x in keys
    ensures |r| == |keys| + 1
  {
    if keys == [] || AtMost(k, keys[0]) then [k] + keys else [keys[0]] + InsertKey(k, keys[1..])
  }

  /** Array.prototype.sort */
  function Sort(keys: seq<Text>): (r: seq<Text>)
    ensures forall x :: x in r <==> x in keys
    ensures |r| == |keys|
  {
    if keys == [] then [] else InsertKey(keys[0], Sort(keys[1..]))
  }

  function SortedKeys(ms: seq<Member>): (r: seq<Text>)
    ensures |r| == |ms| && forall k :: k in r ==> Has(ms, k)
  {
    Sort(Keys(ms))
  }

  // ----- stringify --------------------------------------------------------------

  predicate IsHigh(u: nat) {
    0xD800 <= u < 0xDC00
  }

  predicate IsLow(u: nat) {
    0xDC00 <= u < 0xE000
  }

  function HexDigit(d: nat): nat
    requires d < 16
  {
    if d < 10 then 0x30 + d else 0x57 + d
  }

  /** The escape of one unit that is not part of a surrogate pair. */
  function Escape(c: nat): Text
    requires c < 0x10000
  {
    if c == 9 then [BACKSLASH, 0x74]
    else if c == 13 then [BACKSLASH, 0x72]
    else if c == 10 then [BACKSLASH, 0x6E]
    else if c == 8 then [BACKSLASH, 0x62]
    else if c == 12 then [BACKSLASH, 0x66]
    else if c == QUOTE || c == BACKSLASH then [BACKSLASH, c]
    else if c < 32 || IsHigh(c) || IsLow(c) then
      [BACKSLASH, 0x75, HexDigit(c / 0x1000), HexDigit(c / 0x100 % 16), HexDigit(c / 16 % 16), HexDigit(c % 16)]
    else [c]
  }

  function Escaped(s: Text): Text
    requires IsText(s)
    decreases |s|
  {
    if s == [] then []
    else if IsHigh(s[0]) && |s| > 1 && IsLow(s[1]) then s[..2] + Escaped(s[2..])
    else Escape(s[0]) + Escaped(s[1..])
  }

  /** JSON.stringify of a string. */
  function Quote(s: Text): Text
    requires IsText(s)
  {
    [QUOTE] + Escaped(s) + [QUOTE]
  }

  /** fast-json-stable-stringify without options. */
  function Stringify(v: Json): Text
    requires Valid(v)
    decreases v, 1, 0
  {
    match v
    case Null => NULL_TEXT
    case Bool(b) => if b then TRUE_TEXT else FALSE_TEXT
    case Num(t) => t
    case Infinity(_) => NULL_TEXT
    case Str(s) => Quote(s)
    case Arr(items) => [OPEN_LIST] + ItemsFrom(v, 0) + [CLOSE_LIST]
    case Obj(ms) => [OPEN_OBJ] + MembersFrom(v, SortedKeys(ms), 0) + [CLOSE_OBJ]
  }

  function Separator(i: nat): Text {
    if i == 0 then [] else [COMMA]
  }

  function ItemsFrom(v: Json, i: nat): Text
    requires v.Arr? && Valid(v) && i <= |v.items|
    decreases v, 0, |v.items| - i
  {
    if i == |v.items| then []
    else Separator(i) + Stringify(v.items[i]) + ItemsFrom(v, i + 1)
  }

  /** `node[key]` */
  function Value(v: Json, key: Text): (r: Json)
    requires v.Obj? && Valid(v) && Has(v.members, key)
    ensures Valid(r) && IsText(key)
    ensures exists i :: 0 <= i < |v.members| && v.members[i] == Member(key, r)
  {
    v.members[IndexOf(v.members, key)].value
  }

  function MembersFrom(v: Json, keys: seq<Text>, i: nat): Text
    requires v.Obj? && Valid(v) && i <= |keys| && forall k :: k in keys ==> Has(v.members, k)
    decreases v, 0, |keys| - i
  {
    if i == |keys| then []
    else
      var j := IndexOf(v.members, keys[i]);
      Separator(i) + (Quote(keys[i]) + [COLON] + Stringify(v.members[j].value)) + MembersFrom(v, keys, i + 1)
  }

  // ----- deep equality ------------------------------------------------------------

  /** The same JSON value, members in any order. With `asText` an infinity, which
      JSON cannot express, is the same as null. */
  ghost predicate Same(a: Json, b: Json, asText: bool)
    requires Valid(a) && Valid(b)
    decreases a
  {
    match a
    case Null => b.Null? || (asText && b.Infinity?)
    case Bool(x) => b == a
    case Num(t) => b == a
    case Infinity(x) => b == a || (asText && (b.Null? || b.Infinity?))
    case Str(s) => b == a
    case Arr(items) =>
      b.Arr? && |b.items| == |items| && forall i :: 0 <= i < |items| ==> Same(items[i], b.items[i], asText)
    case Obj(ms) =>
      && b.Obj? && |b.members| == |ms|
      && forall i :: 0 <= i < |ms| ==> Has(b.members, ms[i].key) && Same(ms[i].value, Value(b, ms[i].key), asText)
  }

  /** Neither null nor an infinity anywhere: nothing that is written as null. */
  ghost predicate NoNull(v: Json) {
    match v
    case Null => false
    case Infinity(_) => false
    case Arr(items) => forall i :: 0 <= i < |items| ==> NoNull(items[i])
    case Obj(ms) => forall i :: 0 <= i < |ms| ==> NoNull(ms[i].value)
    case _ => true
  }

  /** No infinity anywhere. */
  ghost predicate IsFinite(v: Json) {
    match v
    case Infinity(_) => false
    case Arr(items) => forall i :: 0 <= i < |items| ==> IsFinite(items[i])
    case Obj(ms) => forall i :: 0 <= i < |ms| ==> IsFinite(ms[i].value)
    case _ => true
  }
}
