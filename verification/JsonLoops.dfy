/** The loops of stringify and equal, and the schema cache. */
module JsonLoops {
  import opened Json
  import opened JsonText
  import opened JsonEqual

  method StringifyLoop(node: Json) returns (text: Text)
    requires Valid(node)
    ensures text == Stringify(node)
    decreases node, 1
  {
    hide Quote, SortedKeys, ItemsFrom, MembersFrom;
    if node.Arr? {
      var out := StringifyItems(node);
      return out + [CLOSE_LIST];
    }
    if node.Obj? {
      var out := StringifyMembers(node, SortedKeys(node.members));
      return [OPEN_OBJ] + out + [CLOSE_OBJ];
    }
    text := match node
      case Null => NULL_TEXT
      case Bool(b) => if b then TRUE_TEXT else FALSE_TEXT
      case Num(t) => t
      case Infinity(_) => NULL_TEXT
      case Str(s) => Quote(s)
      case _ => [];
  }

  method StringifyItems(node: Json) returns (out: Text)
    requires node.Arr? && Valid(node)
    ensures out == [OPEN_LIST] + ItemsFrom(node, 0)
    decreases node, 0
  {
    hide Stringify;
    out := [OPEN_LIST];
    var i := 0;
    while i < |node.items|
      invariant i <= |node.items|
      invariant out + ItemsFrom(node, i) == [OPEN_LIST] + ItemsFrom(node, 0)
    {
      if i != 0 {
        out := out + [COMMA];
      }
      var item := StringifyLoop(node.items[i]);
      out := out + item;
      i := i + 1;
    }
  }

  method StringifyMembers(node: Json, keys: seq<Text>) returns (out: Text)
    requires node.Obj? && Valid(node) && forall k :: k in keys ==> Has(node.members, k)
    ensures out == MembersFrom(node, keys, 0)
    decreases node, 0
  {
    hide Stringify, Quote, MembersFrom, IndexOf, Valid;
    out := [];
    var i := 0;
    while i < |keys|
      invariant i <= |keys|
      invariant out + MembersFrom(node, keys, i) == MembersFrom(node, keys, 0)
      invariant i == 0 <==> out == []
    {
      var key := keys[i];
      assert key in keys;
      NextMember(node, keys, i);
      var value := StringifyLoop(node.members[IndexOf(node.members, key)].value);
      if out != [] {
        out := out + [COMMA];
      }
      out := out + (Quote(key) + [COLON] + value);
      i := i + 1;
    }
    NoMoreMembers(node, keys);
  }

  lemma NextMember(node: Json, keys: seq<Text>, i: nat)
    requires node.Obj? && Valid(node) && i < |keys| && forall k :: k in keys ==> Has(node.members, k)
    ensures Has(node.members, keys[i]) && IsText(keys[i])
    ensures var v := node.members[IndexOf(node.members, keys[i])].value;
            && Valid(v) && v < node
            && MembersFrom(node, keys, i)
               == Separator(i) + (Quote(keys[i]) + [COLON] + Stringify(v)) + MembersFrom(node, keys, i + 1)
  {
    hide Stringify, Quote, IndexOf;
    assert keys[i] in keys;
  }

  lemma NoMoreMembers(node: Json, keys: seq<Text>)
    requires node.Obj? && Valid(node) && forall k :: k in keys ==> Has(node.members, k)
    ensures MembersFrom(node, keys, |keys|) == []
  {
  }

  method EqualLoop(a: Json, b: Json) returns (r: Verdict)
    requires Valid(a) && Valid(b)
    ensures r == Equal(a, b)
    decreases a, 1
  {
    hide CONSTRUCTOR, VALUE_OF, TO_STRING, ConstructorOf, SameConstructor, EqualItems, EqualMembers;
    if StrictlyEqual(a, b) {
      return Yes;
    }
    if !IsObject(a) || !IsObject(b) {
      return No;
    }
    if !SameConstructor(ConstructorOf(a), ConstructorOf(b)) {
      return No;
    }
    ConstructorKinds(a, b);
    if a.Arr? {
      if |a.items| != |b.items| {
        return No;
      }
      r := EqualItemsLoop(a, b);
      return;
    }
    if Has(a.members, VALUE_OF) || Has(a.members, TO_STRING) {
      return Throws;
    }
    if |a.members| != |b.members| {
      return No;
    }
    var i: nat := |a.members|;
    while i != 0
      invariant i <= |a.members| && forall j :: i <= j < |a.members| ==> Has(b.members, a.members[j].key)
    {
      i := i - 1;
      if !Has(b.members, a.members[i].key) {
        return No;
      }
    }
    r := EqualMembersLoop(a, b);
  }

  method EqualItemsLoop(a: Json, b: Json) returns (r: Verdict)
    requires a.Arr? && b.Arr? && Valid(a) && Valid(b) && |a.items| == |b.items|
    ensures r == EqualItems(a, b, |a.items|)
    decreases a, 0
  {
    hide Equal;
    var i: nat := |a.items|;
    while i != 0
      invariant i <= |a.items| && EqualItems(a, b, i) == EqualItems(a, b, |a.items|)
    {
      i := i - 1;
      var item := EqualLoop(a.items[i], b.items[i]);
      if item != Yes {
        return item;
      }
    }
    return Yes;
  }

  method EqualMembersLoop(a: Json, b: Json) returns (r: Verdict)
    requires a.Obj? && b.Obj? && Valid(a) && Valid(b)
    requires forall j :: 0 <= j < |a.members| ==> Has(b.members, a.members[j].key)
    ensures r == EqualMembers(a, b, |a.members|)
    decreases a, 0
  {
    hide Equal;
    var i: nat := |a.members|;
    while i != 0
      invariant i <= |a.members| && EqualMembers(a, b, i) == EqualMembers(a, b, |a.members|)
    {
      i := i - 1;
      var key := a.members[i].key;
      var value := EqualLoop(a.members[i].value, Value(b, key));
      if value != Yes {
        return value;
      }
    }
    return Yes;
  }

  lemma ConstructorKinds(a: Json, b: Json)
    requires IsObject(a) && IsObject(b) && Valid(a) && Valid(b) && SameConstructor(ConstructorOf(a), ConstructorOf(b))
    ensures a.Arr? <==> b.Arr?
  {
    hide CONSTRUCTOR;
  }

  /** `typeof schema` is "object" or "boolean". */
  predicate IsSchema(v: Json) {
    IsObject(v) || v.Null? || v.Bool?
  }

  datatype Added = Cached(schema: Json) | New | Rejected

  /** The part of Ajv that _addSchema works on: compiled schemas by cache key. */
  class SchemaCache {
    var entries: map<Text, Json>

    ghost predicate Ok()
      reads this
    {
      forall k :: k in entries ==> Valid(entries[k]) && Stringify(entries[k]) == k
    }

    constructor ()
      ensures Ok() && entries == map[]
    {
      entries := map[];
    }

    /** _addSchema. `checks` tells whether the checks of the identifier and the
        validation of a new schema succeed. A cache hit is the schema that was
        asked for, up to the order of members. */
    method AddSchema(schema: Json, checks: bool) returns (r: Added)
      requires Ok() && Valid(schema)
      modifies this
      ensures Ok()
      ensures r.Cached? ==> Valid(r.schema) && Same(schema, r.schema, true) && entries == old(entries)
      ensures r.Cached? && IsFinite(schema) && IsFinite(r.schema) ==> Same(schema, r.schema, false)
      ensures r.Cached? && NoNull(schema) && Tame(schema) ==> Equal(schema, r.schema) == Yes
      ensures r.New? ==> entries == old(entries)[Stringify(schema) := schema]
                         && forall k :: k in old(entries) ==>
                            Valid(old(entries)[k]) && !Same(schema, old(entries)[k], true)
      ensures r.Rejected? <==> !IsSchema(schema) || (Stringify(schema) !in old(entries) && !checks)
      ensures r.Rejected? ==> entries == old(entries)
    {
      if !IsSchema(schema) {
        return Rejected;
      }
      var cacheKey := StringifyLoop(schema);
      forall k | k in entries
        ensures Same(schema, entries[k], true) <==> k == cacheKey
      {
        TextIdentifies(schema, entries[k]);
      }
      if cacheKey in entries {
        if IsFinite(schema) && IsFinite(entries[cacheKey]) {
          FiniteSame(schema, entries[cacheKey]);
        }
        if NoNull(schema) && Tame(schema) {
          KeysAgreeExactly(schema);
        }
        return Cached(entries[cacheKey]);
      }
      if !checks {
        return Rejected;
      }
      entries := entries[cacheKey := schema];
      r := New;
    }
  }
}
