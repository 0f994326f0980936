/** fast-deep-equal on values that come out of separate calls of JSON.parse, so
    that no object of one is an object of the other. */
module JsonEqual {
  import opened Json
  import opened JsonText

  datatype Verdict = Yes | No | Throws

  const CONSTRUCTOR: Text := [0x63, 0x6F, 0x6E, 0x73, 0x74, 0x72, 0x75, 0x63, 0x74, 0x6F, 0x72]
  const VALUE_OF: Text := [0x76, 0x61, 0x6C, 0x75, 0x65, 0x4F, 0x66]
  const TO_STRING: Text := [0x74, 0x6F, 0x53, 0x74, 0x72, 0x69, 0x6E, 0x67]

  predicate IsObject(v: Json) {
    v.Arr? || v.Obj?
  }

  /** `===`; two objects are never the same one. */
  predicate StrictlyEqual(a: Json, b: Json) {
    !IsObject(a) && a == b
  }

  /** `a.constructor`: an own member, or the function Array or Object. */
  datatype Constructor = ArrayFunction | ObjectFunction | Own(value: Json)

  function ConstructorOf(v: Json): Constructor
    requires IsObject(v) && Valid(v)
  {
    if v.Arr? then ArrayFunction
    else if Has(v.members, CONSTRUCTOR) then Own(Value(v, CONSTRUCTOR))
    else ObjectFunction
  }

  predicate SameConstructor(c: Constructor, d: Constructor) {
    if c.Own? && d.Own? then StrictlyEqual(c.value, d.value) else c == d
  }

  function Equal(a: Json, b: Json): Verdict
    requires Valid(a) && Valid(b)
    decreases a, 1, 0
  {
    if StrictlyEqual(a, b) then Yes
    else if IsObject(a) && IsObject(b) then
      if !SameConstructor(ConstructorOf(a), ConstructorOf(b)) then No
      else if a.Arr? then
        if |a.items| != |b.items| then No else EqualItems(a, b, |a.items|)
      else if Has(a.members, VALUE_OF) || Has(a.members, TO_STRING) then Throws
      else if |a.members| != |b.members| then No
      else if exists i :: 0 <= i < |a.members| && !Has(b.members, a.members[i].key) then No
      else EqualMembers(a, b, |a.members|)
    else No
  }

  /** The loop over the items below `i`, from the last one down. */
  function EqualItems(a: Json, b: Json, i: nat): Verdict
    requires a.Arr? && b.Arr? && Valid(a) && Valid(b) && i <= |a.items| == |b.items|
    decreases a, 0, i
  {
    if i == 0 then Yes
    else
      var r := Equal(a.items[i - 1], b.items[i - 1]);
      if r != Yes then r else EqualItems(a, b, i - 1)
  }

  /** The loop over the members below `i`, from the last one down. */
  function EqualMembers(a: Json, b: Json, i: nat): Verdict
    requires a.Obj? && b.Obj? && Valid(a) && Valid(b) && i <= |a.members|
    requires forall j :: 0 <= j < |a.members| ==> Has(b.members, a.members[j].key)
    decreases a, 0, i
  {
    if i == 0 then Yes
    else
      var r := Equal(a.members[i - 1].value, Value(b, a.members[i - 1].key));
      if r != Yes then r else EqualMembers(a, b, i - 1)
  }

  // ----- when it is right -----------------------------------------------------------

  /** No object at any depth has a member named valueOf or toString, or a member
      named constructor that is itself an object or array. */
  ghost predicate Tame(v: Json)
    requires Valid(v)
  {
    match v
    case Arr(items) => forall i :: 0 <= i < |items| ==> Tame(items[i])
    case Obj(ms) =>
      && !Has(ms, VALUE_OF) && !Has(ms, TO_STRING)
      && (Has(ms, CONSTRUCTOR) ==> !IsObject(Value(v, CONSTRUCTOR)))
      && forall i :: 0 <= i < |ms| ==> Tame(ms[i].value)
    case _ => true
  }

  /** What the comparison looks at before it descends. */
  lemma Guards(a: Json, b: Json)
    requires a.Obj? && b.Obj? && Valid(a) && Valid(b)
    requires |a.members| == |b.members| && forall i :: 0 <= i < |a.members| ==> Has(b.members, a.members[i].key)
    requires Has(a.members, CONSTRUCTOR) ==> Same(Value(a, CONSTRUCTOR), Value(b, CONSTRUCTOR), false)
    ensures SameConstructor(ConstructorOf(a), ConstructorOf(b))
        <==> (Has(a.members, CONSTRUCTOR) ==> !IsObject(Value(a, CONSTRUCTOR)))
  {
    hide CONSTRUCTOR;
    KeyCount(a.members);
    KeyCount(b.members);
    SubsetOfSameSize(KeySet(a.members), KeySet(b.members));
    assert CONSTRUCTOR in KeySet(a.members) <==> CONSTRUCTOR in KeySet(b.members);
  }

  lemma {:induction false} EqualExact(a: Json, b: Json)
    requires Valid(a) && Valid(b)
    ensures Equal(a, b) == Yes <==> Same(a, b, false) && Tame(a)
    decreases a, 1, 0
  {
    match a
    case Arr(items) =>
      if b.Arr? && |b.items| == |items| { ItemsExact(a, b, |items|); }
    case Obj(ms) =>
      if b.Obj? && |b.members| == |ms| && forall i :: 0 <= i < |ms| ==> Has(b.members, ms[i].key) {
        MembersExact(a, b, |ms|);
        ObjectExact(a, b);
      }
    case _ =>
  }

  lemma {:induction false} ItemsExact(a: Json, b: Json, n: nat)
    requires a.Arr? && b.Arr? && Valid(a) && Valid(b) && n <= |a.items| == |b.items|
    ensures EqualItems(a, b, n) == Yes <==> forall i :: 0 <= i < n ==>
            Same(a.items[i], b.items[i], false) && Tame(a.items[i])
    decreases a, 0, n
  {
    if n > 0 {
      EqualExact(a.items[n - 1], b.items[n - 1]);
      ItemsExact(a, b, n - 1);
    }
  }

  lemma {:induction false} MembersExact(a: Json, b: Json, n: nat)
    requires a.Obj? && b.Obj? && Valid(a) && Valid(b) && n <= |a.members|
    requires forall j :: 0 <= j < |a.members| ==> Has(b.members, a.members[j].key)
    ensures EqualMembers(a, b, n) == Yes <==>
              forall i :: 0 <= i < n ==> Same(a.members[i].value, Value(b, a.members[i].key), false)
                                         && Tame(a.members[i].value)
    decreases a, 0, n
  {
    hide Same, Tame, Equal, Value, Valid;
    if n > 0 {
      var v, key := a.members[n - 1].value, a.members[n - 1].key;
      MemberValid(a, n - 1);
      EqualExact(v, Value(b, key));
      MembersExact(a, b, n - 1);
    }
  }

  lemma MemberValid(v: Json, i: nat)
    requires v.Obj? && Valid(v) && i < |v.members|
    ensures Valid(v.members[i].value)
  {
  }

  lemma ObjectExact(a: Json, b: Json)
    requires a.Obj? && b.Obj? && Valid(a) && Valid(b)
    requires |a.members| == |b.members| && forall i :: 0 <= i < |a.members| ==> Has(b.members, a.members[i].key)
    requires EqualMembers(a, b, |a.members|) == Yes <==>
               forall i :: 0 <= i < |a.members| ==> Same(a.members[i].value, Value(b, a.members[i].key), false)
                                                    && Tame(a.members[i].value)
    ensures Equal(a, b) == Yes <==> Same(a, b, false) && Tame(a)
  {
    EqualObject(a, b);
    SameObject(a, b);
    TameObject(a);
    hide CONSTRUCTOR, VALUE_OF, TO_STRING, EqualMembers, Equal, Same, Tame, Valid, SameConstructor, ConstructorOf;
    if forall i :: 0 <= i < |a.members| ==> Same(a.members[i].value, Value(b, a.members[i].key), false) {
      if Has(a.members, CONSTRUCTOR) {
        var i := IndexOf(a.members, CONSTRUCTOR);
        ValueAt(a, i);
      }
      Guards(a, b);
    }
  }

  // One level of the definitions, for objects.

  lemma EqualObject(a: Json, b: Json)
    requires a.Obj? && b.Obj? && Valid(a) && Valid(b)
    requires |a.members| == |b.members| && forall i :: 0 <= i < |a.members| ==> Has(b.members, a.members[i].key)
    ensures Equal(a, b) == Yes
       <==> SameConstructor(ConstructorOf(a), ConstructorOf(b)) && !Has(a.members, VALUE_OF)
            && !Has(a.members, TO_STRING)
            && EqualMembers(a, b, |a.members|) == Yes
  {
    hide CONSTRUCTOR, VALUE_OF, TO_STRING, EqualMembers, SameConstructor, ConstructorOf;
  }

  lemma SameObject(a: Json, b: Json)
    requires a.Obj? && b.Obj? && Valid(a) && Valid(b)
    requires |a.members| == |b.members| && forall i :: 0 <= i < |a.members| ==> Has(b.members, a.members[i].key)
    ensures (forall i :: 0 <= i < |a.members| ==> Valid(a.members[i].value))
    ensures Same(a, b, false) <==> forall i :: 0 <= i < |a.members| ==>
            Same(a.members[i].value, Value(b, a.members[i].key), false)
  {
  }

  lemma TameObject(a: Json)
    requires a.Obj? && Valid(a)
    ensures forall i :: 0 <= i < |a.members| ==> Valid(a.members[i].value)
    ensures Tame(a)
       <==> !Has(a.members, VALUE_OF) && !Has(a.members, TO_STRING)
            && (Has(a.members, CONSTRUCTOR) ==> !IsObject(Value(a, CONSTRUCTOR)))
            && forall i :: 0 <= i < |a.members| ==> Tame(a.members[i].value)
  {
    hide CONSTRUCTOR, VALUE_OF, TO_STRING;
  }

  lemma {:induction false} SameAsItself(v: Json)
    requires Valid(v)
    ensures Same(v, v, false)
  {
    match v
    case Arr(items) =>
      forall i | 0 <= i < |items| ensures Same(items[i], items[i], false) { SameAsItself(items[i]); }
    case Obj(ms) =>
      forall i | 0 <= i < |ms| ensures Has(ms, ms[i].key) && Same(ms[i].value, Value(v, ms[i].key), false) {
        ValueAt(v, i);
        SameAsItself(ms[i].value);
      }
    case _ =>
  }

  /** Among finite values, the cache key and deep equality agree on `a` and every
      other value exactly when `a` is tame. */
  lemma KeysAgree(a: Json)
    requires Valid(a) && IsFinite(a)
    ensures Tame(a) <==> forall b | Valid(b) && IsFinite(b) :: Stringify(a) == Stringify(b) <==> Equal(a, b) == Yes
  {
    hide Same, Tame, Stringify, Equal, Valid, IsFinite;
    forall b | Valid(b) && IsFinite(b)
      ensures Stringify(a) == Stringify(b) <==> Same(a, b, false)
      ensures Equal(a, b) == Yes <==> Same(a, b, false) && Tame(a)
    {
      TextIdentifies(a, b);
      FiniteSame(a, b);
      EqualExact(a, b);
    }
    SameAsItself(a);
  }

  /** Null and the infinities exchanged everywhere. */
  function Flip(v: Json): Json {
    match v
    case Null => Infinity(false)
    case Infinity(_) => Null
    case Arr(items) => Arr(seq(|items|, i requires 0 <= i < |items| => Flip(items[i])))
    case Obj(ms) => Obj(seq(|ms|, i requires 0 <= i < |ms| => Member(ms[i].key, Flip(ms[i].value))))
    case _ => v
  }

  /** The exchange changes nothing in the text, and changes every value that
      contains null or an infinity. */
  lemma {:induction false} FlipSame(v: Json)
    requires Valid(v)
    ensures Valid(Flip(v)) && Same(v, Flip(v), true) && (Same(v, Flip(v), false) <==> NoNull(v))
    decreases v
  {
    match v
    case Arr(items) =>
      forall i | 0 <= i < |items|
        ensures var w := Flip(items[i]); Valid(w) && Same(items[i], w, true)
                                         && (Same(items[i], w, false) <==> NoNull(items[i]))
      {
        FlipSame(items[i]);
      }
    case Obj(ms) => FlipMembers(v);
    case _ =>
  }

  lemma {:induction false} FlipMembers(v: Json)
    requires Valid(v) && v.Obj?
    ensures Valid(Flip(v)) && Same(v, Flip(v), true) && (Same(v, Flip(v), false) <==> NoNull(v))
    decreases v, 0
  {
    var ms, w := v.members, Flip(v);
    forall i | 0 <= i < |ms|
      ensures Valid(w.members[i].value) && Same(ms[i].value, w.members[i].value, true)
      ensures Same(ms[i].value, w.members[i].value, false) <==> NoNull(ms[i].value)
    {
      FlipSame(ms[i].value);
    }
    assert Valid(w);
    forall i | 0 <= i < |ms|
      ensures Has(w.members, ms[i].key) && Value(w, ms[i].key) == w.members[i].value
    {
      ValueAt(w, i);
    }
  }

  lemma {:induction false} NoNullSame(a: Json, b: Json)
    requires Valid(a) && Valid(b) && NoNull(a) && Same(a, b, true)
    ensures Same(a, b, false)
    decreases a
  {
    match a
    case Arr(items) =>
      forall i | 0 <= i < |items| ensures Same(items[i], b.items[i], false) { NoNullSame(items[i], b.items[i]); }
    case Obj(ms) =>
      forall i | 0 <= i < |ms| ensures Same(ms[i].value, Value(b, ms[i].key), false) {
        NoNullSame(ms[i].value, Value(b, ms[i].key));
      }
    case _ =>
  }

  /** The cache key and deep equality agree on `a` and every other value exactly
      when `a` is tame and nothing in it is written as null. */
  lemma KeysAgreeExactly(a: Json)
    requires Valid(a)
    ensures Tame(a) && NoNull(a) <==> forall b | Valid(b) :: Stringify(a) == Stringify(b) <==> Equal(a, b) == Yes
  {
    hide Same, Tame, Stringify, Equal, Valid, NoNull, Flip;
    forall b | Valid(b)
      ensures Stringify(a) == Stringify(b) <==> Same(a, b, true)
      ensures Equal(a, b) == Yes <==> Same(a, b, false) && Tame(a)
      ensures Same(a, b, false) ==> Same(a, b, true)
      ensures NoNull(a) && Same(a, b, true) ==> Same(a, b, false)
    {
      TextIdentifies(a, b);
      EqualExact(a, b);
      if Same(a, b, false) { Weaker(a, b); }
      if NoNull(a) && Same(a, b, true) { NoNullSame(a, b); }
    }
    SameAsItself(a);
    FlipSame(a);
    var flipped := Flip(a);
    assert Stringify(a) == Stringify(flipped) && (Equal(a, flipped) == Yes <==> NoNull(a) && Tame(a));
  }

  /** `[1e400]` and `[null]` have the same key and are not equal. */
  lemma InfinityCollides()
    ensures var a, b := Arr([Infinity(false)]), Arr([Null]);
            Valid(a) && Valid(b) && Stringify(a) == Stringify(b) && Equal(a, b) == No
  {
    var a, b := Arr([Infinity(false)]), Arr([Null]);
    assert Same(a.items[0], b.items[0], true);
    TextIdentifies(a, b);
  }

  /** Wherever deep equality says yes the key is the same, for all values. */
  lemma EqualHaveSameKey(a: Json, b: Json)
    requires Valid(a) && Valid(b) && Equal(a, b) == Yes
    ensures Stringify(a) == Stringify(b)
  {
    EqualExact(a, b);
    Weaker(a, b);
    TextIdentifies(a, b);
  }

  lemma {:induction false} Weaker(a: Json, b: Json)
    requires Valid(a) && Valid(b) && Same(a, b, false)
    ensures Same(a, b, true)
    decreases a
  {
    match a
    case Arr(items) =>
      forall i | 0 <= i < |items| ensures Same(items[i], b.items[i], true) { Weaker(items[i], b.items[i]); }
    case Obj(ms) =>
      forall i | 0 <= i < |ms| ensures Same(ms[i].value, Value(b, ms[i].key), true) {
        Weaker(ms[i].value, Value(b, ms[i].key));
      }
    case _ =>
  }

  /** `{"constructor":{}}` is not equal to a copy of itself, and comparing
      `{"valueOf":null}` with a copy throws. */
  lemma NotReflexive()
    ensures var a := Obj([Member(CONSTRUCTOR, Obj([]))]); Valid(a) && IsFinite(a) && Equal(a, a) == No
    ensures var b := Obj([Member(VALUE_OF, Null)]); Valid(b) && IsFinite(b) && Equal(b, b) == Throws
  {
    var a, b := Obj([Member(CONSTRUCTOR, Obj([]))]), Obj([Member(VALUE_OF, Null)]);
    assert a.members[0].key == CONSTRUCTOR && b.members[0].key == VALUE_OF;
    assert Has(a.members, CONSTRUCTOR) && Has(b.members, VALUE_OF);
    assert VALUE_OF[0] != CONSTRUCTOR[0];
    assert !Has(b.members, CONSTRUCTOR);
  }
}
