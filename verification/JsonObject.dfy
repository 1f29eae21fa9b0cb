/**
 Objects with string keys: how they are written down, read, and compared. Reads do not see the order of
 keys, so two objects that are the same up to that order agree slot by slot.
 */
module JsonObject {
  import opened Bytes
  import opened JsonText
  import opened JsonValue
  import opened JsonCanonical

  // ----- Reading -----

  /** Text of the model's own string constants. */
  function T(s: string): (r: Text)
    ensures |r| == |s| && forall i :: 0 <= i < |s| ==> r[i] == s[i] as int
  {
    if s == "" then [] else [s[0] as int] + T(s[1..])
  }

  function Find(ms: seq<Member>, key: Text): Option<Json> {
    if ms == [] then None else if ms[0].key == key then Some(ms[0].value) else Find(ms[1..], key)
  }

  /** A property read: only objects have the properties asked for. */
  function Get(v: Json, key: Text): Option<Json> {
    if v.Obj? then Find(v.members, key) else None
  }

  /** A chain of optional property reads. */
  function Read(v: Option<Json>, path: seq<string>): Option<Json>
    decreases |path|
  {
    if path == [] || v.None? then v else Read(Get(v.value, T(path[0])), path[1..])
  }

  // ----- Reads do not see key order -----

  ghost predicate Same(x: Option<Json>, y: Option<Json>) {
    if x.Some? then y.Some? && WellFormed(x.value) && WellFormed(y.value) && Equiv(x.value, y.value) else y.None?
  }

  lemma {:induction false} FindMember(ms: seq<Member>, key: Text)
    requires DistinctMembers(ms)
    ensures Find(ms, key).None? <==> forall i :: 0 <= i < |ms| ==> ms[i].key != key
    ensures forall i :: 0 <= i < |ms| && ms[i].key == key ==> Find(ms, key) == Some(ms[i].value)
  {
    if ms != [] {
      FindMember(ms[1..], key);
      assert forall i :: 0 < i < |ms| ==> ms[i] == ms[1..][i - 1];
    }
  }

  lemma GetUpToOrder(v: Json, w: Json, key: Text)
    requires WellFormed(v) && WellFormed(w) && Equiv(v, w)
    ensures Same(Get(v, key), Get(w, key))
  {
    if v.Obj? {
      CanonDecides(v, w);
      CanonDecides(w, v);
      FindMember(v.members, key);
      FindMember(w.members, key);
      MatchingMember(v.members, w.members, key);
      MatchingMember(w.members, v.members, key);
    }
  }

  /** A member of one object has its match in the other. */
  lemma MatchingMember(a: seq<Member>, b: seq<Member>, key: Text)
    requires Equiv(Obj(a), Obj(b))
    ensures forall i :: 0 <= i < |a| && a[i].key == key ==>
      exists j :: 0 <= j < |b| && b[j].key == key && Equiv(a[i].value, b[j].value)
  {}

  lemma {:induction false} ReadUpToOrder(x: Option<Json>, y: Option<Json>, path: seq<string>)
    requires Same(x, y)
    ensures Same(Read(x, path), Read(y, path))
    decreases |path|
  {
    if path != [] && x.Some? {
      GetUpToOrder(x.value, y.value, T(path[0]));
      ReadUpToOrder(Get(x.value, T(path[0])), Get(y.value, T(path[0])), path[1..]);
    }
  }

  /** Scalars and empty arrays that are the same up to key order are the same. */
  lemma SameScalar(x: Option<Json>, y: Option<Json>)
    requires Same(x, y)
    ensures x.None? || x.value.Null? || x.value.Bool? || x.value.Num? || x.value.Str? || x.value == Arr([]) ==> x == y
  {}

  lemma SameSymmetric(x: Option<Json>, y: Option<Json>)
    requires Same(x, y)
    ensures Same(y, x)
  {
    if x.Some? {
      CanonDecides(x.value, y.value);
      CanonDecides(y.value, x.value);
    }
  }

  // ----- Writing -----

  /** A key and its value, if it has one; an absent one is left out of the object. */
  type Slot = (string, Option<Json>)

  function Present(slots: seq<Slot>): seq<Member> {
    if slots == [] then []
    else if slots[0].1.Some? then [Member(T(slots[0].0), slots[0].1.value)] + Present(slots[1..])
    else Present(slots[1..])
  }

  function O(slots: seq<Slot>): Json { Obj(Present(slots)) }

  lemma KeysAreStrings(a: string, b: string)
    ensures T(a) == T(b) <==> a == b
  {
    if T(a) == T(b) {
      assert forall i :: 0 <= i < |a| ==> a[i] as int == T(a)[i] == T(b)[i] == b[i] as int;
    }
  }

  /** No earlier slot has the key of slot `i`. */
  predicate FirstAt(slots: seq<Slot>, i: nat)
    requires i < |slots|
  {
    forall j :: 0 <= j < i ==> slots[j].0 != slots[i].0
  }

  predicate DistinctSlots(slots: seq<Slot>) {
    forall i :: 0 <= i < |slots| ==> FirstAt(slots, i)
  }

  /** A key without a slot has no member. */
  lemma {:induction false} SlotMissing(slots: seq<Slot>, key: string)
    requires forall j :: 0 <= j < |slots| ==> slots[j].0 != key
    ensures Find(Present(slots), T(key)) == None
    ensures forall i :: 0 <= i < |Present(slots)| ==> Present(slots)[i].key != T(key)
  {
    hide T;
    if slots != [] {
      KeysAreStrings(slots[0].0, key);
      assert forall j :: 0 <= j < |slots| - 1 ==> slots[1..][j] == slots[j + 1];
      SlotMissing(slots[1..], key);
    }
  }

  /** Reading the key of a slot gives its value. */
  lemma {:induction false} SlotFound(slots: seq<Slot>, i: nat)
    requires i < |slots| && FirstAt(slots, i)
    requires slots[i].1.Some? || DistinctSlots(slots)
    ensures Find(Present(slots), T(slots[i].0)) == slots[i].1
  {
    hide T;
    var rest := slots[1..];
    assert forall j :: 0 <= j < |rest| ==> rest[j] == slots[j + 1];
    if i > 0 {
      KeysAreStrings(slots[0].0, slots[i].0);
      if DistinctSlots(slots) {
        DistinctRest(slots);
      }
      SlotFound(rest, i - 1);
    } else if slots[0].1.None? {
      forall j | 0 <= j < |rest|
        ensures rest[j].0 != slots[0].0
      {
        assert FirstAt(slots, j + 1);
      }
      SlotMissing(rest, slots[0].0);
    }
  }

  lemma DistinctRest(slots: seq<Slot>)
    requires slots != [] && DistinctSlots(slots)
    ensures DistinctSlots(slots[1..])
    ensures forall j :: 0 <= j < |slots| - 1 ==> slots[1..][j].0 != slots[0].0
  {
    var rest := slots[1..];
    forall i | 0 <= i < |rest|
      ensures FirstAt(rest, i) && rest[i].0 != slots[0].0
    {
      assert FirstAt(slots, i + 1);
      assert forall j :: 0 <= j < |rest| ==> rest[j] == slots[j + 1];
    }
  }

  predicate Formed(x: Option<Json>) {
    x.Some? ==> WellFormed(x.value)
  }

  /** Every value there is, is well formed. */
  predicate FormedSlots(slots: seq<Slot>) {
    forall i :: 0 <= i < |slots| ==> Formed(slots[i].1)
  }

  /** Distinct keys and well-formed values make a well-formed object. */
  lemma {:induction false} ObjectForm(slots: seq<Slot>)
    requires DistinctSlots(slots) && FormedSlots(slots)
    ensures WellFormed(O(slots))
  {
    hide T;
    if slots != [] {
      var rest := slots[1..];
      DistinctRest(slots);
      assert forall j :: 0 <= j < |rest| ==> rest[j] == slots[j + 1];
      ObjectForm(rest);
      SlotMissing(rest, slots[0].0);
    }
  }

  /** Objects that are the same up to key order agree slot by slot. */
  lemma SlotsAgree(a: seq<Slot>, b: seq<Slot>)
    requires |a| == |b| && forall i :: 0 <= i < |a| ==> a[i].0 == b[i].0
    requires DistinctSlots(a) && DistinctSlots(b) && FormedSlots(a) && FormedSlots(b)
    requires Equiv(O(a), O(b))
    ensures forall i :: 0 <= i < |a| ==> Same(a[i].1, b[i].1)
  {
    hide T, Present, Same, Equiv, WellFormed;
    ObjectForm(a);
    ObjectForm(b);
    forall i | 0 <= i < |a|
      ensures Same(a[i].1, b[i].1)
    {
      SlotFound(a, i);
      SlotFound(b, i);
      GetUpToOrder(O(a), O(b), T(a[i].0));
    }
  }
}
