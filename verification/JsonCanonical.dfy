/**
 Canonical JSON: keys sorted at every level, then printed. The order of keys in the text is the order
 in which JavaScript enumerates an object whose keys were inserted sorted: array indices first.
 */
module JsonCanonical {
  import opened Ordering
  import opened JsonText
  import opened JsonValue

  // ----- The order of keys -----

  predicate Decimal(k: Text) {
    k != [] && (forall i :: 0 <= i < |k| ==> 48 <= k[i] <= 57) && (k[0] == 48 ==> |k| == 1)
  }

  /** 4294967294, the largest array index. */
  const LAST_INDEX: Text := [52, 50, 57, 52, 57, 54, 55, 50, 57, 52]

  function UnitValue(c: Code): int { c }

  predicate ArrayIndex(k: Text) {
    Decimal(k) && (|k| < 10 || (|k| == 10 && !LexLess(UnitValue, LAST_INDEX, k)))
  }

  /** Array indices by value, then the other keys by UTF-16 unit. */
  predicate KeyLess(a: Text, b: Text) {
    if ArrayIndex(a) != ArrayIndex(b) then ArrayIndex(a)
    else if ArrayIndex(a) && |a| != |b| then |a| < |b|
    else LexLess(UnitValue, a, b)
  }

  function KeyOrder(): ((Text, Text) -> bool) {
    (a: Text, b: Text) => KeyLess(a, b)
  }

  lemma KeyOrderTotal()
    ensures StrictTotal(KeyOrder())
  {
    hide ArrayIndex;
    var less := KeyOrder();
    assert Injective(UnitValue);
    forall a, b
      ensures less(a, b) ==> !less(b, a)
      ensures a != b ==> less(a, b) || less(b, a)
    {
      LexTotal(UnitValue, a, b);
      if LexLess(UnitValue, a, b) {
        LexAsymmetric(UnitValue, a, b);
      }
    }
    forall a, b, c | less(a, b) && less(b, c)
      ensures less(a, c)
    {
      if LexLess(UnitValue, a, b) && LexLess(UnitValue, b, c) {
        LexTransitive(UnitValue, a, b, c);
      }
    }
  }

  // ----- The order in numbers -----

  function Pow10(n: nat): nat { if n == 0 then 1 else 10 * Pow10(n - 1) }

  lemma TenTimes(d: int, p: nat)
    ensures d * (10 * p) == 10 * (d * p)
  {}

  lemma {:induction false} FrontDigit(k: Text)
    requires k != [] && forall i :: 0 <= i < |k| ==> 48 <= k[i] <= 57
    ensures DecimalValue(k) == (k[0] - 48) * Pow10(|k| - 1) + DecimalValue(k[1..])
    decreases |k|
  {
    if |k| > 1 {
      var front, last := k[..|k| - 1], k[|k| - 1];
      FrontDigit(front);
      assert k[1..][..|k| - 2] == front[1..] && k[1..][|k| - 2] == last;
      assert DecimalValue(k[1..]) == 10 * DecimalValue(front[1..]) + (last - 48);
      TenTimes(k[0] - 48, Pow10(|k| - 2));
    } else {
      assert k[..0] == [] && k[1..] == [];
    }
  }

  /** A number of `n` digits is below the power of ten, and without a leading zero not below the one before. */
  lemma {:induction false} ValueBounds(k: Text)
    requires forall i :: 0 <= i < |k| ==> 48 <= k[i] <= 57
    ensures 0 <= DecimalValue(k) < Pow10(|k|)
    ensures k != [] && k[0] != 48 ==> Pow10(|k| - 1) <= DecimalValue(k)
  {
    if k != [] {
      ValueBounds(k[1..]);
      FrontDigit(k);
      LeadingDigit(k[0] - 48, Pow10(|k| - 1));
    }
  }

  lemma LeadingDigit(d: int, p: nat)
    requires 0 <= d <= 9
    ensures 0 <= d * p && d * p + p <= 10 * p && (d > 0 ==> p <= d * p)
  {}

  /** Digit strings of one length are ordered as numbers. */
  lemma {:induction false} SameLengthOrder(a: Text, b: Text)
    requires |a| == |b|
    requires forall i :: 0 <= i < |a| ==> 48 <= a[i] <= 57 && 48 <= b[i] <= 57
    ensures LexLess(UnitValue, a, b) <==> DecimalValue(a) < DecimalValue(b)
  {
    if a != [] {
      SameLengthOrder(a[1..], b[1..]);
      FrontDigit(a);
      FrontDigit(b);
      ValueBounds(a[1..]);
      ValueBounds(b[1..]);
      DigitsApart(a[0] - 48, b[0] - 48, Pow10(|a| - 1));
    }
  }

  lemma DigitsApart(c: int, d: int, p: nat)
    ensures c < d ==> c * p + p <= d * p
    ensures d < c ==> d * p + p <= c * p
  {
    Factor(d - c, p);
    Factor(c - d, p);
    assert d * p - c * p == (d - c) * p;
  }

  lemma Factor(n: int, p: nat)
    ensures n > 0 ==> p <= n * p
  {}

  lemma {:induction false} Pow10Grows(m: nat, n: nat)
    requires m <= n
    ensures Pow10(m) <= Pow10(n)
  {
    if m < n {
      Pow10Grows(m, n - 1);
    }
  }

  lemma TenDigits()
    ensures Pow10(9) == 1000000000 && Pow10(10) == 10000000000
  {
    assert Pow10(5) == 100000;
  }

  lemma LastIndexValue()
    ensures DecimalValue(LAST_INDEX) == 4294967294
  {
    FrontHalf();
    BackHalf();
    DecimalBack(4294967294);
  }

  lemma FrontHalf()
    ensures DecimalText(42949) == [52, 50, 57, 52, 57]
  {
    assert DecimalText(429) == [52, 50, 57];
  }

  lemma BackHalf()
    requires DecimalText(42949) == [52, 50, 57, 52, 57]
    ensures DecimalText(4294967294) == LAST_INDEX
  {
    assert DecimalText(429496) == [52, 50, 57, 52, 57, 54];
    assert DecimalText(4294967) == [52, 50, 57, 52, 57, 54, 55];
    assert DecimalText(42949672) == [52, 50, 57, 52, 57, 54, 55, 50];
    assert DecimalText(429496729) == [52, 50, 57, 52, 57, 54, 55, 50, 57];
  }

  /** An array index is a decimal number up to 2^32 - 2 without leading zeros. */
  lemma IndexMeaning(k: Text)
    ensures ArrayIndex(k) <==> Decimal(k) && DecimalValue(k) <= 4294967294
  {
    hide DecimalValue, Pow10, LAST_INDEX;
    if Decimal(k) {
      ValueBounds(k);
      TenDigits();
      LastIndexValue();
      if |k| < 10 {
        Pow10Grows(|k|, 9);
      } else if |k| == 10 {
        LastIndexShape();
        SameLengthOrder(LAST_INDEX, k);
      } else {
        Pow10Grows(10, |k| - 1);
      }
    }
  }

  /** In other words: the decimal text of a number up to 2^32 - 2. */
  lemma IndexText(k: Text)
    ensures ArrayIndex(k) <==> exists n: nat :: n <= 4294967294 && k == DecimalText(n)
  {
    hide DecimalText, DecimalValue, ArrayIndex;
    IndexMeaning(k);
    if Decimal(k) {
      TokenBack(k);
    }
    if n: nat :| n <= 4294967294 && k == DecimalText(n) {
      DecimalBack(n);
      ZeroToken(k, n);
    }
  }

  lemma ZeroToken(k: Text, n: nat)
    requires k == DecimalText(n)
    ensures n == 0 ==> k == [48]
  {}

  lemma LastIndexShape()
    ensures |LAST_INDEX| == 10 && forall i :: 0 <= i < 10 ==> 48 <= LAST_INDEX[i] <= 57
  {}

  /** Indices come first, in the order of their values; then the other keys, the smaller unit first. */
  lemma KeysAscend(a: Text, b: Text)
    ensures ArrayIndex(a) && ArrayIndex(b) ==> (KeyLess(a, b) <==> DecimalValue(a) < DecimalValue(b))
    ensures ArrayIndex(a) && !ArrayIndex(b) ==> KeyLess(a, b) && !KeyLess(b, a)
    ensures !ArrayIndex(a) && !ArrayIndex(b) ==> (KeyLess(a, b) <==> exists i :: Below(UnitValue, a, b, i))
  {
    hide DecimalValue, Pow10, LAST_INDEX;
    if ArrayIndex(a) && ArrayIndex(b) {
      if |a| == |b| {
        SameLengthOrder(a, b);
      } else {
        ShorterIsSmaller(a, b);
        ShorterIsSmaller(b, a);
      }
    } else {
      LexAscends(UnitValue, a, b);
    }
  }

  lemma ShorterIsSmaller(a: Text, b: Text)
    requires Decimal(a) && Decimal(b)
    ensures |a| < |b| ==> DecimalValue(a) < DecimalValue(b)
  {
    hide DecimalValue, Pow10;
    if |a| < |b| {
      ValueBounds(a);
      ValueBounds(b);
      Pow10Grows(|a|, |b| - 1);
    }
  }

  // ----- Canonicalising -----

  function KeyOf(m: Member): Text { m.key }

  function Canon(v: Json): Json
    decreases v, 0
  {
    match v
    case Arr(items) => Arr(CanonItems(items))
    case Obj(members) => Obj(Sort(KeyOf, KeyOrder(), CanonMembers(members)))
    case _ => v
  }

  function CanonItems(items: seq<Json>): (r: seq<Json>)
    ensures |r| == |items|
    decreases items, 1
  {
    if items == [] then [] else [Canon(items[0])] + CanonItems(items[1..])
  }

  function CanonMembers(ms: seq<Member>): (r: seq<Member>)
    ensures |r| == |ms|
    decreases ms, 1
  {
    if ms == [] then [] else [Member(ms[0].key, Canon(ms[0].value))] + CanonMembers(ms[1..])
  }

  lemma {:induction false} CanonItemAt(items: seq<Json>, i: nat)
    requires i < |items|
    ensures CanonItems(items)[i] == Canon(items[i])
  {
    if i > 0 {
      CanonItemAt(items[1..], i - 1);
    }
  }

  lemma {:induction false} CanonMemberAt(ms: seq<Member>, i: nat)
    requires i < |ms|
    ensures CanonMembers(ms)[i] == Member(ms[i].key, Canon(ms[i].value))
  {
    if i > 0 {
      CanonMemberAt(ms[1..], i - 1);
    }
  }

  /** `canonicalStringify`. */
  function Stringify(v: Json): Text {
    Print(Canon(v))
  }

  // ----- The same value up to key order -----

  ghost predicate Equiv(v: Json, w: Json)
    decreases v, 0
  {
    match (v, w)
    case (Arr(a), Arr(b)) => |a| == |b| && forall i :: 0 <= i < |a| ==> Equiv(a[i], b[i])
    case (Obj(a), Obj(b)) => |a| == |b|
      && forall i :: 0 <= i < |a| ==> exists j :: 0 <= j < |b| && a[i].key == b[j].key && Equiv(a[i].value, b[j].value)
    case _ => v == w
  }

  lemma CanonKeepsForm(v: Json)
    requires WellFormed(v)
    ensures WellFormed(Canon(v))
    decreases v, 0
  {
    match v
    case Arr(items) =>
      forall i | 0 <= i < |items|
        ensures WellFormed(CanonItems(items)[i])
      {
        CanonItemAt(items, i);
        CanonKeepsForm(items[i]);
      }
    case Obj(members) =>
      var ms := CanonMembers(members);
      forall i | 0 <= i < |members|
        ensures ms[i].key == members[i].key && WellFormed(ms[i].value)
      {
        CanonMemberAt(members, i);
        CanonKeepsForm(members[i].value);
      }
      SortedMembersKeepForm(ms);
    case _ =>
  }

  lemma SortedMembersKeepForm(ms: seq<Member>)
    requires DistinctMembers(ms) && forall i :: 0 <= i < |ms| ==> WellFormed(ms[i].value)
    ensures WellFormed(Obj(Sort(KeyOf, KeyOrder(), ms)))
  {
    hide KeyLess, WellFormed, DistinctMembers, SortedBy, StrictTotal;
    var sorted := Sort(KeyOf, KeyOrder(), ms);
    KeyOrderTotal();
    SortSorts(KeyOf, KeyOrder(), ms);
    hide Sort;
    KeysReordered(ms, sorted);
    MembersOf(ms, sorted);
    FormOfObject(sorted);
    forall i | 0 <= i < |sorted|
      ensures WellFormed(sorted[i].value)
    {
      assert sorted[i] in ms;
      var k :| 0 <= k < |ms| && ms[k] == sorted[i];
    }
  }

  lemma FormOfObject(ms: seq<Member>)
    ensures WellFormed(Obj(ms)) <==> DistinctMembers(ms) && forall i :: 0 <= i < |ms| ==> WellFormed(ms[i].value)
  {}

  lemma KeysReordered(s: seq<Member>, t: seq<Member>)
    requires multiset(s) == multiset(t) && DistinctMembers(s)
    ensures DistinctMembers(t)
  {
    forall i, j | 0 <= i < j < |s|
      ensures KeyOf(s[i]) != KeyOf(s[j])
    {}
    DistinctKeysReordered(KeyOf, s, t);
    forall i, j | 0 <= i < j < |t|
      ensures t[i].key != t[j].key
    {
      assert KeyOf(t[i]) != KeyOf(t[j]);
    }
  }

  /** Canonical forms are equal exactly for values that are the same up to key order. */
  lemma {:induction false} CanonDecides(v: Json, w: Json)
    requires WellFormed(v) && WellFormed(w)
    ensures Canon(v) == Canon(w) <==> Equiv(v, w)
    decreases v, 0
  {
    match (v, w)
    case (Arr(a), Arr(b)) =>
      if |a| == |b| {
        forall i | 0 <= i < |a|
          ensures CanonItems(a)[i] == CanonItems(b)[i] <==> Equiv(a[i], b[i])
        {
          CanonItemAt(a, i);
          CanonItemAt(b, i);
          CanonDecides(a[i], b[i]);
        }
        assert CanonItems(a) == CanonItems(b) <==> forall i :: 0 <= i < |a| ==> CanonItems(a)[i] == CanonItems(b)[i];
      }
    case (Obj(a), Obj(b)) =>
      forall i | 0 <= i < |a|
        ensures CanonMembers(a)[i] in CanonMembers(b) <==> HasMatch(a[i], b)
      {
        CanonMemberAt(a, i);
        forall j | 0 <= j < |b|
          ensures CanonMembers(a)[i] == CanonMembers(b)[j] <==> Match(a[i], b[j])
        {
          CanonMemberAt(b, j);
          CanonDecides(a[i].value, b[j].value);
        }
        MatchIsMembership(a[i], b, CanonMembers(a)[i], CanonMembers(b));
      }
      ObjectsDecide(a, b);
    case _ =>
  }

  ghost predicate Match(m: Member, n: Member) {
    m.key == n.key && Equiv(m.value, n.value)
  }

  ghost predicate HasMatch(m: Member, ms: seq<Member>) {
    exists j :: 0 <= j < |ms| && Match(m, ms[j])
  }

  lemma EquivObjects(a: seq<Member>, b: seq<Member>)
    ensures Equiv(Obj(a), Obj(b)) <==> |a| == |b| && forall i :: 0 <= i < |a| ==> HasMatch(a[i], b)
  {
    if Equiv(Obj(a), Obj(b)) {
      forall i | 0 <= i < |a|
        ensures HasMatch(a[i], b)
      {
        var j :| 0 <= j < |b| && a[i].key == b[j].key && Equiv(a[i].value, b[j].value);
        assert Match(a[i], b[j]);
      }
    }
    if |a| == |b| && forall i :: 0 <= i < |a| ==> HasMatch(a[i], b) {
      forall i | 0 <= i < |a|
        ensures exists j :: 0 <= j < |b| && a[i].key == b[j].key && Equiv(a[i].value, b[j].value)
      {
        var j :| 0 <= j < |b| && Match(a[i], b[j]);
      }
    }
  }

  lemma MatchIsMembership(m: Member, b: seq<Member>, c: Member, t: seq<Member>)
    requires |t| == |b| && forall j :: 0 <= j < |b| ==> (c == t[j] <==> Match(m, b[j]))
    ensures c in t <==> HasMatch(m, b)
  {
    hide Match;
    if c in t {
      var j :| 0 <= j < |t| && t[j] == c;
      assert Match(m, b[j]);
    }
    if HasMatch(m, b) {
      var j :| 0 <= j < |b| && Match(m, b[j]);
      assert c == t[j];
    }
  }

  lemma ObjectsDecide(a: seq<Member>, b: seq<Member>)
    requires DistinctMembers(a)
    requires forall i :: 0 <= i < |a| ==> (CanonMembers(a)[i] in CanonMembers(b) <==> HasMatch(a[i], b))
    ensures Canon(Obj(a)) == Canon(Obj(b)) <==> Equiv(Obj(a), Obj(b))
  {
    hide Sort, CanonMembers, HasMatch, Equiv;
    EquivObjects(a, b);
    CanonKeys(a);
    SortsAgree(CanonMembers(a), CanonMembers(b));
  }

  /** Sorted by their distinct keys, two lists of members are equal exactly when they have the same members. */
  lemma SortsAgree(s: seq<Member>, t: seq<Member>)
    requires DistinctKeys(KeyOf, s) && Distinct(s)
    ensures Sort(KeyOf, KeyOrder(), s) == Sort(KeyOf, KeyOrder(), t) <==>
      |s| == |t| && forall i :: 0 <= i < |s| ==> s[i] in t
  {
    hide KeyOrder, Sort;
    KeyOrderTotal();
    SortSorts(KeyOf, KeyOrder(), s);
    SortSorts(KeyOf, KeyOrder(), t);
    if Sort(KeyOf, KeyOrder(), s) == Sort(KeyOf, KeyOrder(), t) {
      MembersOf(s, t);
      assert forall i :: 0 <= i < |s| ==> s[i] in s;
    }
    if |s| == |t| && forall i :: 0 <= i < |s| ==> s[i] in t {
      SameMultiset(s, t);
      SortUnique(KeyOf, KeyOrder(), s, t, Sort(KeyOf, KeyOrder(), s), Sort(KeyOf, KeyOrder(), t));
    }
  }

  lemma CanonKeys(ms: seq<Member>)
    requires DistinctMembers(ms)
    ensures DistinctKeys(KeyOf, CanonMembers(ms)) && Distinct(CanonMembers(ms))
  {
    var r := CanonMembers(ms);
    forall i, j | 0 <= i < j < |r|
      ensures KeyOf(r[i]) != KeyOf(r[j])
    {
      CanonMemberAt(ms, i);
      CanonMemberAt(ms, j);
    }
    forall i, j | 0 <= i < j < |r|
      ensures r[i] != r[j]
    {
      assert KeyOf(r[i]) != KeyOf(r[j]);
    }
  }

  /** The canonical text of two values is the same exactly when the values are, up to key order. */
  lemma StringifyDecides(v: Json, w: Json)
    requires WellFormed(v) && WellFormed(w)
    ensures Stringify(v) == Stringify(w) <==> Equiv(v, w)
  {
    CanonDecides(v, w);
    CanonKeepsForm(v);
    CanonKeepsForm(w);
    if Stringify(v) == Stringify(w) {
      assert Print(Canon(v)) + [] == Print(Canon(w)) + [];
      PrintInjective(Canon(v), [], Canon(w), []);
    }
  }

  /** Canonicalising again changes nothing, and never leaves the class of the value. */
  lemma CanonIdempotent(v: Json)
    requires WellFormed(v)
    ensures Canon(Canon(v)) == Canon(v) && Equiv(Canon(v), v)
    decreases v, 0
  {
    CanonKeepsForm(v);
    match v {
      case Arr(items) =>
        var c := CanonItems(items);
        forall i | 0 <= i < |items|
          ensures CanonItems(c)[i] == c[i]
        {
          CanonItemAt(items, i);
          CanonItemAt(c, i);
          CanonIdempotent(items[i]);
        }
        assert CanonItems(c) == c;
      case Obj(members) =>
        CanonObjectIdempotent(members);
      case _ =>
    }
    CanonDecides(Canon(v), v);
  }

  lemma CanonObjectIdempotent(members: seq<Member>)
    requires WellFormed(Obj(members))
    ensures Canon(Canon(Obj(members))) == Canon(Obj(members))
    decreases members, 1
  {
    hide KeyLess;
    var c := CanonMembers(members);
    var sorted := Sort(KeyOf, KeyOrder(), c);
    CanonKeys(members);
    KeyOrderTotal();
    SortSorts(KeyOf, KeyOrder(), c);
    MembersOf(c, sorted);
    forall i | 0 <= i < |sorted|
      ensures CanonMembers(sorted)[i] == sorted[i]
    {
      assert sorted[i] in c;
      var k :| 0 <= k < |c| && c[k] == sorted[i];
      CanonMemberAt(members, k);
      CanonIdempotent(members[k].value);
      CanonMemberAt(sorted, i);
    }
    assert CanonMembers(sorted) == sorted;
    SortSorts(KeyOf, KeyOrder(), sorted);
    SortUnique(KeyOf, KeyOrder(), c, sorted, sorted, Sort(KeyOf, KeyOrder(), sorted));
  }

  /** Parsing the canonical text gives the canonical value back: the text is JSON, and holds all of the value. */
  lemma CanonicalTextParses(v: Json)
    requires WellFormed(v)
    ensures ReadValue(Stringify(v)) == Parsed(Canon(v), []) && Equiv(Canon(v), v)
  {
    hide ReadValue, Print, Canon, Equiv;
    CanonKeepsForm(v);
    CanonIdempotent(v);
    PrintRoundTrip(Canon(v), []);
    assert Print(Canon(v)) + [] == Print(Canon(v));
  }
}
