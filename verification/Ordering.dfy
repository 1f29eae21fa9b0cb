/**
 Sorting by a key under a strict total order. A library sort is modelled by what it promises, some
 sorted permutation (`IsSortOf`); `SortUnique` says when that leaves only one possible result.
 */
module Ordering {

  ghost predicate StrictTotal<K(!new)>(less: (K, K) -> bool) {
    && (forall x, y :: less(x, y) ==> !less(y, x))
    && (forall x, y, z :: less(x, y) && less(y, z) ==> less(x, z))
    && (forall x, y :: x != y ==> less(x, y) || less(y, x))
  }

  /** No element has a smaller key than one before it. */
  ghost predicate SortedBy<T, K>(key: T -> K, less: (K, K) -> bool, s: seq<T>) {
    forall i, j :: 0 <= i < j < |s| ==> !less(key(s[j]), key(s[i]))
  }

  ghost predicate IsSortOf<T, K>(key: T -> K, less: (K, K) -> bool, s: seq<T>, t: seq<T>) {
    multiset(t) == multiset(s) && SortedBy(key, less, t)
  }

  /** What a duplicate check on keys establishes. */
  ghost predicate DistinctKeys<T, K>(key: T -> K, s: seq<T>) {
    forall i, j :: 0 <= i < j < |s| ==> key(s[i]) != key(s[j])
  }

  lemma MembersOf<T>(s: seq<T>, t: seq<T>)
    requires multiset(s) == multiset(t)
    ensures |s| == |t| && forall x :: x in s <==> x in t
  {
    assert |s| == |multiset(s)| && |t| == |multiset(t)|;
    forall x
      ensures x in s <==> x in t
    {
      assert x in s <==> x in multiset(s);
      assert x in t <==> x in multiset(t);
    }
  }

  lemma HeadCounts<T>(s: seq<T>)
    requires s != []
    ensures multiset(s) == multiset{s[0]} + multiset(s[1..])
  {
    assert s == [s[0]] + s[1..];
  }

  lemma Cancel<T>(x: T, a: multiset<T>, b: multiset<T>)
    requires multiset{x} + a == multiset{x} + b
    ensures a == b
  {
    assert a == (multiset{x} + a) - multiset{x};
    assert b == (multiset{x} + b) - multiset{x};
  }

  lemma HeadIsLeast<T, K>(key: T -> K, less: (K, K) -> bool, s: seq<T>, x: T)
    requires SortedBy(key, less, s) && x in s && !less(key(s[0]), key(s[0]))
    ensures !less(key(x), key(s[0]))
  {
    var j :| 0 <= j < |s| && s[j] == x;
  }

  /** With distinct keys every unstable sort of every reordering has the same result. */
  lemma SortUnique<T, K(!new)>(key: T -> K, less: (K, K) -> bool, s1: seq<T>, s2: seq<T>, t1: seq<T>, t2: seq<T>)
    requires StrictTotal(less) && DistinctKeys(key, s1)
    requires multiset(s1) == multiset(s2)
    requires IsSortOf(key, less, s1, t1) && IsSortOf(key, less, s2, t2)
    ensures t1 == t2
  {
    MembersOf(s1, t1);
    SortedAgree(key, less, t1, t2);
  }

  lemma {:induction false} SortedAgree<T, K(!new)>(key: T -> K, less: (K, K) -> bool, a: seq<T>, b: seq<T>)
    requires StrictTotal(less) && multiset(a) == multiset(b)
    requires forall x, y :: x in a && y in a && key(x) == key(y) ==> x == y
    requires SortedBy(key, less, a) && SortedBy(key, less, b)
    ensures a == b
  {
    MembersOf(a, b);
    if a != [] {
      assert a[0] in b && b[0] in a;
      HeadIsLeast(key, less, b, a[0]);
      HeadIsLeast(key, less, a, b[0]);
      assert a[0] == b[0];
      HeadCounts(a);
      HeadCounts(b);
      Cancel(a[0], multiset(a[1..]), multiset(b[1..]));
      SortedAgree(key, less, a[1..], b[1..]);
      assert a == [a[0]] + a[1..] && b == [b[0]] + b[1..];
    }
  }

  // ----- Sorted permutations exist -----

  function Insert<T, K>(key: T -> K, less: (K, K) -> bool, x: T, s: seq<T>): seq<T> {
    if s == [] || !less(key(s[0]), key(x)) then [x] + s else [s[0]] + Insert(key, less, x, s[1..])
  }

  function Sort<T, K>(key: T -> K, less: (K, K) -> bool, s: seq<T>): seq<T> {
    if s == [] then [] else Insert(key, less, s[0], Sort(key, less, s[1..]))
  }

  lemma {:induction false} InsertCounts<T, K>(key: T -> K, less: (K, K) -> bool, x: T, s: seq<T>)
    ensures multiset(Insert(key, less, x, s)) == multiset{x} + multiset(s)
  {
    if s != [] && less(key(s[0]), key(x)) {
      InsertCounts(key, less, x, s[1..]);
      HeadCounts(s);
    }
  }

  /** Putting a least element in front keeps a list sorted. */
  lemma SortedCons<T, K(!new)>(key: T -> K, less: (K, K) -> bool, x: T, s: seq<T>)
    requires SortedBy(key, less, s)
    requires forall y :: y in s ==> !less(key(y), key(x))
    ensures SortedBy(key, less, [x] + s)
  {
    var r := [x] + s;
    forall i, j | 0 <= i < j < |r|
      ensures !less(key(r[j]), key(r[i]))
    {
      assert r[j] == s[j - 1] && s[j - 1] in s;
    }
  }

  lemma {:induction false} InsertSorts<T, K(!new)>(key: T -> K, less: (K, K) -> bool, x: T, s: seq<T>)
    requires StrictTotal(less) && SortedBy(key, less, s)
    ensures SortedBy(key, less, Insert(key, less, x, s))
  {
    if s == [] || !less(key(s[0]), key(x)) {
      forall y | y in s
        ensures !less(key(y), key(x))
      {
        HeadIsLeast(key, less, s, y);
      }
      SortedCons(key, less, x, s);
    } else {
      InsertSorts(key, less, x, s[1..]);
      var t := Insert(key, less, x, s[1..]);
      InsertCounts(key, less, x, s[1..]);
      forall y | y in t
        ensures !less(key(y), key(s[0]))
      {
        assert y in multiset{x} + multiset(s[1..]);
        if y in s[1..] {
          HeadIsLeast(key, less, s, y);
        }
      }
      SortedCons(key, less, s[0], t);
    }
  }

  lemma {:induction false} SortSorts<T, K(!new)>(key: T -> K, less: (K, K) -> bool, s: seq<T>)
    requires StrictTotal(less)
    ensures IsSortOf(key, less, s, Sort(key, less, s))
  {
    if s != [] {
      SortSorts(key, less, s[1..]);
      InsertSorts(key, less, s[0], Sort(key, less, s[1..]));
      InsertCounts(key, less, s[0], Sort(key, less, s[1..]));
      HeadCounts(s);
    }
  }

  // ----- Mapping a function over a reordering -----

  function Map<T, U>(f: T -> U, s: seq<T>): (r: seq<U>)
    ensures |r| == |s| && forall i :: 0 <= i < |s| ==> r[i] == f(s[i])
  {
    if s == [] then [] else [f(s[0])] + Map(f, s[1..])
  }

  lemma MapRemove<T, U>(f: T -> U, t: seq<T>, j: nat)
    requires j < |t|
    ensures multiset(t) == multiset{t[j]} + multiset(t[..j] + t[j + 1..])
    ensures multiset(Map(f, t)) == multiset{f(t[j])} + multiset(Map(f, t[..j] + t[j + 1..]))
  {
    hide Map;
    RemoveCounts(t, j);
    RemoveCounts(Map(f, t), j);
    MapWithout(f, t, j);
  }

  lemma MapWithout<T, U>(f: T -> U, t: seq<T>, j: nat)
    requires j < |t|
    ensures Map(f, t)[..j] + Map(f, t)[j + 1..] == Map(f, t[..j] + t[j + 1..])
  {
    hide Map;
    var mapped, rest := Map(f, t), t[..j] + t[j + 1..];
    forall i | 0 <= i < |t| - 1
      ensures (mapped[..j] + mapped[j + 1..])[i] == Map(f, rest)[i]
    {
      WithoutAt(t, j, i);
      WithoutAt(mapped, j, i);
    }
  }

  lemma WithoutAt<T>(t: seq<T>, j: nat, i: nat)
    requires j < |t| && i < |t| - 1
    ensures (t[..j] + t[j + 1..])[i] == t[if i < j then i else i + 1]
  {}

  lemma RemoveCounts<T>(t: seq<T>, j: nat)
    requires j < |t|
    ensures multiset(t) == multiset{t[j]} + multiset(t[..j] + t[j + 1..])
  {
    assert t == t[..j] + [t[j]] + t[j + 1..];
  }

  lemma {:induction false} MapReordered<T, U>(f: T -> U, s: seq<T>, t: seq<T>)
    requires multiset(s) == multiset(t)
    ensures multiset(Map(f, s)) == multiset(Map(f, t))
  {
    MembersOf(s, t);
    if s != [] {
      assert s[0] in s;
      var j :| 0 <= j < |t| && t[j] == s[0];
      var rest := t[..j] + t[j + 1..];
      HeadCounts(s);
      MapRemove(f, t, j);
      Cancel(s[0], multiset(s[1..]), multiset(rest));
      MapReordered(f, s[1..], rest);
      assert Map(f, s) == [f(s[0])] + Map(f, s[1..]);
    }
  }

  // ----- Distinct elements -----

  predicate Distinct<T(==)>(s: seq<T>) {
    forall i, j :: 0 <= i < j < |s| ==> s[i] != s[j]
  }

  lemma SameMembers<T>(s: seq<T>, t: seq<T>)
    requires multiset(s) == multiset(t)
    ensures Distinct(s) ==> Distinct(t)
    ensures forall x :: x in s <==> x in t
  {
    MembersOf(s, t);
    if Distinct(s) {
      DistinctCounts(s);
      CountsDistinct(t);
    }
  }

  lemma {:induction false} DistinctCounts<T>(s: seq<T>)
    requires Distinct(s)
    ensures forall x :: multiset(s)[x] <= 1
  {
    if s != [] {
      assert s == [s[0]] + s[1..];
      DistinctCounts(s[1..]);
      assert s[0] !in s[1..];
    }
  }

  lemma CountsDistinct<T>(s: seq<T>)
    requires forall x :: multiset(s)[x] <= 1
    ensures Distinct(s)
  {
    forall i, j | 0 <= i < j < |s|
      ensures s[i] != s[j]
    {
      CountOfTwo(s, i, j);
    }
  }

  lemma CountOfTwo<T>(s: seq<T>, i: nat, j: nat)
    requires i < j < |s|
    ensures s[i] == s[j] ==> multiset(s)[s[i]] >= 2
  {
    assert s == s[..i] + [s[i]] + s[i + 1..j] + [s[j]] + s[j + 1..];
  }

  /** Distinct keys are a matter of the multiset alone. */
  lemma DistinctKeysReordered<T, K>(key: T -> K, s: seq<T>, t: seq<T>)
    requires multiset(s) == multiset(t) && DistinctKeys(key, s)
    ensures DistinctKeys(key, t)
  {
    MapReordered(key, s, t);
    assert Distinct(Map(key, s)) by {
      forall i, j | 0 <= i < j < |s|
        ensures Map(key, s)[i] != Map(key, s)[j]
      {
        assert key(s[i]) != key(s[j]);
      }
    }
    SameMembers(Map(key, s), Map(key, t));
    forall i, j | 0 <= i < j < |t|
      ensures key(t[i]) != key(t[j])
    {
      assert Map(key, t)[i] != Map(key, t)[j];
    }
  }

  /** Distinct members all found in a list are no more than the list. */
  lemma {:induction false} SubsetLength<T>(a: seq<T>, b: seq<T>)
    requires Distinct(a) && forall x :: x in a ==> x in b
    ensures |a| <= |b|
  {
    if a != [] {
      assert a[0] in b;
      var j :| 0 <= j < |b| && b[j] == a[0];
      var rest := b[..j] + b[j + 1..];
      CoveredRest(a, b, j);
      SubsetLength(a[1..], rest);
    }
  }

  /** A list of distinct members that covers another of the same length is a reordering of it. */
  lemma {:induction false} SameMultiset<T>(a: seq<T>, b: seq<T>)
    requires Distinct(a) && |a| == |b| && forall x :: x in a ==> x in b
    ensures multiset(a) == multiset(b)
  {
    if a != [] {
      assert a[0] in b;
      var j :| 0 <= j < |b| && b[j] == a[0];
      var rest := b[..j] + b[j + 1..];
      CoveredRest(a, b, j);
      SameMultiset(a[1..], rest);
      HeadCounts(a);
      MapRemove((x: T) => x, b, j);
    }
  }

  lemma CoveredRest<T>(a: seq<T>, b: seq<T>, j: nat)
    requires a != [] && j < |b| && b[j] == a[0]
    requires Distinct(a) && forall x :: x in a ==> x in b
    ensures forall x :: x in a[1..] ==> x in b[..j] + b[j + 1..]
  {
    var rest := b[..j] + b[j + 1..];
    forall x | x in a[1..]
      ensures x in rest
    {
      var i :| 0 <= i < |a[1..]| && a[1..][i] == x;
      assert a[i + 1] == x && a[0] != a[i + 1];
      assert x in b;
      var k :| 0 <= k < |b| && b[k] == x;
      assert rest[if k < j then k else k - 1] == x;
    }
  }

  // ----- Lexicographic order on text -----

  ghost predicate Injective<T(!new)>(code: T -> int) {
    forall x, y :: code(x) == code(y) ==> x == y
  }

  predicate LexLess<T(==)>(code: T -> int, a: seq<T>, b: seq<T>) {
    b != [] && (a == [] || code(a[0]) < code(b[0]) || (a[0] == b[0] && LexLess(code, a[1..], b[1..])))
  }

  lemma {:induction false} LexAsymmetric<T(!new)>(code: T -> int, a: seq<T>, b: seq<T>)
    requires LexLess(code, a, b)
    ensures !LexLess(code, b, a)
  {
    if a != [] && a[0] == b[0] && LexLess(code, b, a) {
      LexAsymmetric(code, a[1..], b[1..]);
    }
  }

  lemma {:induction false} LexTransitive<T(!new)>(code: T -> int, a: seq<T>, b: seq<T>, c: seq<T>)
    requires LexLess(code, a, b) && LexLess(code, b, c)
    ensures LexLess(code, a, c)
  {
    if a != [] && a[0] == b[0] && b[0] == c[0] {
      LexTransitive(code, a[1..], b[1..], c[1..]);
    }
  }

  lemma {:induction false} LexTotal<T(!new)>(code: T -> int, a: seq<T>, b: seq<T>)
    requires Injective(code)
    ensures a == b || LexLess(code, a, b) || LexLess(code, b, a)
  {
    if a != [] && b != [] && a[0] == b[0] {
      LexTotal(code, a[1..], b[1..]);
      assert a == [a[0]] + a[1..] && b == [b[0]] + b[1..];
    }
  }

  /** The texts agree up to `i`, where the first ends or has the smaller code. */
  ghost predicate Below<T>(code: T -> int, a: seq<T>, b: seq<T>, i: nat) {
    i <= |a| && i < |b| && a[..i] == b[..i] && (i == |a| || code(a[i]) < code(b[i]))
  }

  /** The order ascends: a proper prefix comes first, and otherwise the smaller code at the first difference. */
  lemma {:induction false} LexAscends<T>(code: T -> int, a: seq<T>, b: seq<T>)
    ensures LexLess(code, a, b) <==> exists i :: Below(code, a, b, i)
  {
    if a == [] || b == [] {
      assert b != [] ==> Below(code, a, b, 0);
    } else {
      LexAscends(code, a[1..], b[1..]);
      if i: nat :| Below(code, a, b, i) {
        if i > 0 {
          assert a[0] == a[..i][0] == b[..i][0] == b[0];
          assert a[1..][..i - 1] == a[..i][1..] == b[..i][1..] == b[1..][..i - 1];
          assert Below(code, a[1..], b[1..], i - 1);
        }
      }
      if code(a[0]) < code(b[0]) {
        assert Below(code, a, b, 0);
      } else if a[0] == b[0] && LexLess(code, a[1..], b[1..]) {
        var i: nat :| Below(code, a[1..], b[1..], i);
        assert a[..i + 1] == [a[0]] + a[1..][..i] && b[..i + 1] == [b[0]] + b[1..][..i];
        assert Below(code, a, b, i + 1);
      }
    }
  }

  lemma LexIsStrictTotal<T(!new)>(code: T -> int)
    requires Injective(code)
    ensures StrictTotal((a: seq<T>, b: seq<T>) => LexLess(code, a, b))
  {
    forall a: seq<T>, b: seq<T> | LexLess(code, a, b)
      ensures !LexLess(code, b, a)
    {
      LexAsymmetric(code, a, b);
    }
    forall a: seq<T>, b: seq<T>, c: seq<T> | LexLess(code, a, b) && LexLess(code, b, c)
      ensures LexLess(code, a, c)
    {
      LexTransitive(code, a, b, c);
    }
    forall a: seq<T>, b: seq<T>
      ensures a != b ==> LexLess(code, a, b) || LexLess(code, b, a)
    {
      LexTotal(code, a, b);
    }
  }

  // ----- Strings by code points -----

  function Itself(s: string): string { s }

  function CodePoint(c: char): int { c as int }

  function CodePointLess(): ((string, string) -> bool) {
    (a: string, b: string) => LexLess(CodePoint, a, b)
  }

  lemma CodePointLessTotal()
    ensures StrictTotal(CodePointLess())
  {
    assert Injective(CodePoint);
    LexIsStrictTotal(CodePoint);
    TotalOfPointwise();
  }

  /** Strings by code points: of two different strings the smaller code at the first difference comes first. */
  lemma CodePointsAscend(a: string, b: string)
    ensures CodePointLess()(a, b) <==>
      exists i: nat :: i <= |a| && i < |b| && a[..i] == b[..i] && (i == |a| || a[i] < b[i])
  {
    LexAscends(CodePoint, a, b);
    if i: nat :| i <= |a| && i < |b| && a[..i] == b[..i] && (i == |a| || a[i] < b[i]) {
      assert Below(CodePoint, a, b, i);
    }
    if i: nat :| Below(CodePoint, a, b, i) {
      assert a[..i] == b[..i];
    }
  }

  lemma TotalOfPointwise()
    requires StrictTotal((a: string, b: string) => LexLess(CodePoint, a, b))
    ensures StrictTotal(CodePointLess())
  {
    var f := (a: string, b: string) => LexLess(CodePoint, a, b);
    var g := CodePointLess();
    assert forall a: string, b: string :: f(a, b) == g(a, b);
    forall x, y, z | g(x, y) && g(y, z)
      ensures g(x, z)
    {
      assert f(x, y) && f(y, z);
    }
    forall x, y
      ensures g(x, y) ==> !g(y, x)
      ensures x != y ==> g(x, y) || g(y, x)
    {
      assert f(x, y) ==> !f(y, x);
      assert x != y ==> f(x, y) || f(y, x);
    }
  }
}
