/** Regular expressions that must match a whole string. */
module Patterns {
  import opened Bytes

  /** A text; characters of a kind so many times; one pattern after another; a pattern or nothing. */
  datatype Pattern =
    | Exact(text: string)
    | Repeat(among: char -> bool, min: nat, max: Option<nat>)
    | Then(first: Pattern, second: Pattern)
    | Maybe(inner: Pattern)

  predicate Matches(p: Pattern, s: string) {
    match p
    case Exact(text) => s == text
    case Repeat(among, min, max) =>
      min <= |s| && (max.Some? ==> |s| <= max.value) && forall i :: 0 <= i < |s| ==> among(s[i])
    case Then(first, second) => exists i :: 0 <= i <= |s| && Matches(first, s[..i]) && Matches(second, s[i..])
    case Maybe(inner) => s == "" || Matches(inner, s)
  }

  function One(among: char -> bool): Pattern { Repeat(among, 1, Some(1)) }

  /** A pattern of fixed length takes that many characters. */
  lemma ThenAt(a: Pattern, b: Pattern, s: string, n: nat)
    requires forall t :: Matches(a, t) ==> |t| == n
    ensures Matches(Then(a, b), s) <==> |s| >= n && Matches(a, s[..n]) && Matches(b, s[n..])
  {
    if Matches(Then(a, b), s) {
      var i :| 0 <= i <= |s| && Matches(a, s[..i]) && Matches(b, s[i..]);
      assert |s[..i]| == n;
    }
  }

  /** And the same at the end. */
  lemma ThenOne(a: Pattern, among: char -> bool, s: string)
    ensures Matches(Then(a, One(among)), s) <==> s != "" && Matches(a, s[..|s| - 1]) && among(s[|s| - 1])
  {
    if i :| 0 <= i <= |s| && Matches(a, s[..i]) && Matches(One(among), s[i..]) {
      assert s[i..][0] == s[|s| - 1];
    }
    if s != "" && Matches(a, s[..|s| - 1]) && among(s[|s| - 1]) {
      assert Matches(One(among), s[|s| - 1..]);
    }
  }

  lemma OneThen(among: char -> bool, b: Pattern, s: string)
    ensures Matches(Then(One(among), b), s) <==> s != "" && among(s[0]) && Matches(b, s[1..])
  {
    ThenAt(One(among), b, s, 1);
    assert s != "" ==> s[..1] == [s[0]];
  }

  lemma ExactThen(text: string, b: Pattern, s: string)
    ensures Matches(Then(Exact(text), b), s) <==> |s| >= |text| && s[..|text|] == text && Matches(b, s[|text|..])
  {
    ThenAt(Exact(text), b, s, |text|);
  }
}
