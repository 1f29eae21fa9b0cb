/**
 URI references as RFC 3986 takes them apart (appendix B) and removes dot segments (section 5.2.4), on
 octets. A path none of whose segments is `.` or `..` is left alone by that algorithm.
 */
module UriPath {
  import opened Bytes

  type Text = seq<Byte>

  const SLASH: Byte := 47
  const DOT: Byte := 46

  // ----- Segments -----

  /** The position of the first octet of `s` that is in `stops`, or the length of `s`. */
  function Until(s: Text, stops: set<Byte>): (r: nat)
    ensures r <= |s| && (r < |s| ==> s[r] in stops) && forall i :: 0 <= i < r ==> s[i] !in stops
  {
    if s == [] || s[0] in stops then 0 else 1 + Until(s[1..], stops)
  }

  /** The text between slashes: at least one piece, pieces may be empty. */
  function Segments(s: Text): (r: seq<Text>)
    ensures r != []
    decreases |s|
  {
    var i := Until(s, {SLASH});
    if i == |s| then [s] else [s[..i]] + Segments(s[i + 1..])
  }

  function Join(segments: seq<Text>): Text
    requires segments != []
  {
    if |segments| == 1 then segments[0] else segments[0] + [SLASH] + Join(segments[1..])
  }

  predicate NoSlash(s: Text) {
    forall i :: 0 <= i < |s| ==> s[i] != SLASH
  }

  lemma {:induction false} UntilAppend(s: Text, t: Text, stops: set<Byte>)
    requires forall i :: 0 <= i < |s| ==> s[i] !in stops
    ensures Until(s + t, stops) == |s| + Until(t, stops)
  {
    if s == [] {
      assert s + t == t;
    } else {
      assert (s + t)[0] == s[0] && (s + t)[1..] == s[1..] + t;
      UntilAppend(s[1..], t, stops);
    }
  }

  lemma {:induction false} UntilIs(s: Text, stops: set<Byte>, n: nat)
    requires n <= |s| && (n < |s| ==> s[n] in stops) && forall i :: 0 <= i < n ==> s[i] !in stops
    ensures Until(s, stops) == n
  {
    if n > 0 {
      assert s[0] !in stops;
      UntilIs(s[1..], stops, n - 1);
    }
  }

  lemma OneSegment(s: Text)
    requires NoSlash(s)
    ensures Segments(s) == [s]
  {
    UntilIs(s, {SLASH}, |s|);
  }

  lemma FirstCut(s: Text, t: Text)
    requires NoSlash(s)
    ensures Segments(s + [SLASH] + t) == [s] + Segments(t)
  {
    var u := s + [SLASH] + t;
    UntilIs(u, {SLASH}, |s|);
    assert u[..|s|] == s && u[|s| + 1..] == t;
  }

  /** The segments of two paths with a slash between them. */
  lemma {:induction false} SegmentsAppend(s: Text, t: Text)
    ensures Segments(s + [SLASH] + t) == Segments(s) + Segments(t)
    decreases |s|
  {
    hide Segments;
    var i := Until(s, {SLASH});
    if i == |s| {
      OneSegment(s);
      FirstCut(s, t);
    } else {
      var x, y := s[..i], s[i + 1..];
      assert s == x + [SLASH] + y;
      assert s + [SLASH] + t == x + [SLASH] + (y + [SLASH] + t);
      FirstCut(x, y);
      FirstCut(x, y + [SLASH] + t);
      SegmentsAppend(y, t);
      assert [x] + (Segments(y) + Segments(t)) == [x] + Segments(y) + Segments(t);
    }
  }

  lemma {:induction false} JoinSegments(segments: seq<Text>)
    requires segments != [] && forall i :: 0 <= i < |segments| ==> NoSlash(segments[i])
    ensures Segments(Join(segments)) == segments
  {
    hide Until, Segments, NoSlash;
    var s := segments[0];
    OneSegment(s);
    if |segments| == 1 {
      assert segments == [s];
    } else {
      JoinSegments(segments[1..]);
      SegmentsAppend(s, Join(segments[1..]));
      assert segments == [s] + segments[1..];
    }
  }

  // ----- Dot segments -----

  predicate DotSegment(s: Text) {
    s == [DOT] || s == [DOT, DOT]
  }

  ghost predicate NoDotSegments(path: Text) {
    forall s :: s in Segments(path) ==> !DotSegment(s)
  }

  /** Drop the last segment of the output, and the slash before it. */
  function DropLast(output: Text): Text {
    if output == [] then [] else if output[|output| - 1] == SLASH then output[..|output| - 1]
    else DropLast(output[..|output| - 1])
  }

  predicate Prefix(p: Text, s: Text) {
    p <= s
  }

  /** Section 5.2.4, steps 2A to 2E, with the output built so far. */
  function RemoveDots(input: Text, output: Text): Text
    decreases |input|
  {
    if input == [] then output
    else if Prefix([DOT, DOT, SLASH], input) then RemoveDots(input[3..], output)
    else if Prefix([DOT, SLASH], input) then RemoveDots(input[2..], output)
    else if Prefix([SLASH, DOT, SLASH], input) then RemoveDots(input[2..], output)
    else if input == [SLASH, DOT] then RemoveDots([SLASH], output)
    else if Prefix([SLASH, DOT, DOT, SLASH], input) then RemoveDots(input[3..], DropLast(output))
    else if input == [SLASH, DOT, DOT] then RemoveDots([SLASH], DropLast(output))
    else if DotSegment(input) then output
    else
      var n := if input[0] == SLASH then 1 + Until(input[1..], {SLASH}) else Until(input, {SLASH});
      RemoveDots(input[n..], output + input[..n])
  }

  function RemoveDotSegments(path: Text): Text {
    RemoveDots(path, [])
  }

  lemma FirstSegment(s: Text)
    ensures Segments(s)[0] == s[..Until(s, {SLASH})]
    ensures Until(s, {SLASH}) < |s| ==> Segments(s)[1..] == Segments(s[Until(s, {SLASH}) + 1..])
  {
    hide Until;
    var i := Until(s, {SLASH});
    if i < |s| {
      assert Segments(s) == [s[..i]] + Segments(s[i + 1..]);
    } else {
      assert s[..i] == s;
    }
  }

  lemma LeadingSlash(s: Text)
    ensures Segments([SLASH] + s) == [[]] + Segments(s)
  {
    UntilIs([SLASH] + s, {SLASH}, 0);
    assert ([SLASH] + s)[1..] == s;
  }

  /** The first segment of `s` is `seg` when `s` is `seg`, or begins with `seg` and a slash. */
  lemma SegmentIs(s: Text, seg: Text)
    requires NoSlash(seg) && (s == seg || seg + [SLASH] <= s)
    ensures Segments(s)[0] == seg && seg in Segments(s)
  {
    if seg + [SLASH] <= s {
      assert s[|seg|] == (seg + [SLASH])[|seg|] == SLASH;
      assert s[..|seg|] == (seg + [SLASH])[..|seg|] == seg;
    }
    UntilIs(s, {SLASH}, |seg|);
    assert s[..|seg|] == seg;
  }

  /** None of the steps that remove something applies to a path without dot segments. */
  lemma NoStepApplies(s: Text)
    requires NoDotSegments(s)
    ensures !Prefix([DOT, DOT, SLASH], s) && !Prefix([DOT, SLASH], s) && !DotSegment(s)
  {
    if Prefix([DOT, DOT, SLASH], s) {
      assert [DOT, DOT] + [SLASH] == [DOT, DOT, SLASH];
      SegmentIs(s, [DOT, DOT]);
    } else if Prefix([DOT, SLASH], s) {
      assert [DOT] + [SLASH] == [DOT, SLASH];
      SegmentIs(s, [DOT]);
    } else if DotSegment(s) {
      SegmentIs(s, s);
    }
  }

  lemma NoStepAfterSlash(s: Text)
    requires NoDotSegments(s)
    ensures var input := [SLASH] + s;
            && !Prefix([SLASH, DOT, SLASH], input) && input != [SLASH, DOT]
            && !Prefix([SLASH, DOT, DOT, SLASH], input) && input != [SLASH, DOT, DOT]
  {
    NoStepApplies(s);
    AfterSlash(s, [DOT, SLASH]);
    AfterSlash(s, [DOT, DOT, SLASH]);
    assert [SLASH] + [DOT, SLASH] == [SLASH, DOT, SLASH];
    assert [SLASH] + [DOT, DOT, SLASH] == [SLASH, DOT, DOT, SLASH];
    assert ([SLASH] + s)[1..] == s && [SLASH, DOT][1..] == [DOT] && [SLASH, DOT, DOT][1..] == [DOT, DOT];
  }

  lemma AfterSlash(s: Text, p: Text)
    ensures Prefix([SLASH] + p, [SLASH] + s) <==> Prefix(p, s)
  {
    if |p| <= |s| {
      assert ([SLASH] + s)[..1 + |p|] == [SLASH] + s[..|p|];
      assert ([SLASH] + p)[1..] == p && ([SLASH] + s[..|p|])[1..] == s[..|p|];
    }
  }

  /** What follows the first segment, with its slash, has no dot segments either. */
  lemma RestHasNone(s: Text)
    requires NoDotSegments(s)
    ensures NoDotSegments(s[Until(s, {SLASH})..])
  {
    hide Until, Segments;
    var n := Until(s, {SLASH});
    FirstSegment(s);
    NothingHasNone();
    if n < |s| {
      var t := s[n + 1..];
      assert s[n..] == [SLASH] + t;
      LeadingSlash(t);
      forall x | x in Segments(s[n..])
        ensures !DotSegment(x)
      {
        if x != [] {
          assert x in Segments(t);
          assert x in Segments(s)[1..];
        }
      }
    }
  }

  lemma NothingHasNone()
    ensures NoDotSegments([])
  {}

  lemma EndOfInput(output: Text)
    ensures RemoveDots([], output) == output == output + []
  {}

  /** Step 2E: the first segment, with its slash if it has one, moves to the output. */
  lemma MoveSegment(input: Text, output: Text, n: nat)
    requires input != [] && !Prefix([DOT, DOT, SLASH], input) && !Prefix([DOT, SLASH], input) && !DotSegment(input)
    requires !Prefix([SLASH, DOT, SLASH], input) && input != [SLASH, DOT]
    requires !Prefix([SLASH, DOT, DOT, SLASH], input) && input != [SLASH, DOT, DOT]
    requires n == if input[0] == SLASH then 1 + Until(input[1..], {SLASH}) else Until(input, {SLASH})
    ensures RemoveDots(input, output) == RemoveDots(input[n..], output + input[..n])
  {
    hide DropLast, Until, Prefix, DotSegment;
  }

  lemma {:induction false} DotsUnchanged(input: Text, output: Text)
    requires NoDotSegments(input)
    ensures RemoveDots(input, output) == output + input
    decreases |input|
  {
    hide NoDotSegments, Segments, RemoveDots, Prefix, DotSegment, Until, DropLast;
    if input == [] {
      EndOfInput(output);
    } else {
      NoStepApplies(input);
      if input[0] == SLASH {
        var t := input[1..];
        assert input == [SLASH] + t;
        TailHasNone(t);
        NoStepAfterSlash(t);
        RestHasNone(t);
        var n := Until(t, {SLASH});
        assert input[1 + n..] == t[n..];
        MoveSegment(input, output, 1 + n);
        DotsUnchanged(input[1 + n..], output + input[..1 + n]);
        assert output + input == output + input[..1 + n] + input[1 + n..];
      } else {
        RestHasNone(input);
        var n := Until(input, {SLASH});
        assert n > 0;
        NotSlashed(input);
        MoveSegment(input, output, n);
        DotsUnchanged(input[n..], output + input[..n]);
        assert output + input == output + input[..n] + input[n..];
      }
    }
  }

  lemma NotSlashed(input: Text)
    requires input != [] && input[0] != SLASH
    ensures !Prefix([SLASH, DOT, SLASH], input) && input != [SLASH, DOT]
    ensures !Prefix([SLASH, DOT, DOT, SLASH], input) && input != [SLASH, DOT, DOT]
  {}

  lemma TailHasNone(t: Text)
    requires NoDotSegments([SLASH] + t)
    ensures NoDotSegments(t)
  {
    LeadingSlash(t);
    forall x | x in Segments(t)
      ensures !DotSegment(x)
    {
      assert x in [[]] + Segments(t);
    }
  }

  /** A path without dot segments is a fixed point of dot-segment removal. */
  lemma WithoutDotsIsFixed(path: Text)
    requires NoDotSegments(path)
    ensures RemoveDotSegments(path) == path
  {
    DotsUnchanged(path, []);
    assert [] + path == path;
  }

  // ----- Components (appendix B) -----

  datatype Components = Components(scheme: Option<Text>, authority: Option<Text>, path: Text, query: Option<Text>,
                                   fragment: Option<Text>)

  const COLON: Byte := 58
  const QUESTION: Byte := 63
  const HASH: Byte := 35
  const SLASHES: Text := [47, 47]

  /** Path, query and fragment. */
  function SplitPath(scheme: Option<Text>, authority: Option<Text>, s: Text): Components {
    var k := Until(s, {QUESTION, HASH});
    SplitQuery(scheme, authority, s[..k], s[k..])
  }

  function SplitQuery(scheme: Option<Text>, authority: Option<Text>, path: Text, rest: Text): Components {
    if rest != [] && rest[0] == QUESTION then
      var q := Until(rest[1..], {HASH});
      var tail := rest[1..][q..];
      Components(scheme, authority, path, Some(rest[1..][..q]), if tail == [] then None else Some(tail[1..]))
    else
      Components(scheme, authority, path, None, if rest == [] then None else Some(rest[1..]))
  }

  function SplitAuthority(scheme: Option<Text>, s: Text): Components {
    if SLASHES <= s then
      var j := Until(s[2..], {SLASH, QUESTION, HASH});
      SplitPath(scheme, Some(s[2..][..j]), s[2..][j..])
    else SplitPath(scheme, None, s)
  }

  function Split(s: Text): Components {
    var i := Until(s, {COLON, SLASH, QUESTION, HASH});
    if 0 < i < |s| && s[i] == COLON then SplitAuthority(Some(s[..i]), s[i + 1..]) else SplitAuthority(None, s)
  }

  /** No octet of `s` is one of `stops`. */
  predicate Without(s: Text, stops: set<Byte>) {
    forall i :: 0 <= i < |s| ==> s[i] !in stops
  }

  const AFTER_SCHEME: set<Byte> := {58, 47, 63, 35}
  const AFTER_AUTHORITY: set<Byte> := {47, 63, 35}
  const AFTER_PATH: set<Byte> := {63, 35}

  lemma PathOnly(scheme: Option<Text>, authority: Option<Text>, s: Text)
    requires SplitPath(scheme, authority, s).query.None? && SplitPath(scheme, authority, s).fragment.None?
    ensures SplitPath(scheme, authority, s) == Components(scheme, authority, s, None, None) && Without(s, AFTER_PATH)
  {
    var k := Until(s, {QUESTION, HASH});
    assert s[k..] == [];
    assert s[..k] == s;
  }

  /** A reference without query and fragment is its scheme, authority and path put together. */
  lemma HierarchicalForm(s: Text)
    requires Split(s).scheme.Some? && Split(s).authority.Some? && Split(s).query.None? && Split(s).fragment.None?
    ensures var c := Split(s);
            && s == c.scheme.value + [COLON] + SLASHES + c.authority.value + c.path
            && c.scheme.value != [] && Without(c.scheme.value, AFTER_SCHEME)
            && Without(c.authority.value, AFTER_AUTHORITY) && Without(c.path, AFTER_PATH)
            && (c.path != [] ==> c.path[0] == SLASH)
  {
    hide SplitPath, SplitAuthority, Until;
    PathAuthority(None, s);
    var i := Until(s, AFTER_SCHEME);
    assert AFTER_SCHEME == {COLON, SLASH, QUESTION, HASH} && AFTER_AUTHORITY == {SLASH, QUESTION, HASH};
    var t := s[i + 1..];
    assert Split(s) == SplitAuthority(Some(s[..i]), t);
    PathAuthority(Some(s[..i]), t);
    var u := t[2..];
    var j := Until(u, AFTER_AUTHORITY);
    PathOnly(Some(s[..i]), Some(u[..j]), u[j..]);
    Reassembled(s, i, j);
  }

  lemma Reassembled(s: Text, i: nat, j: nat)
    requires i < |s| && s[i] == COLON && SLASHES <= s[i + 1..] && j <= |s[i + 1..][2..]|
    ensures var u := s[i + 1..][2..]; s == s[..i] + [COLON] + SLASHES + u[..j] + u[j..]
  {
    var t := s[i + 1..];
    var u := t[2..];
    assert u == u[..j] + u[j..];
    assert t == SLASHES + u;
    assert s == s[..i] + [COLON] + t;
  }

  lemma PathAuthority(scheme: Option<Text>, s: Text)
    ensures SplitAuthority(scheme, s).scheme == scheme
    ensures SplitAuthority(scheme, s).authority.Some? <==> SLASHES <= s
    ensures SLASHES <= s ==>
      var j := Until(s[2..], {SLASH, QUESTION, HASH});
      SplitAuthority(scheme, s) == SplitPath(scheme, Some(s[2..][..j]), s[2..][j..])
  {}

  /** Scheme, authority and what follows, put together, come apart again. */
  lemma SplitForm(scheme: Text, authority: Text, s: Text)
    requires scheme != [] && Without(scheme, AFTER_SCHEME) && Without(authority, AFTER_AUTHORITY)
    requires s != [] ==> s[0] in AFTER_AUTHORITY
    ensures Split(scheme + [COLON] + SLASHES + authority + s) == SplitPath(Some(scheme), Some(authority), s)
  {
    hide SplitPath, Until;
    var u := authority + s;
    var t := SLASHES + u;
    var all := scheme + [COLON] + SLASHES + authority + s;
    assert all == scheme + [COLON] + t;
    assert all[|scheme|] == COLON && all[..|scheme|] == scheme && all[|scheme| + 1..] == t;
    UntilIs(all, AFTER_SCHEME, |scheme|);
    assert AFTER_SCHEME == {COLON, SLASH, QUESTION, HASH} && AFTER_AUTHORITY == {SLASH, QUESTION, HASH};
    PathAuthority(Some(scheme), t);
    assert t[2..] == u;
    UntilIs(u, AFTER_AUTHORITY, |authority|);
    assert u[..|authority|] == authority && u[|authority|..] == s;
  }

  /** In particular a path, or the front of one. */
  lemma PathSplits(scheme: Text, authority: Text, p: Text, path: Text)
    requires scheme != [] && Without(scheme, AFTER_SCHEME) && Without(authority, AFTER_AUTHORITY)
      && Without(path, AFTER_PATH)
    requires p <= path && (p != [] ==> p[0] == SLASH)
    ensures Split(scheme + [COLON] + SLASHES + authority + p) ==
      Components(Some(scheme), Some(authority), p, None, None)
  {
    hide Split;
    SplitForm(scheme, authority, p);
    forall i | 0 <= i < |p|
      ensures p[i] !in AFTER_PATH
    {
      assert p[i] == path[i];
    }
    UntilIs(p, {QUESTION, HASH}, |p|);
    assert p[..|p|] == p && p[|p|..] == [];
  }
}
