/**
 What taking a URI reference apart and removing dot segments mean: splitting and recomposing (RFC 3986, section 5.3)
 undo each other, and dot-segment removal on an absolute path is a stack of segments.
 */
module UriLaws {
  import opened Bytes
  import opened UriPath

  // ----- Components and text -----

  function After(query: Option<Text>, fragment: Option<Text>): Text {
    (if query.Some? then Octets("?") + query.value else [])
    + if fragment.Some? then Octets("#") + fragment.value else []
  }

  /** Section 5.3. */
  function Recompose(c: Components): Text {
    (if c.scheme.Some? then c.scheme.value + Octets(":") else [])
    + ((if c.authority.Some? then Octets("//") + c.authority.value else []) + (c.path + After(c.query, c.fragment)))
  }

  /** Components that can stand side by side without being mistaken for one another. */
  predicate Proper(c: Components) {
    && (c.scheme.Some? ==> c.scheme.value != [] && Without(c.scheme.value, {58, 47, 63, 35}))
    && (c.authority.Some? ==> Without(c.authority.value, {47, 63, 35}) && (c.path != [] ==> c.path[0] == 47))
    && (c.authority.None? ==> !([47, 47] <= c.path))
    && Without(c.path, {63, 35}) && (c.query.Some? ==> Without(c.query.value, {35}))
    && (c.scheme.None? && c.authority.None? ==> !ColonFirst(c.path))
  }

  /** A colon comes before any slash, with something in front of it. */
  predicate ColonFirst(s: Text) {
    var k := Until(s, {58, 47, 63, 35});
    0 < k < |s| && s[k] == 58
  }

  lemma Marks()
    ensures Octets("?") == [QUESTION] && Octets("#") == [HASH] && Octets(":") == [COLON] && Octets("//") == SLASHES
    ensures AFTER_SCHEME == {COLON, SLASH, QUESTION, HASH} && AFTER_AUTHORITY == {SLASH, QUESTION, HASH}
  {}

  lemma QueryTaken(scheme: Option<Text>, authority: Option<Text>, path: Text, query: Option<Text>,
                   fragment: Option<Text>)
    requires query.Some? ==> Without(query.value, {35})
    ensures SplitQuery(scheme, authority, path, After(query, fragment))
            == Components(scheme, authority, path, query, fragment)
  {
    Marks();
    var rest := After(query, fragment);
    var hash := if fragment.Some? then [HASH] + fragment.value else [];
    if query.Some? {
      assert rest == [QUESTION] + (query.value + hash);
      assert rest[1..] == query.value + hash;
      UntilIs(rest[1..], {HASH}, |query.value|);
      assert rest[1..][..|query.value|] == query.value && rest[1..][|query.value|..] == hash;
    } else {
      assert rest == hash;
    }
    assert fragment.Some? ==> hash[1..] == fragment.value;
  }

  lemma PathTaken(scheme: Option<Text>, authority: Option<Text>, path: Text, query: Option<Text>,
                  fragment: Option<Text>)
    requires Without(path, {63, 35}) && (query.Some? ==> Without(query.value, {35}))
    ensures SplitPath(scheme, authority, path + After(query, fragment))
            == Components(scheme, authority, path, query, fragment)
  {
    Marks();
    var rest := After(query, fragment);
    var s := path + rest;
    assert rest != [] ==> rest[0] == QUESTION || rest[0] == HASH;
    UntilIs(s, {QUESTION, HASH}, |path|);
    assert s[..|path|] == path && s[|path|..] == rest;
    QueryTaken(scheme, authority, path, query, fragment);
  }

  lemma AuthorityTaken(scheme: Option<Text>, c: Components)
    requires Proper(c)
    ensures SplitAuthority(scheme, (if c.authority.Some? then Octets("//") + c.authority.value else [])
                                   + (c.path + After(c.query, c.fragment)))
            == Components(scheme, c.authority, c.path, c.query, c.fragment)
  {
    Marks();
    PathTaken(scheme, c.authority, c.path, c.query, c.fragment);
    hide SplitPath, After, Octets;
    var rest := c.path + After(c.query, c.fragment);
    if c.authority.Some? {
      RestBegins(c);
      BehindSlashes(scheme, c.authority.value, rest);
    } else {
      assert [] + rest == rest;
      NoSlashesInFront(c);
    }
  }

  lemma BehindSlashes(scheme: Option<Text>, authority: Text, rest: Text)
    requires Without(authority, {47, 63, 35}) && (rest != [] ==> rest[0] in {SLASH, QUESTION, HASH})
    ensures SplitAuthority(scheme, SLASHES + authority + rest) == SplitPath(scheme, Some(authority), rest)
  {
    hide SplitPath;
    var s := SLASHES + authority + rest;
    assert s[2..] == authority + rest;
    UntilIs(s[2..], {SLASH, QUESTION, HASH}, |authority|);
    assert s[2..][..|authority|] == authority && s[2..][|authority|..] == rest;
  }

  lemma RestBegins(c: Components)
    requires Proper(c) && c.authority.Some?
    ensures var rest := c.path + After(c.query, c.fragment); rest != [] ==> rest[0] in {SLASH, QUESTION, HASH}
  {
    Marks();
  }

  lemma NoSlashesInFront(c: Components)
    requires Proper(c) && c.authority.None?
    ensures !(SLASHES <= c.path + After(c.query, c.fragment))
  {
    Marks();
    var rest := c.path + After(c.query, c.fragment);
    if |c.path| >= 2 {
      assert rest[..2] == c.path[..2];
    } else if |rest| >= 2 {
      assert rest[..2][|c.path|] == rest[|c.path|] != SLASH;
    }
  }

  /** Proper components, put together, come apart again. */
  lemma SplitRecomposed(c: Components)
    requires Proper(c)
    ensures Split(Recompose(c)) == c
  {
    Marks();
    AuthorityTaken(c.scheme, c);
    var tail := (if c.authority.Some? then Octets("//") + c.authority.value else [])
      + (c.path + After(c.query, c.fragment));
    var s := Recompose(c);
    hide SplitAuthority, After, Octets;
    if c.scheme.Some? {
      assert s == c.scheme.value + [COLON] + tail;
      BehindScheme(c.scheme.value, tail);
    } else {
      assert s == tail;
      NoScheme(c);
    }
  }

  lemma BehindScheme(scheme: Text, tail: Text)
    requires scheme != [] && Without(scheme, {58, 47, 63, 35})
    ensures Split(scheme + [COLON] + tail) == SplitAuthority(Some(scheme), tail)
  {
    hide SplitAuthority;
    var s := scheme + [COLON] + tail;
    UntilIs(s, {COLON, SLASH, QUESTION, HASH}, |scheme|);
    assert s[..|scheme|] == scheme && s[|scheme| + 1..] == tail;
  }

  lemma NoScheme(c: Components)
    requires Proper(c) && c.scheme.None?
    ensures !ColonFirst(Recompose(c))
  {
    Marks();
    var s := Recompose(c);
    var tail := c.path + After(c.query, c.fragment);
    if c.authority.Some? {
      assert s[0] == SLASH;
      UntilIs(s, {58, 47, 63, 35}, 0);
    } else {
      assert s == tail;
      var k := Until(c.path, {58, 47, 63, 35});
      if k < |c.path| {
        assert s[k] == c.path[k];
        assert forall i :: 0 <= i < k ==> s[i] == c.path[i];
        UntilIs(s, {58, 47, 63, 35}, k);
      } else {
        assert forall i :: 0 <= i < k ==> s[i] == c.path[i];
        UntilIs(s, {58, 47, 63, 35}, |c.path|);
      }
    }
  }

  lemma QueryForm(scheme: Option<Text>, authority: Option<Text>, path: Text, rest: Text)
    requires rest != [] ==> rest[0] == QUESTION || rest[0] == HASH
    ensures var c := SplitQuery(scheme, authority, path, rest);
            && c.scheme == scheme && c.authority == authority && c.path == path && rest == After(c.query, c.fragment)
            && (c.query.Some? ==> Without(c.query.value, {35}))
  {
    Marks();
    hide Octets;
    if rest != [] && rest[0] == QUESTION {
      var t := rest[1..];
      var q := Until(t, {HASH});
      QueryPieces(rest, t, q);
    } else if rest != [] {
      assert rest == [] + ([HASH] + rest[1..]);
    }
  }

  lemma QueryPieces(rest: Text, t: Text, q: nat)
    requires rest != [] && rest[0] == QUESTION && t == rest[1..] && q <= |t| && (q < |t| ==> t[q] == HASH)
    ensures rest == ([QUESTION] + t[..q]) + (if t[q..] == [] then [] else [HASH] + t[q..][1..])
  {
    assert rest == [QUESTION] + t && t == t[..q] + t[q..];
    if t[q..] != [] {
      assert t[q..][0] == t[q];
      assert t[q..] == [HASH] + t[q..][1..];
    }
  }

  lemma PathForm(scheme: Option<Text>, authority: Option<Text>, s: Text)
    ensures var c := SplitPath(scheme, authority, s);
            && c.scheme == scheme && c.authority == authority && s == c.path + After(c.query, c.fragment)
            && Without(c.path, {63, 35}) && (c.query.Some? ==> Without(c.query.value, {35}))
  {
    var k := Until(s, {QUESTION, HASH});
    QueryForm(scheme, authority, s[..k], s[k..]);
    assert s == s[..k] + s[k..];
  }

  lemma AuthorityForm(scheme: Option<Text>, s: Text)
    ensures var c := SplitAuthority(scheme, s);
            && c.scheme == scheme && Proper(c.(scheme := Some([0])))
            && s == (if c.authority.Some? then Octets("//") + c.authority.value else [])
                    + (c.path + After(c.query, c.fragment))
  {
    Marks();
    hide SplitPath, After, Octets;
    if SLASHES <= s {
      var t := s[2..];
      SlashedForm(scheme, t);
      assert s == SLASHES + t;
    } else {
      PathForm(scheme, None, s);
      var c := SplitPath(scheme, None, s);
      assert s == [] + s;
      PathInFront(c, s);
    }
  }

  lemma SlashedForm(scheme: Option<Text>, t: Text)
    ensures var c := SplitAuthority(scheme, SLASHES + t);
            && c.scheme == scheme && c.authority.Some? && Proper(c.(scheme := Some([0])))
            && SLASHES + t == SLASHES + c.authority.value + (c.path + After(c.query, c.fragment))
  {
    hide SplitPath, After;
    var j := Until(t, {SLASH, QUESTION, HASH});
    PathForm(scheme, Some(t[..j]), t[j..]);
    var c := SplitPath(scheme, Some(t[..j]), t[j..]);
    PathBegins(c, t, j);
    assert (SLASHES + t)[2..] == t;
    assert SLASHES + t == SLASHES + t[..j] + t[j..];
  }

  lemma PathBegins(c: Components, t: Text, j: nat)
    requires j <= |t| && (j < |t| ==> t[j] in {SLASH, QUESTION, HASH}) && Without(c.path, {63, 35})
    requires t[j..] == c.path + After(c.query, c.fragment)
    ensures c.path != [] ==> c.path[0] == SLASH
  {
    if c.path != [] {
      assert c.path[0] == t[j..][0] == t[j];
    }
  }

  lemma PathInFront(c: Components, s: Text)
    requires s == c.path + After(c.query, c.fragment) && !(SLASHES <= s)
    ensures !([47, 47] <= c.path)
  {
    assert |c.path| >= 2 ==> s[..2] == c.path[..2];
  }

  /** Every reference is its components put together, and they are proper. */
  lemma RecomposedSplit(s: Text)
    ensures Recompose(Split(s)) == s && Proper(Split(s))
  {
    Marks();
    var i := Until(s, {COLON, SLASH, QUESTION, HASH});
    hide SplitAuthority, After, Octets;
    if 0 < i < |s| && s[i] == COLON {
      AuthorityForm(Some(s[..i]), s[i + 1..]);
      assert s == s[..i] + [COLON] + s[i + 1..];
    } else {
      AuthorityForm(None, s);
      var c := SplitAuthority(None, s);
      assert s == [] + s;
      PathHasNoScheme(c, s);
    }
  }

  lemma PathHasNoScheme(c: Components, s: Text)
    requires !ColonFirst(s) && Without(c.path, {63, 35})
    ensures c.authority.None? && s == c.path + After(c.query, c.fragment) ==> !ColonFirst(c.path)
  {
    if c.authority.None? && s == c.path + After(c.query, c.fragment) {
      var k := Until(c.path, {58, 47, 63, 35});
      if 0 < k < |c.path| && c.path[k] == 58 {
        assert s[k] == c.path[k];
        assert forall i :: 0 <= i < k ==> s[i] == c.path[i];
        UntilIs(s, {58, 47, 63, 35}, k);
      }
    }
  }

  // ----- Dot segments on an absolute path -----

  /** A dot keeps the stack, two dots pop it, anything else is pushed; a dot segment at the end leaves a slash. */
  function Stack(segments: seq<Text>, out: seq<Text>): seq<Text> {
    if segments == [] then out
    else
      var s, end := segments[0], if |segments| == 1 then [[]] else [];
      if s == Octets(".") then Stack(segments[1..], out + end)
      else if s == Octets("..") then Stack(segments[1..], (if out == [] then [] else out[..|out| - 1]) + end)
      else Stack(segments[1..], out + [s])
  }

  /** A slash before every segment. */
  function Slashed(segments: seq<Text>): Text {
    if segments == [] then [] else Slashed(segments[..|segments| - 1]) + [SLASH] + segments[|segments| - 1]
  }

  predicate AllNoSlash(segments: seq<Text>) {
    forall i :: 0 <= i < |segments| ==> NoSlash(segments[i])
  }

  lemma {:induction false} DropSegment(front: Text, s: Text)
    requires NoSlash(s)
    ensures DropLast(front + [SLASH] + s) == front
  {
    var t := front + [SLASH] + s;
    if s == [] {
      assert t[..|t| - 1] == front;
    } else {
      var shorter := s[..|s| - 1];
      assert t[..|t| - 1] == front + [SLASH] + shorter && t[|t| - 1] == s[|s| - 1];
      DropSegment(front, shorter);
    }
  }

  lemma DropTop(out: seq<Text>)
    requires AllNoSlash(out)
    ensures DropLast(Slashed(out)) == Slashed(if out == [] then [] else out[..|out| - 1])
  {
    if out != [] {
      DropSegment(Slashed(out[..|out| - 1]), out[|out| - 1]);
    }
  }

  lemma Push(out: seq<Text>, s: Text)
    ensures Slashed(out + [s]) == Slashed(out) + [SLASH] + s
  {
    assert (out + [s])[..|out|] == out;
  }

  /** The slash that a dot segment at the end leaves. */
  lemma LastSlash(output: Text)
    ensures RemoveDots([SLASH], output) == output + [SLASH]
  {
    var one := [SLASH];
    assert one[1..] == [];
    UntilIs([], {SLASH}, 0);
    assert RemoveDots([], output + one) == output + one;
    assert one[..1] == one;
  }

  lemma {:induction false} RemovalIsStack(segments: seq<Text>, out: seq<Text>)
    requires segments != [] && AllNoSlash(segments) && AllNoSlash(out)
    ensures RemoveDots([SLASH] + Join(segments), Slashed(out)) == Slashed(Stack(segments, out))
    decreases |segments|
  {
    hide RemoveDots, DropLast, Until, Slashed;
    assert Octets(".") == [DOT] && Octets("..") == [DOT, DOT];
    var s, rest := segments[0], segments[1..];
    if s == [DOT] || s == [DOT, DOT] {
      var kept := if s == [DOT] then out else if out == [] then [] else out[..|out| - 1];
      DropTop(out);
      DotStep(segments, Slashed(out));
      if rest == [] {
        LastSlash(Slashed(kept));
        Push(kept, []);
      } else {
        RemovalIsStack(rest, kept);
        assert kept + [] == kept;
      }
    } else {
      Push(out, s);
      PlainStep(segments, Slashed(out));
      if rest == [] {
        EndOfInput(Slashed(out + [s]));
      } else {
        RemovalIsStack(rest, out + [s]);
      }
    }
  }

  /** What stands after the first segment, with its slash. */
  function Following(segments: seq<Text>): Text
    requires segments != []
  {
    if |segments| == 1 then [] else [SLASH] + Join(segments[1..])
  }

  lemma DotStep(segments: seq<Text>, output: Text)
    requires segments != [] && (segments[0] == [DOT] || segments[0] == [DOT, DOT])
    ensures RemoveDots([SLASH] + Join(segments), output)
            == RemoveDots(if |segments| == 1 then [SLASH] else Following(segments),
                          if segments[0] == [DOT] then output else DropLast(output))
  {
    hide RemoveDots, DropLast, Join;
    if |segments| == 1 {
      JoinedOne(segments);
      DotsAtEnd(output);
    } else {
      JoinedMore(segments);
      DotBefore(Join(segments[1..]), output);
    }
  }

  lemma JoinedOne(segments: seq<Text>)
    requires |segments| == 1
    ensures segments[0] == [DOT] ==> [SLASH] + Join(segments) == [SLASH, DOT]
    ensures segments[0] == [DOT, DOT] ==> [SLASH] + Join(segments) == [SLASH, DOT, DOT]
  {}

  lemma JoinedMore(segments: seq<Text>)
    requires |segments| > 1
    ensures segments[0] == [DOT] ==> [SLASH] + Join(segments) == [SLASH, DOT, SLASH] + Join(segments[1..])
    ensures segments[0] == [DOT, DOT] ==> [SLASH] + Join(segments) == [SLASH, DOT, DOT, SLASH] + Join(segments[1..])
  {
    var rest := Join(segments[1..]);
    assert [SLASH] + ([DOT] + [SLASH] + rest) == [SLASH, DOT, SLASH] + rest;
    assert [SLASH] + ([DOT, DOT] + [SLASH] + rest) == [SLASH, DOT, DOT, SLASH] + rest;
  }

  lemma DotsAtEnd(output: Text)
    ensures RemoveDots([SLASH, DOT], output) == RemoveDots([SLASH], output)
    ensures RemoveDots([SLASH, DOT, DOT], output) == RemoveDots([SLASH], DropLast(output))
  {
    hide DropLast, Until;
    var one, two := [SLASH, DOT], [SLASH, DOT, DOT];
    assert one[0] == two[0] == SLASH && one[1] == two[1] == two[2] == DOT;
    assert !Prefix([SLASH, DOT, SLASH], two) by {
      assert two[..3][2] != [SLASH, DOT, SLASH][2];
    }
  }

  lemma DotBefore(rest: Text, output: Text)
    ensures RemoveDots([SLASH, DOT, SLASH] + rest, output) == RemoveDots([SLASH] + rest, output)
    ensures RemoveDots([SLASH, DOT, DOT, SLASH] + rest, output) == RemoveDots([SLASH] + rest, DropLast(output))
  {
    hide DropLast, Until;
    OneDot(rest, output);
    TwoDots(rest, output);
  }

  lemma OneDot(rest: Text, output: Text)
    ensures RemoveDots([SLASH, DOT, SLASH] + rest, output) == RemoveDots([SLASH] + rest, output)
  {
    hide DropLast, Until;
    var input := [SLASH, DOT, SLASH] + rest;
    assert input[0] == SLASH && input[..3] == [SLASH, DOT, SLASH] && input[2..] == [SLASH] + rest;
  }

  lemma TwoDots(rest: Text, output: Text)
    ensures RemoveDots([SLASH, DOT, DOT, SLASH] + rest, output) == RemoveDots([SLASH] + rest, DropLast(output))
  {
    hide DropLast, Until;
    var input := [SLASH, DOT, DOT, SLASH] + rest;
    assert input[0] == SLASH && input[2] == DOT && input[..3][2] != [SLASH, DOT, SLASH][2];
    assert !Prefix([SLASH, DOT, SLASH], input) && input != [SLASH, DOT];
    assert input[..4] == [SLASH, DOT, DOT, SLASH] && input[3..] == [SLASH] + rest;
  }

  lemma PlainStep(segments: seq<Text>, output: Text)
    requires segments != [] && AllNoSlash(segments) && !DotSegment(segments[0])
    ensures RemoveDots([SLASH] + Join(segments), output)
            == RemoveDots(Following(segments), output + [SLASH] + segments[0])
  {
    hide DropLast, RemoveDots, Until;
    var s, f := segments[0], Following(segments);
    var input := [SLASH] + Join(segments);
    assert input == [SLASH] + s + f && input[1..] == s + f;
    var n := 1 + |s|;
    UntilIs(input[1..], {SLASH}, |s|);
    NotADotSegment(s, f);
    assert input[..n] == [SLASH] + s && input[n..] == f;
    MoveSegment(input, output, n);
    assert output + ([SLASH] + s) == output + [SLASH] + s;
  }

  lemma NotADotSegment(s: Text, f: Text)
    requires NoSlash(s) && !DotSegment(s) && (f != [] ==> f[0] == SLASH)
    ensures var input := [SLASH] + s + f;
            && input != [] && !Prefix([DOT, DOT, SLASH], input) && !Prefix([DOT, SLASH], input) && !DotSegment(input)
            && !Prefix([SLASH, DOT, SLASH], input) && input != [SLASH, DOT]
            && !Prefix([SLASH, DOT, DOT, SLASH], input) && input != [SLASH, DOT, DOT]
  {
    var input := [SLASH] + s + f;
    assert input[0] == SLASH;
    assert |s| >= 1 ==> input[1] == s[0];
    assert |s| >= 2 ==> input[2] == s[1];
    assert |s| >= 3 ==> input[3] == s[2] != SLASH;
    assert |s| < |input| - 1 ==> input[|s| + 1] == f[0] == SLASH;
  }

  /** In front of a relative path dot segments go, and alone they leave nothing. */
  lemma RelativeDotsGo(rest: Text)
    ensures RemoveDotSegments(Octets("./") + rest) == RemoveDotSegments(rest) == RemoveDotSegments(Octets("../") + rest)
    ensures RemoveDotSegments(Octets(".")) == RemoveDotSegments(Octets("..")) == []
  {
    assert Octets("./") == [DOT, SLASH] && Octets("../") == [DOT, DOT, SLASH];
    assert Octets(".") == [DOT] && Octets("..") == [DOT, DOT];
    AfterDots(rest);
  }

  lemma AfterDots(rest: Text)
    ensures RemoveDots([DOT, SLASH] + rest, []) == RemoveDots(rest, [])
    ensures RemoveDots([DOT, DOT, SLASH] + rest, []) == RemoveDots(rest, [])
  {
    hide DropLast, Until;
    var one, two := [DOT, SLASH] + rest, [DOT, DOT, SLASH] + rest;
    assert one[1] == SLASH && one[..2] == [DOT, SLASH] && one[2..] == rest;
    assert two[..3] == [DOT, DOT, SLASH] && two[3..] == rest;
    assert |one| >= 3 ==> one[..3][1] == SLASH;
  }

  /** On an absolute path dot-segment removal is the stack, and leaves no dot segment. */
  lemma AbsolutePathResolves(segments: seq<Text>)
    requires segments != [] && AllNoSlash(segments)
    ensures RemoveDotSegments([SLASH] + Join(segments)) == Slashed(Stack(segments, []))
    ensures forall i :: 0 <= i < |Stack(segments, [])| ==> !DotSegment(Stack(segments, [])[i])
  {
    RemovalIsStack(segments, []);
    NothingDotted(segments, []);
  }

  lemma {:induction false} NothingDotted(segments: seq<Text>, out: seq<Text>)
    requires forall i :: 0 <= i < |out| ==> !DotSegment(out[i])
    ensures forall i :: 0 <= i < |Stack(segments, out)| ==> !DotSegment(Stack(segments, out)[i])
    decreases |segments|
  {
    assert Octets(".") == [DOT] && Octets("..") == [DOT, DOT];
    if segments != [] {
      var s, end := segments[0], if |segments| == 1 then [[]] else [];
      if s == [DOT] {
        NothingDotted(segments[1..], out + end);
      } else if s == [DOT, DOT] {
        NothingDotted(segments[1..], (if out == [] then [] else out[..|out| - 1]) + end);
      } else {
        NothingDotted(segments[1..], out + [s]);
      }
    }
  }
}
