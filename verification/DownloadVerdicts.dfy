/**
 Which base URLs and which download references the Erlang client takes, said without its functions: in the text of
 the URLs, segment by segment, for every library.
 */
module DownloadVerdicts {
  import opened Bytes
  import opened UriPath
  import opened ErlangDownload

  // ----- Text -----

  /** White space: tab to carriage return, space, next line. */
  predicate Blank(s: Text) {
    forall i :: 0 <= i < |s| ==> s[i] in {9, 10, 11, 12, 13, 32, 133}
  }

  lemma {:induction false} TrimStartEmpty(s: Text)
    ensures TrimStart(s) == [] <==> Blank(s)
    ensures TrimStart(s) != [] ==> !TrimSpace(TrimStart(s)[0])
  {
    if s != [] && TrimSpace(s[0]) {
      TrimStartEmpty(s[1..]);
      assert s == [s[0]] + s[1..];
    }
  }

  lemma {:induction false} TrimEndKeeps(s: Text)
    ensures s != [] && !TrimSpace(s[0]) ==> TrimEnd(s) != []
    ensures s == [] ==> TrimEnd(s) == []
  {
    if s != [] && TrimSpace(s[|s| - 1]) {
      TrimEndKeeps(s[..|s| - 1]);
    }
  }

  /** Trimming leaves nothing exactly of white space. */
  lemma TrimmedAway(s: Text)
    ensures TrimBinary(s) == [] <==> Blank(s)
  {
    TrimStartEmpty(s);
    TrimEndKeeps(TrimStart(s));
  }

  /** UTF-8 of one and two octets (section 3 of RFC 3629), read back as code points; none for anything else. */
  function FromUtf8(s: Text): Option<seq<int>> {
    if s == [] then Some([])
    else if s[0] < 0x80 then Front(s[0], FromUtf8(s[1..]))
    else if |s| >= 2 && 0xC2 <= s[0] <= 0xDF && 0x80 <= s[1] <= 0xBF then
      Front((s[0] as int - 0xC0) * 64 + (s[1] as int - 0x80), FromUtf8(s[2..]))
    else None
  }

  function Codes(s: Text): (r: seq<int>)
    ensures |r| == |s| && forall i :: 0 <= i < |s| ==> r[i] == s[i]
  {
    if s == [] then [] else [s[0]] + Codes(s[1..])
  }

  function Front(c: int, rest: Option<seq<int>>): Option<seq<int>> {
    match rest
    case None => None
    case Some(codes) => Some([c] + codes)
  }

  /** The octets written back after trimming are the UTF-8 of what they stand for in Latin-1. */
  lemma {:induction false} Utf8Back(s: Text)
    ensures FromUtf8(Utf8(s)) == Some(Codes(s))
  {
    if s != [] {
      Utf8Back(s[1..]);
      var t := Utf8(s);
      if s[0] < 0x80 {
        assert t[1..] == Utf8(s[1..]);
      } else {
        assert t[0] == 0xC0 + s[0] / 64 && t[1] == 0x80 + s[0] % 64 && t[2..] == Utf8(s[1..]);
      }
    }
  }

  // ----- Paths -----

  /** A path segment decodes to 1 to 256 octets, not all blank, no separators, no controls, and no dots alone. */
  predicate SegmentAccepted(lib: Library, s: Text) {
    lib.unquote(s).Some? && var d := lib.unquote(s).value;
    !Blank(d) && |d| <= 256 && d != Octets(".") && d != Octets("..")
    && forall i :: 0 <= i < |d| ==> d[i] >= 32 && d[i] != 127 && d[i] != '/' as int && d[i] != '\\' as int
  }

  lemma SegmentVerdict(lib: Library, s: Text)
    requires s != []
    ensures ValidatePathSegments(lib, [s]) == PathOk <==> SegmentAccepted(lib, s)
  {
    assert [s][1..] == [];
    if lib.unquote(s).Some? {
      var d := lib.unquote(s).value;
      TrimmedAway(d);
      hide TrimBinary, Blank;
      assert Octets(".") == [DOT] && Octets("..") == [DOT, DOT];
      assert SLASH in d <==> exists i :: 0 <= i < |d| && d[i] == '/' as int;
      assert BACKSLASH in d <==> exists i :: 0 <= i < |d| && d[i] == '\\' as int;
    }
  }

  /** A path is accepted when every segment that is not empty is. */
  lemma {:induction false} SegmentsVerdict(lib: Library, segments: seq<Text>)
    ensures ValidatePathSegments(lib, segments) == PathOk
            <==> forall i :: 0 <= i < |segments| && segments[i] != [] ==> SegmentAccepted(lib, segments[i])
  {
    hide SegmentAccepted;
    if segments != [] {
      SegmentsVerdict(lib, segments[1..]);
      assert forall i :: 0 < i < |segments| ==> segments[i] == segments[1..][i - 1];
      assert segments == [segments[0]] + segments[1..];
      ChecksAppend(lib, [segments[0]], segments[1..]);
      if segments[0] != [] {
        SegmentVerdict(lib, segments[0]);
      } else {
        EmptySegment(lib);
      }
    }
  }

  lemma EmptySegment(lib: Library)
    ensures ValidatePathSegments(lib, [[]]) == PathOk
  {
    var one: seq<Text> := [[]];
    assert one[1..] == [];
  }

  predicate PathAccepted(lib: Library, path: Text) {
    forall i :: 0 <= i < |Segments(path)| && Segments(path)[i] != [] ==> SegmentAccepted(lib, Segments(path)[i])
  }

  lemma PathVerdict(lib: Library, path: Text)
    ensures ValidatePath(lib, path) == PathOk <==> PathAccepted(lib, path)
  {
    SegmentsVerdict(lib, Segments(path));
  }

  // ----- Hosts -----

  /** Without brackets the host ends before the port. */
  lemma HostBeforePort(host: Text, port: Text)
    requires forall i :: 0 <= i < |host| ==> host[i] != ':' as int && host[i] != '[' as int
    ensures HostOf(host) == host == HostOf(host + Octets(":") + port)
  {
    UntilIs(host, {COLON}, |host|);
    assert host[..|host|] == host;
    var a := host + Octets(":") + port;
    assert Octets(":") == [COLON];
    UntilIs(a, {COLON}, |host|);
    assert a[..|host|] == host;
  }

  /** An address in brackets is the host with them. */
  lemma HostInBrackets(address: Text, rest: Text)
    requires forall i :: 0 <= i < |address| ==> address[i] != ']' as int
    ensures HostOf(Octets("[") + address + Octets("]") + rest) == Octets("[") + address + Octets("]")
  {
    var a := Octets("[") + address + Octets("]") + rest;
    assert a[0] == 91 && a[|address| + 1] == 93;
    assert forall i :: 0 < i <= |address| ==> a[i] == address[i - 1];
    UntilIs(a, {93}, |address| + 1);
    assert a[..|address| + 2] == Octets("[") + address + Octets("]");
  }

  // ----- The base -----

  /** A host, and no credentials. */
  predicate PlainAuthority(c: Components) {
    c.authority.Some? && HostOf(c.authority.value) != [] && '@' as int !in c.authority.value
  }

  /** A base is taken when it is an HTTP or HTTPS URL with a host, without credentials, query or fragment. */
  lemma BaseVerdict(lib: Library, value: Text)
    ensures var base := TrimBinary(value);
            var c := Split(base);
            ValidateBase(lib, value).Ok? <==>
              && lib.parses(base) && (c.scheme == Some(Octets("http")) || c.scheme == Some(Octets("https")))
              && PlainAuthority(c) && c.query.None? && c.fragment.None? && PathAccepted(lib, c.path)
  {
    hide Split, TrimBinary, ValidatePath, HostOf, PathAccepted;
    var c := Split(TrimBinary(value));
    PathVerdict(lib, c.path);
    Spelled();
  }

  lemma Spelled()
    ensures HTTP == Octets("http") && HTTPS == Octets("https") && AT == '@' as int && PERCENT == '%' as int
    ensures HTTP + [COLON] + SLASHES == Octets("http://") && ARTIFACTS == Octets("/v1/artifacts/")
  {}

  // ----- References -----

  /** HTTPS goes anywhere; plain HTTP only to a loopback address, or when the base is plain HTTP itself. */
  predicate SchemeAllowed(lib: Library, c: Components, base: Text) {
    c.scheme == Some(Octets("https"))
    || (c.scheme == Some(Octets("http")) && c.authority.Some?
        && (lib.loopback(HostOf(c.authority.value)) || Octets("http://") <= base))
  }

  /** An absolute reference is taken as it is, or refused as insecure. */
  lemma AbsoluteVerdict(lib: Library, downloadUrl: Text, base: Text, sha256: Text)
    requires Split(TrimBinary(downloadUrl)).scheme.Some?
    ensures var url := TrimBinary(downloadUrl);
            var c := Split(url);
            ResolveDownloadUrl(lib, downloadUrl, base, sha256)
            == if lib.parses(url) && PlainAuthority(c) && c.fragment.None? && SchemeAllowed(lib, c, base) then Ok(url)
               else Fail(InsecureDownloadUrl)
  {
    Spelled();
    EmptySplits();
    hide Split, TrimBinary, HostOf, HTTP, HTTPS, ValidatePath;
  }

  /** One that names an authority, a fragment or an absolute path without a scheme is refused. */
  lemma RootedVerdict(lib: Library, downloadUrl: Text, base: Text, sha256: Text)
    requires Split(TrimBinary(downloadUrl)).scheme.None? && !Blank(downloadUrl)
    requires var c := Split(TrimBinary(downloadUrl));
             c.authority.Some? || c.fragment.Some? || Octets("/") <= TrimBinary(downloadUrl)
    ensures ResolveDownloadUrl(lib, downloadUrl, base, sha256) == Fail(InsecureDownloadUrl)
  {
    TrimmedAway(downloadUrl);
    assert Octets("/")[0] == SLASH;
    hide Split, TrimBinary, HostOf, ValidatePath;
  }

  /** One that is no URI reference at all is refused. */
  lemma UnparsedVerdict(lib: Library, downloadUrl: Text, base: Text, sha256: Text)
    requires !Blank(downloadUrl) && !lib.parses(TrimBinary(downloadUrl))
    ensures ResolveDownloadUrl(lib, downloadUrl, base, sha256) == Fail(InsecureDownloadUrl)
  {
    TrimmedAway(downloadUrl);
    hide Split, TrimBinary, HostOf, ValidatePath;
  }

  /** The segments of the decoded path are the decoded segments. */
  lemma DecodedSegments(lib: Library, path: Text, i: nat)
    requires PathAccepted(lib, path) && i < |Segments(path)| && Segments(path)[i] != []
    ensures |Segments(Decoded(lib, path))| == |Segments(path)|
    ensures lib.unquote(Segments(path)[i]) == Some(Segments(Decoded(lib, path))[i])
  {
    PathVerdict(lib, path);
    DecodedPathHasNoDots(lib, path);
    assert SegmentAccepted(lib, Segments(path)[i]);
  }

  /** Without a reference the artifact is asked for by its digest, below the base. */
  lemma DigestVerdict(lib: Library, downloadUrl: Text, base: Text, sha256: Text)
    requires Blank(downloadUrl) && !Blank(sha256) && |sha256| <= 256
    requires forall i :: 0 <= i < |sha256| ==> 48 <= sha256[i] <= 57 || 97 <= sha256[i] <= 102
    ensures ResolveDownloadUrl(lib, downloadUrl, base, sha256)
            == Ok(base + Octets("/v1/artifacts/") + lib.quote(sha256))
  {
    TrimmedAway(downloadUrl);
    TrimmedAway(sha256);
    Spelled();
    hide Split, TrimBinary, ARTIFACTS;
    if sha256 != [] {
      assert sha256[0] != DOT;
    }
  }

  /** Dots alone would be taken for segments of the path: they are escaped. */
  lemma DotsAreEscaped(lib: Library)
    ensures EncodeSegment(lib, Octets(".")) == Octets("%2E") && EncodeSegment(lib, Octets("..")) == Octets("%2E%2E")
  {
    assert Octets(".") == [DOT] && Octets("..") == [DOT, DOT];
  }
}
