/**
 The Erlang client's base URL and download reference checks. A relative reference it accepts resolves
 below the base: no dot segment, encoded or not, can climb out of the gateway's path.
 */
module ErlangDownload {
  import opened Bytes
  import opened UriPath

  datatype Error = InvalidConfiguration | InvalidInput | InsecureDownloadUrl
  datatype Result = Ok(value: Text) | Fail(error: Error)

  /**
   What the client takes from its libraries: whether `uri_string` parses a text at all, its percent
   decoding and encoding, and whether a host is a loopback address.
   */
  datatype Library = Library(parses: Text -> bool, unquote: Text -> Option<Text>, quote: Text -> Text,
                             loopback: Text -> bool)

  const PERCENT: Byte := 37

  /** The one law asked of the library: ASCII text without a percent sign decodes to itself. */
  ghost predicate Lawful(lib: Library) {
    forall s :: (forall i :: 0 <= i < |s| ==> s[i] != PERCENT && s[i] < 0x80) ==> lib.unquote(s) == Some(s)
  }

  // ----- Text -----

  /** White space to `string:trim`, on the octets of a binary read as Latin-1. */
  predicate TrimSpace(b: Byte) {
    9 <= b <= 13 || b == 32 || b == 0x85
  }

  function TrimStart(s: Text): Text {
    if s != [] && TrimSpace(s[0]) then TrimStart(s[1..]) else s
  }

  function TrimEnd(s: Text): Text {
    if s != [] && TrimSpace(s[|s| - 1]) then TrimEnd(s[..|s| - 1]) else s
  }

  /** Latin-1 code points written out as UTF-8. */
  function Utf8(s: Text): Text {
    if s == [] then []
    else (if s[0] < 0x80 then [s[0]] else [0xC0 + s[0] / 64, 0x80 + s[0] % 64]) + Utf8(s[1..])
  }

  /** `trim_binary`: octets above ASCII come back as the UTF-8 of their Latin-1 reading. */
  function TrimBinary(s: Text): Text {
    Utf8(TrimEnd(TrimStart(s)))
  }

  predicate HasControl(s: Text) {
    exists i :: 0 <= i < |s| && (s[i] < 32 || s[i] == 127)
  }

  const MAX_PATH_SEGMENT_BYTES: nat := 256
  const BACKSLASH: Byte := 92

  predicate ValidSegment(s: Text) {
    TrimBinary(s) != [] && s != [DOT] && s != [DOT, DOT] && |s| <= MAX_PATH_SEGMENT_BYTES && !HasControl(s)
  }

  // ----- Paths -----

  datatype PathCheck = PathOk | EncodedSeparator | BadSegment | BadEncoding

  /** Every nonempty segment decodes, holds no separator once decoded, and is then a valid segment. */
  function ValidatePathSegments(lib: Library, segments: seq<Text>): PathCheck {
    if segments == [] then PathOk
    else if segments[0] == [] then ValidatePathSegments(lib, segments[1..])
    else match lib.unquote(segments[0])
      case None => BadEncoding
      case Some(decoded) =>
        if SLASH in decoded || BACKSLASH in decoded then EncodedSeparator
        else if !ValidSegment(decoded) then BadSegment
        else ValidatePathSegments(lib, segments[1..])
  }

  function ValidatePath(lib: Library, path: Text): PathCheck {
    ValidatePathSegments(lib, Segments(path))
  }

  function TrimTrailingSlashes(base: Text): Text {
    if base != [] && base[|base| - 1] == SLASH then TrimTrailingSlashes(base[..|base| - 1]) else base
  }

  // ----- Authorities -----

  const AT: Byte := 64
  const HTTP: Text := [104, 116, 116, 112]
  const HTTPS: Text := [104, 116, 116, 112, 115]

  /** The host of an authority without credentials: up to the port, an address in brackets whole. */
  function HostOf(authority: Text): Text {
    if authority != [] && authority[0] == 91 then authority[..Min(|authority|, Until(authority, {93}) + 1)]
    else authority[..Until(authority, {COLON})]
  }

  predicate HasHost(c: Components) {
    c.authority.Some? && HostOf(c.authority.value) != []
  }

  predicate HasUserInfo(c: Components) {
    c.authority.Some? && AT in c.authority.value
  }

  function ValidateBase(lib: Library, value: Text): Result {
    var base := TrimBinary(value);
    if !lib.parses(base) then Fail(InvalidConfiguration)
    else
      var c := Split(base);
      if (c.scheme == Some(HTTP) || c.scheme == Some(HTTPS)) && HasHost(c) && !HasUserInfo(c) && c.query.None?
        && c.fragment.None?
      then if ValidatePath(lib, c.path) == PathOk then Ok(TrimTrailingSlashes(base)) else Fail(InvalidInput)
      else Fail(InvalidConfiguration)
  }

  // ----- Download URLs -----

  function AllowedDownloadUrl(lib: Library, raw: Text, base: Text): Result {
    if !lib.parses(raw) then Fail(InsecureDownloadUrl)
    else
      var c := Split(raw);
      if !HasHost(c) || HasUserInfo(c) || c.fragment.Some? then Fail(InsecureDownloadUrl)
      else if c.scheme == Some(HTTPS) then Ok(raw)
      else if c.scheme == Some(HTTP) then
        if lib.loopback(HostOf(c.authority.value)) || HTTP + [COLON] + SLASHES <= base then Ok(raw)
        else Fail(InsecureDownloadUrl)
      else Fail(InsecureDownloadUrl)
  }

  const ARTIFACTS: Text := [47, 118, 49, 47, 97, 114, 116, 105, 102, 97, 99, 116, 115, 47]

  /** `encode_segment`: dots alone are escaped, anything else is quoted by the library. */
  function EncodeSegment(lib: Library, s: Text): Text {
    if s == [DOT] then [37, 50, 69] else if s == [DOT, DOT] then [37, 50, 69, 37, 50, 69] else lib.quote(s)
  }

  function ResolveDownloadUrl(lib: Library, downloadUrl: Text, base: Text, sha256: Text): Result {
    var url := TrimBinary(downloadUrl);
    if url == [] then
      if ValidSegment(sha256) then Ok(base + ARTIFACTS + EncodeSegment(lib, sha256)) else Fail(InvalidInput)
    else if !lib.parses(url) then Fail(InsecureDownloadUrl)
    else
      var c := Split(url);
      if c.scheme.None? then
        if !HasHost(c) && c.authority.None? && c.fragment.None? && !(url[0] == SLASH) then
          if ValidatePath(lib, c.path) == PathOk then AllowedDownloadUrl(lib, base + [SLASH] + url, base)
          else Fail(InvalidInput)
        else Fail(InsecureDownloadUrl)
      else AllowedDownloadUrl(lib, url, base)
  }

  // ----- A validated path has no dot segments, raw or decoded -----

  lemma {:induction false} SegmentChecked(lib: Library, segments: seq<Text>, s: Text)
    requires ValidatePathSegments(lib, segments) == PathOk && s in segments && s != []
    ensures lib.unquote(s).Some? && SLASH !in lib.unquote(s).value && ValidSegment(lib.unquote(s).value)
  {
    if segments[0] != s {
      assert s in segments[1..];
      SegmentChecked(lib, segments[1..], s);
    }
  }

  lemma CheckedPathHasNoDots(lib: Library, path: Text)
    requires Lawful(lib) && ValidatePath(lib, path) == PathOk
    ensures NoDotSegments(path)
  {
    forall s | s in Segments(path)
      ensures !DotSegment(s)
    {
      DotDecodes(lib, s);
      if s != [] {
        SegmentChecked(lib, Segments(path), s);
      }
    }
  }

  lemma DotDecodes(lib: Library, s: Text)
    requires Lawful(lib)
    ensures DotSegment(s) ==> lib.unquote(s) == Some(s)
  {}

  /** Decoding segment by segment; an empty segment stays empty. */
  function DecodeSegment(lib: Library, s: Text): Text {
    if s == [] then [] else match lib.unquote(s) case None => s case Some(d) => d
  }

  function DecodeAll(lib: Library, segments: seq<Text>): (r: seq<Text>)
    ensures |r| == |segments| && forall i :: 0 <= i < |r| ==> r[i] == DecodeSegment(lib, segments[i])
  {
    if segments == [] then [] else [DecodeSegment(lib, segments[0])] + DecodeAll(lib, segments[1..])
  }

  /** The path a server sees that decodes every segment before it resolves dots. */
  function Decoded(lib: Library, path: Text): Text {
    Join(DecodeAll(lib, Segments(path)))
  }

  lemma DecodedPathHasNoDots(lib: Library, path: Text)
    requires ValidatePath(lib, path) == PathOk
    ensures NoDotSegments(Decoded(lib, path)) && Segments(Decoded(lib, path)) == DecodeAll(lib, Segments(path))
  {
    var segments := Segments(path);
    var decoded := DecodeAll(lib, segments);
    forall i | 0 <= i < |decoded|
      ensures NoSlash(decoded[i]) && !DotSegment(decoded[i])
    {
      if segments[i] != [] {
        assert segments[i] in segments;
        SegmentChecked(lib, segments, segments[i]);
        NotIn(decoded[i]);
      }
    }
    JoinSegments(decoded);
  }

  lemma NotIn(s: Text)
    requires SLASH !in s
    ensures NoSlash(s)
  {
    forall i | 0 <= i < |s|
      ensures s[i] != SLASH
    {
      assert s[i] in s;
    }
  }

  lemma {:induction false} ChecksAppend(lib: Library, a: seq<Text>, b: seq<Text>)
    ensures ValidatePathSegments(lib, a + b) == PathOk <==>
      ValidatePathSegments(lib, a) == PathOk && ValidatePathSegments(lib, b) == PathOk
  {
    if a == [] {
      assert a + b == b;
    } else {
      assert (a + b)[0] == a[0] && (a + b)[1..] == a[1..] + b;
      ChecksAppend(lib, a[1..], b);
    }
  }

  lemma ChecksJoined(lib: Library, p: Text, q: Text)
    ensures ValidatePath(lib, p + [SLASH] + q) == PathOk <==>
      ValidatePath(lib, p) == PathOk && ValidatePath(lib, q) == PathOk
  {
    SegmentsAppend(p, q);
    ChecksAppend(lib, Segments(p), Segments(q));
  }

  // ----- The base -----

  ghost predicate BaseForm(lib: Library, base: Text) {
    var c := Split(base);
    && (c.scheme == Some(HTTP) || c.scheme == Some(HTTPS)) && HasHost(c) && !HasUserInfo(c) && c.query.None?
       && c.fragment.None?
    && ValidatePath(lib, c.path) == PathOk && (c.path != [] ==> c.path[0] == SLASH)
    && base == c.scheme.value + [COLON] + SLASHES + c.authority.value + c.path
  }

  lemma {:induction false} TrimSlashesPath(lib: Library, front: Text, path: Text)
    requires front != [] && front[|front| - 1] != SLASH && ValidatePath(lib, path) == PathOk
    requires path != [] ==> path[0] == SLASH
    ensures exists p :: TrimTrailingSlashes(front + path) == front + p && ValidatePath(lib, p) == PathOk
                        && p <= path && (p != [] ==> p[0] == SLASH)
    decreases |path|
  {
    var s := front + path;
    if path == [] {
      assert s == front + [];
      assert path <= path;
    } else if path[|path| - 1] == SLASH {
      var shorter := path[..|path| - 1];
      assert path == shorter + [SLASH] + [];
      ChecksJoined(lib, shorter, []);
      assert s[..|s| - 1] == front + shorter;
      TrimSlashesPath(lib, front, shorter);
      var p :| TrimTrailingSlashes(front + shorter) == front + p && ValidatePath(lib, p) == PathOk && p <= shorter
        && (p != [] ==> p[0] == SLASH);
      assert p <= path;
    } else {
      assert s[|s| - 1] == path[|path| - 1];
      assert path <= path;
    }
  }

  /** A base that validates is a scheme, an authority with a host, and a checked path without a slash at its end. */
  lemma ValidBaseForm(lib: Library, value: Text)
    requires ValidateBase(lib, value).Ok?
    ensures BaseForm(lib, ValidateBase(lib, value).value)
  {
    hide ValidatePath, Split, HostOf;
    var base := TrimBinary(value);
    var c := Split(base);
    HierarchicalForm(base);
    var front := c.scheme.value + [COLON] + SLASHES + c.authority.value;
    assert c.authority.value != [] by {
      EmptyHost();
    }
    assert front[|front| - 1] == c.authority.value[|c.authority.value| - 1];
    TrimSlashesPath(lib, front, c.path);
    var p :| TrimTrailingSlashes(front + c.path) == front + p && ValidatePath(lib, p) == PathOk && p <= c.path
      && (p != [] ==> p[0] == SLASH);
    assert base == front + c.path;
    PathSplits(c.scheme.value, c.authority.value, p, c.path);
  }

  lemma EmptyHost()
    ensures HostOf([]) == []
  {}

  // ----- Resolution -----

  /** Below the base: the path of the reference follows the path of the base and a slash. */
  lemma CombinedSplits(lib: Library, base: Text, url: Text)
    requires BaseForm(lib, base)
    requires Split(url).scheme.None? && Split(url).authority.None? && Split(url).fragment.None?
    ensures var b, r := Split(base), Split(url);
            Split(base + [SLASH] + url) == Components(b.scheme, b.authority, b.path + [SLASH] + r.path, r.query, None)
  {
    hide Split, ValidatePath, HostOf, SplitPath;
    var b := Split(base);
    BaseHierarchy(lib, base);
    var s := b.path + [SLASH] + url;
    var front := b.scheme.value + [COLON] + SLASHES + b.authority.value;
    assert front + b.path + [SLASH] + url == front + s;
    assert s[0] == SLASH;
    SplitForm(b.scheme.value, b.authority.value, s);
    PathReference(url);
    PathAfterPrefix(b.scheme, b.authority, b.path + [SLASH], url);
  }

  lemma PathReference(url: Text)
    requires Split(url).scheme.None? && Split(url).authority.None?
    ensures Split(url) == SplitPath(None, None, url)
  {
    hide Until;
  }

  lemma BaseHierarchy(lib: Library, base: Text)
    requires BaseForm(lib, base)
    ensures var c := Split(base);
            c.scheme.value != [] && Without(c.scheme.value, AFTER_SCHEME) && Without(c.authority.value, AFTER_AUTHORITY)
            && Without(c.path, AFTER_PATH)
  {
    hide Split, ValidatePath;
    HierarchicalForm(base);
  }

  lemma PathAfterPrefix(scheme: Option<Text>, authority: Option<Text>, front: Text, s: Text)
    requires Without(front, AFTER_PATH)
    ensures var c := SplitPath(None, None, s);
            SplitPath(scheme, authority, front + s) ==
              Components(scheme, authority, front + c.path, c.query, c.fragment)
  {
    hide Until, SplitQuery;
    UntilAppend(front, s, {QUESTION, HASH});
    var k := Until(s, {QUESTION, HASH});
    CutAfter(front, s, k);
    QueryOf(scheme, authority, front + s[..k], s[..k], s[k..]);
  }

  lemma CutAfter(front: Text, s: Text, k: nat)
    requires k <= |s|
    ensures (front + s)[..|front| + k] == front + s[..k] && (front + s)[|front| + k..] == s[k..]
  {}

  lemma QueryOf(scheme: Option<Text>, authority: Option<Text>, p: Text, q: Text, rest: Text)
    ensures var c := SplitQuery(None, None, q, rest);
            c.path == q && SplitQuery(scheme, authority, p, rest) ==
              Components(scheme, authority, p, c.query, c.fragment)
  {
    hide Until;
  }

  /** A reference with neither scheme, authority nor fragment that is not an absolute path. */
  predicate Relative(url: Text) {
    url != [] && url[0] != SLASH && Split(url).scheme.None? && Split(url).authority.None? && Split(url).fragment.None?
  }

  /**
   A relative reference that resolves stays below the base: the result is the base, a slash and the
   reference; scheme and authority are the base's; and dot-segment removal, on the path as written or
   decoded segment by segment, changes nothing, so the base path stays in front.
   */
  lemma RelativeStaysBelowBase(lib: Library, value: Text, downloadUrl: Text, sha256: Text)
    requires Lawful(lib) && ValidateBase(lib, value).Ok? && Relative(TrimBinary(downloadUrl))
    requires ResolveDownloadUrl(lib, downloadUrl, ValidateBase(lib, value).value, sha256).Ok?
    ensures var base, url := ValidateBase(lib, value).value, TrimBinary(downloadUrl);
            var result := ResolveDownloadUrl(lib, downloadUrl, base, sha256).value;
            var b, c := Split(base), Split(result);
            && result == base + [SLASH] + url
            && c.scheme == b.scheme && c.authority == b.authority && c.path == b.path + [SLASH] + Split(url).path
            && RemoveDotSegments(c.path) == c.path
            && RemoveDotSegments(Decoded(lib, c.path)) == Decoded(lib, c.path)
            && Decoded(lib, c.path) == Decoded(lib, b.path) + [SLASH] + Decoded(lib, Split(url).path)
  {
    hide Split, ValidatePath, HostOf, RemoveDots, Decoded;
    var base, url := ValidateBase(lib, value).value, TrimBinary(downloadUrl);
    ValidBaseForm(lib, value);
    CombinedSplits(lib, base, url);
    var p, q := Split(base).path, Split(url).path;
    ChecksJoined(lib, p, q);
    CheckedPathHasNoDots(lib, p + [SLASH] + q);
    WithoutDotsIsFixed(p + [SLASH] + q);
    DecodedPathHasNoDots(lib, p + [SLASH] + q);
    WithoutDotsIsFixed(Decoded(lib, p + [SLASH] + q));
    DecodedJoined(lib, p, q);
  }

  lemma {:induction false} DecodeAppend(lib: Library, a: seq<Text>, b: seq<Text>)
    ensures DecodeAll(lib, a + b) == DecodeAll(lib, a) + DecodeAll(lib, b)
  {}

  lemma {:induction false} JoinAppend(a: seq<Text>, b: seq<Text>)
    requires a != [] && b != []
    ensures Join(a + b) == Join(a) + [SLASH] + Join(b)
  {
    assert (a + b)[1..] == a[1..] + b;
    if |a| == 1 {
      assert a[1..] + b == b;
    } else {
      JoinAppend(a[1..], b);
      assert a[0] + [SLASH] + (Join(a[1..]) + [SLASH] + Join(b)) == a[0] + [SLASH] + Join(a[1..]) + [SLASH] + Join(b);
    }
  }

  lemma DecodedJoined(lib: Library, p: Text, q: Text)
    ensures Decoded(lib, p + [SLASH] + q) == Decoded(lib, p) + [SLASH] + Decoded(lib, q)
  {
    SegmentsAppend(p, q);
    DecodeAppend(lib, Segments(p), Segments(q));
    JoinAppend(DecodeAll(lib, Segments(p)), DecodeAll(lib, Segments(q)));
  }

  /** A relative reference resolves exactly when its path checks and the library parses the combination. */
  lemma RelativeResolves(lib: Library, value: Text, downloadUrl: Text, sha256: Text)
    requires Lawful(lib) && ValidateBase(lib, value).Ok? && Relative(TrimBinary(downloadUrl))
      && lib.parses(TrimBinary(downloadUrl))
    ensures var base, url := ValidateBase(lib, value).value, TrimBinary(downloadUrl);
            ResolveDownloadUrl(lib, downloadUrl, base, sha256).Ok? <==>
              ValidatePath(lib, Split(url).path) == PathOk && lib.parses(base + [SLASH] + url)
  {
    var base, url := ValidateBase(lib, value).value, TrimBinary(downloadUrl);
    hide Split, ValidatePath, HostOf, ValidateBase, TrimBinary, AllowedDownloadUrl, EncodeSegment;
    ValidBaseForm(lib, value);
    CombinationAllowed(lib, base, url);
  }

  lemma CombinationAllowed(lib: Library, base: Text, url: Text)
    requires BaseForm(lib, base) && Split(url).scheme.None? && Split(url).authority.None? && Split(url).fragment.None?
    ensures AllowedDownloadUrl(lib, base + [SLASH] + url, base).Ok? <==> lib.parses(base + [SLASH] + url)
  {
    hide Split, ValidatePath, HostOf;
    CombinedSplits(lib, base, url);
    BaseScheme(lib, base);
  }

  lemma BaseScheme(lib: Library, base: Text)
    requires BaseForm(lib, base)
    ensures Split(base).scheme == Some(HTTP) ==> HTTP + [COLON] + SLASHES <= base
  {
    hide Split, ValidatePath, HostOf;
    var c := Split(base);
    assert c.scheme.value + [COLON] + SLASHES + c.authority.value + c.path == c.scheme.value + [COLON] + SLASHES
      + (c.authority.value + c.path);
  }

  /** What follows the authority decides neither scheme nor authority. */
  lemma PathKeepsAuthority(scheme: Text, authority: Text, s: Text)
    requires scheme != [] && Without(scheme, AFTER_SCHEME) && Without(authority, AFTER_AUTHORITY)
    requires s != [] ==> s[0] in AFTER_AUTHORITY
    ensures var c := Split(scheme + [COLON] + SLASHES + authority + s);
            c.scheme == Some(scheme) && c.authority == Some(authority)
  {
    SplitForm(scheme, authority, s);
    hide Split, Until;
  }

  /** Below the base, whatever follows the slash: the scheme and the authority are the base's. */
  lemma BelowKeepsAuthority(lib: Library, base: Text, rest: Text)
    requires BaseForm(lib, base) && rest != [] && rest[0] == SLASH
    ensures Split(base + rest).scheme == Split(base).scheme && Split(base + rest).authority == Split(base).authority
  {
    hide Split, ValidatePath, HostOf;
    var b := Split(base);
    BaseHierarchy(lib, base);
    var s := b.path + rest;
    var front := b.scheme.value + [COLON] + SLASHES + b.authority.value;
    assert base + rest == front + s;
    assert s[0] == SLASH;
    PathKeepsAuthority(b.scheme.value, b.authority.value, s);
  }

  /** A base that begins as plain HTTP has that scheme. */
  lemma PlainBase(lib: Library, base: Text)
    requires BaseForm(lib, base)
    ensures HTTP + [COLON] + SLASHES <= base ==> Split(base).scheme == Some(HTTP)
  {
    hide Split, ValidatePath, HostOf;
    var plain := HTTP + [COLON] + SLASHES;
    assert plain <= base ==> base[4] == plain[4] == COLON;
    assert Split(base).scheme == Some(HTTPS) ==> base[..5] == HTTPS && base[..5][4] == 115;
  }

  /**
   Wherever a reference comes from, empty, relative or absolute, what it resolves to has a host and no
   credentials, and is plain HTTP only when the base is or the host is a loopback address: a base over
   HTTPS is never downgraded. An absolute reference alone can leave the authority of the base.
   */
  lemma NeverDowngraded(lib: Library, value: Text, downloadUrl: Text, sha256: Text)
    requires ValidateBase(lib, value).Ok?
    requires ResolveDownloadUrl(lib, downloadUrl, ValidateBase(lib, value).value, sha256).Ok?
    ensures var base, url := ValidateBase(lib, value).value, TrimBinary(downloadUrl);
            var result := ResolveDownloadUrl(lib, downloadUrl, base, sha256).value;
            var b, c := Split(base), Split(result);
            && Guarded(lib, b, c)
            && (Split(url).scheme.None? ==> c.scheme == b.scheme && c.authority == b.authority)
  {
    hide Split, ValidatePath, ValidateBase, TrimBinary, ResolveDownloadUrl, Guarded;
    ValidBaseForm(lib, value);
    ResolvedIsGuarded(lib, ValidateBase(lib, value).value, downloadUrl, sha256);
  }

  lemma ResolvedIsGuarded(lib: Library, base: Text, downloadUrl: Text, sha256: Text)
    requires BaseForm(lib, base)
    ensures var r := ResolveDownloadUrl(lib, downloadUrl, base, sha256);
            r.Ok? ==>
              && Guarded(lib, Split(base), Split(r.value))
              && (Split(TrimBinary(downloadUrl)).scheme.None? ==>
                    Split(r.value).scheme == Split(base).scheme && Split(r.value).authority == Split(base).authority)
  {
    var url := TrimBinary(downloadUrl);
    EmptySplits();
    hide Split, ValidatePath, HostOf, TrimBinary, EncodeSegment, ValidSegment, AllowedDownloadUrl, Guarded;
    if url == [] {
      ArtifactIsGuarded(lib, base, EncodeSegment(lib, sha256));
    } else if Split(url).scheme.None? {
      ReferenceIsGuarded(lib, base, url);
    } else {
      AllowedIsGuarded(lib, base, url);
    }
  }

  lemma ArtifactIsGuarded(lib: Library, base: Text, segment: Text)
    requires BaseForm(lib, base)
    ensures var r := Split(base + ARTIFACTS + segment);
            Guarded(lib, Split(base), r) && r.scheme == Split(base).scheme && r.authority == Split(base).authority
  {
    hide Split, Guarded, ValidatePath, HostOf;
    BelowIsGuarded(lib, base, ARTIFACTS + segment);
    assert base + (ARTIFACTS + segment) == base + ARTIFACTS + segment;
  }

  lemma ReferenceIsGuarded(lib: Library, base: Text, url: Text)
    requires BaseForm(lib, base)
    ensures var a, r := AllowedDownloadUrl(lib, base + [SLASH] + url, base), Split(base + [SLASH] + url);
            && (a.Ok? ==> a.value == base + [SLASH] + url)
            && Guarded(lib, Split(base), r) && r.scheme == Split(base).scheme && r.authority == Split(base).authority
  {
    hide Split, Guarded, ValidatePath, HostOf, AllowedDownloadUrl;
    BelowIsGuarded(lib, base, [SLASH] + url);
    assert base + ([SLASH] + url) == base + [SLASH] + url;
    AllowedIsGuarded(lib, base, base + [SLASH] + url);
  }

  /** A host, no credentials, and plain HTTP only where the base has it or the host is a loopback address. */
  predicate Guarded(lib: Library, b: Components, c: Components) {
    && HasHost(c) && !HasUserInfo(c)
    && (c.scheme == Some(HTTPS)
        || (c.scheme == Some(HTTP) && (b.scheme == Some(HTTP) || lib.loopback(HostOf(c.authority.value)))))
  }

  lemma BelowIsGuarded(lib: Library, base: Text, rest: Text)
    requires BaseForm(lib, base) && rest != [] && rest[0] == SLASH
    ensures Guarded(lib, Split(base), Split(base + rest))
    ensures Split(base + rest).scheme == Split(base).scheme && Split(base + rest).authority == Split(base).authority
  {
    hide Split, ValidatePath, HostOf;
    BelowKeepsAuthority(lib, base, rest);
  }

  lemma AllowedIsGuarded(lib: Library, base: Text, raw: Text)
    requires BaseForm(lib, base)
    ensures var r := AllowedDownloadUrl(lib, raw, base);
            r.Ok? ==> r.value == raw && Guarded(lib, Split(base), Split(raw))
  {
    hide Split, ValidatePath, HostOf;
    PlainBase(lib, base);
  }

  lemma EmptySplits()
    ensures Split([]).scheme.None?
  {}

  // ----- A base and a reference that resolve -----

  const HOST: Text := [104]
  const PREFIX: Text := [SLASH, 103]
  const NAME: Text := [120]

  function SampleBase(): Text {
    HTTP + [COLON] + SLASHES + HOST + PREFIX
  }

  lemma SampleSplits()
    ensures Split(SampleBase()) == Components(Some(HTTP), Some(HOST), PREFIX, None, None)
    ensures Split(NAME) == Components(None, None, NAME, None, None)
  {
    assert Without(HTTP, AFTER_SCHEME) && Without(HOST, AFTER_AUTHORITY) && Without(PREFIX, AFTER_PATH);
    PathSplits(HTTP, HOST, PREFIX, PREFIX);
    UntilIs(NAME, {QUESTION, HASH}, 1);
    UntilIs(NAME, {COLON, SLASH, QUESTION, HASH}, 1);
  }

  lemma {:induction false} AsciiStays(s: Text)
    requires forall i :: 0 <= i < |s| ==> s[i] < 0x80
    ensures Utf8(s) == s
  {
    if s != [] {
      AsciiStays(s[1..]);
    }
  }

  lemma PrintableStays(s: Text)
    requires s != [] && forall i :: 0 <= i < |s| ==> 32 < s[i] < 0x80
    ensures TrimBinary(s) == s
  {
    AsciiStays(s);
  }

  lemma LetterChecks(lib: Library, b: Byte)
    requires Lawful(lib) && 97 <= b <= 122
    ensures ValidatePathSegments(lib, [[b]]) == PathOk
  {
    PrintableStays([b]);
    assert lib.unquote([b]) == Some([b]);
    assert ValidSegment([b]);
    assert [[b]][1..] == [];
    hide ValidSegment;
  }

  lemma SamplePath(lib: Library)
    requires Lawful(lib)
    ensures ValidatePath(lib, PREFIX) == PathOk && ValidatePath(lib, NAME) == PathOk
  {
    UntilIs(PREFIX, {SLASH}, 0);
    UntilIs([103], {SLASH}, 1);
    UntilIs(NAME, {SLASH}, 1);
    assert Segments(NAME) == [NAME];
    assert PREFIX[1..] == [103];
    assert Segments(PREFIX) == [[], [103]];
    assert [[], [103]][1..] == [[103]];
    LetterChecks(lib, 103);
    LetterChecks(lib, 120);
    hide ValidSegment, Segments;
  }

  lemma NoSlashStays(s: Text)
    requires s != [] && s[|s| - 1] != SLASH
    ensures TrimTrailingSlashes(s) == s
  {}

  lemma SampleHost()
    ensures var c := Components(Some(HTTP), Some(HOST), PREFIX, None, None);
            HasHost(c) && !HasUserInfo(c)
    ensures SampleBase() != [] && SampleBase()[|SampleBase()| - 1] != SLASH
    ensures forall i :: 0 <= i < |SampleBase()| ==> 32 < SampleBase()[i] < 0x80
  {
    UntilIs(HOST, {COLON}, 1);
    assert HostOf(HOST) == HOST;
  }

  lemma SampleBaseValid(lib: Library)
    requires Lawful(lib) && forall s :: lib.parses(s)
    ensures ValidateBase(lib, SampleBase()) == Ok(SampleBase())
  {
    hide Split, TrimBinary, ValidatePath, HasHost, HasUserInfo, SampleBase, Lawful, TrimTrailingSlashes, HTTP, HTTPS,
      HOST, PREFIX, NAME;
    SampleSplits();
    SamplePath(lib);
    SampleHost();
    PrintableStays(SampleBase());
    NoSlashStays(SampleBase());
  }

  lemma SampleIsRelative()
    ensures Relative(NAME) && TrimBinary(NAME) == NAME
  {
    hide Split, TrimBinary;
    SampleSplits();
    PrintableStays(NAME);
  }

  /** Where the library parses everything, the sample base is valid and the sample reference resolves below it. */
  lemma SampleResolves(lib: Library, sha256: Text)
    requires Lawful(lib) && forall s :: lib.parses(s)
    ensures ValidateBase(lib, SampleBase()) == Ok(SampleBase())
    ensures ResolveDownloadUrl(lib, NAME, SampleBase(), sha256) == Ok(SampleBase() + [SLASH] + NAME)
  {
    hide Split, TrimBinary, ValidatePath, ValidateBase, SampleBase, Lawful, ResolveDownloadUrl, Relative,
      RemoveDotSegments, Decoded,
      HTTP, HTTPS, HOST, PREFIX, NAME;
    SampleBaseValid(lib);
    SampleIsRelative();
    SampleSplits();
    SamplePath(lib);
    RelativeResolves(lib, SampleBase(), NAME, sha256);
    RelativeStaysBelowBase(lib, SampleBase(), NAME, sha256);
  }
}
