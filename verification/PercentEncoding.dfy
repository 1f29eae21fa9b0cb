/**
 The C++ client's path segments and base URL. Encoding a valid segment is undone by the decoding of
 RFC 3986 (section 2.1), so distinct coordinates have distinct paths; and no encoded path has a dot
 segment.
 */
module PercentEncoding {
  import opened Bytes
  import opened UriPath

  datatype Result<T> = Ok(value: T) | InvalidArgument

  const PERCENT: Byte := 37

  // ----- Characters, in the C locale -----

  predicate Alnum(b: Byte) { 48 <= b <= 57 || 65 <= b <= 90 || 97 <= b <= 122 }

  /** The unreserved set of section 2.3 of RFC 3986. */
  predicate Unreserved(b: Byte) { Alnum(b) || b == 45 || b == 46 || b == 95 || b == 126 }

  predicate Space(b: Byte) { b == 32 || 9 <= b <= 13 }

  predicate Control(b: Byte) { b < 0x20 || b == 0x7f }

  predicate ValidSegment(value: Text) {
    value != [] && value != [DOT] && value != [DOT, DOT] && |value| <= 256
    && (forall i :: 0 <= i < |value| ==> !Control(value[i])) && exists i :: 0 <= i < |value| && !Space(value[i])
  }

  /** Scans once, with a flag for the first octet that is no space. */
  method ValidateSegment(value: Text) returns (ok: bool)
    ensures ok <==> ValidSegment(value)
  {
    if |value| == 0 || value == [DOT] || value == [DOT, DOT] {
      return false;
    }
    if |value| > 256 {
      return false;
    }
    var hasNonSpace := false;
    for i := 0 to |value|
      invariant forall k :: 0 <= k < i ==> !Control(value[k])
      invariant hasNonSpace <==> exists k :: 0 <= k < i && !Space(value[k])
    {
      var byte := value[i];
      if byte < 32 || byte == 127 {
        return false;
      }
      if byte != 32 && !(9 <= byte <= 13) {
        hasNonSpace := true;
      }
    }
    return hasNonSpace;
  }

  // ----- Encoding -----

  /** Upper-case hexadecimal, as section 2.1 asks of producers. */
  function EncodeByte(b: Byte): Text {
    if Unreserved(b) then [b] else [PERCENT, HexDigit(b / 16, true), HexDigit(b % 16, true)]
  }

  function Encoded(value: Text): Text {
    if value == [] then [] else Encoded(value[..|value| - 1]) + EncodeByte(value[|value| - 1])
  }

  /** Octet by octet onto a growing string. */
  method EncodeSegment(value: Text) returns (r: Result<Text>)
    ensures r == if ValidSegment(value) then Ok(Encoded(value)) else InvalidArgument
  {
    var valid := ValidateSegment(value);
    if !valid {
      return InvalidArgument;
    }
    var encoded: Text := [];
    for i := 0 to |value|
      invariant encoded == Encoded(value[..i])
    {
      assert value[..i + 1][..i] == value[..i];
      var b := value[i];
      var alphanumeric := 48 <= b <= 57 || 65 <= b <= 90 || 97 <= b <= 122;
      if alphanumeric || b == 45 || b == 46 || b == 95 || b == 126 {
        encoded := encoded + [b];
      } else {
        encoded := encoded + [37];
        encoded := encoded + [HexDigit(b / 16 % 16, true)];
        encoded := encoded + [HexDigit(b % 16, true)];
      }
    }
    assert value[..|value|] == value;
    return Ok(encoded);
  }

  // ----- Decoding: section 2.1, either case of hexadecimal digits -----

  function Decode(s: Text): Option<Text> {
    if s == [] then Some([])
    else if s[0] == PERCENT then
      if |s| < 3 || HexValue(s[1]).None? || HexValue(s[2]).None? then None
      else match Decode(s[3..])
        case None => None
        case Some(rest) => Some([DecodedByte(HexValue(s[1]).value, HexValue(s[2]).value)] + rest)
    else match Decode(s[1..])
      case None => None
      case Some(rest) => Some([s[0]] + rest)
  }

  function DecodedByte(high: int, low: int): Byte
    requires 0 <= high < 16 && 0 <= low < 16
  {
    16 * high + low
  }

  lemma {:induction false} EncodedCons(b: Byte, rest: Text)
    ensures Encoded([b] + rest) == EncodeByte(b) + Encoded(rest)
    decreases |rest|
  {
    hide EncodeByte;
    var s := [b] + rest;
    if rest == [] {
      assert s[..0] == [] && s[0] == b;
      assert Encoded(s) == Encoded([]) + EncodeByte(b);
    } else {
      var n := |rest| - 1;
      assert s[..|s| - 1] == [b] + rest[..n] && s[|s| - 1] == rest[n];
      EncodedCons(b, rest[..n]);
      assert EncodeByte(b) + Encoded(rest[..n]) + EncodeByte(rest[n]) == EncodeByte(b)
        + (Encoded(rest[..n]) + EncodeByte(rest[n]));
    }
  }

  lemma DecodeByte(b: Byte, rest: Text)
    ensures Decode(EncodeByte(b) + rest) == match Decode(rest) case None => None case Some(t) => Some([b] + t)
  {
    var s := EncodeByte(b) + rest;
    if Unreserved(b) {
      assert s[1..] == rest;
    } else {
      assert s[3..] == rest;
      assert HexValue(s[1]) == Some(b / 16) && HexValue(s[2]) == Some(b % 16);
      assert DecodedByte(b / 16, b % 16) == b;
    }
  }

  /** Decoding undoes encoding, on every octet string. */
  lemma {:induction false} EncodeRoundTrip(value: Text)
    ensures Decode(Encoded(value)) == Some(value)
  {
    if value != [] {
      EncodeRoundTrip(value[1..]);
      assert value == [value[0]] + value[1..];
      EncodedCons(value[0], value[1..]);
      DecodeByte(value[0], Encoded(value[1..]));
    }
  }

  lemma EncodedInjective(v: Text, w: Text)
    requires Encoded(v) == Encoded(w)
    ensures v == w
  {
    EncodeRoundTrip(v);
    EncodeRoundTrip(w);
  }

  predicate UpperHex(b: Byte) {
    48 <= b <= 57 || 65 <= b <= 70
  }

  /** Only unreserved octets and whole escapes: a percent sign has two upper-case hexadecimal digits after it. */
  predicate EscapedText(s: Text) {
    forall i :: 0 <= i < |s| ==> Unreserved(s[i]) || EscapeAt(s, i)
  }

  predicate EscapeAt(s: Text, i: nat) {
    i + 2 < |s| && s[i] == PERCENT && UpperHex(s[i + 1]) && UpperHex(s[i + 2])
  }

  /** Only unreserved octets and whole escapes are emitted; in particular no slash. */
  lemma {:induction false} EncodedAlphabet(value: Text)
    ensures EscapedText(Encoded(value)) && NoSlash(Encoded(value))
  {
    if value != [] {
      var front, last := Encoded(value[..|value| - 1]), EncodeByte(value[|value| - 1]);
      EncodedAlphabet(value[..|value| - 1]);
      EscapedOctet(value[|value| - 1]);
      EscapedAppend(front, last);
    }
  }

  lemma EscapedOctet(b: Byte)
    ensures EscapedText(EncodeByte(b)) && NoSlash(EncodeByte(b))
  {
    if !Unreserved(b) {
      var s := EncodeByte(b);
      assert s[0] == PERCENT && UpperHex(s[1]) && UpperHex(s[2]);
      assert Unreserved(s[1]) && Unreserved(s[2]);
    }
  }

  lemma EscapedAppend(a: Text, b: Text)
    requires EscapedText(a) && EscapedText(b) && NoSlash(a) && NoSlash(b)
    ensures EscapedText(a + b) && NoSlash(a + b)
  {
    var s := a + b;
    forall i | 0 <= i < |s|
      ensures Unreserved(s[i]) || EscapeAt(s, i)
    {
      if i < |a| {
        assert s[i] == a[i];
        if EscapeAt(a, i) {
          assert s[i + 1] == a[i + 1] && s[i + 2] == a[i + 2];
        }
      } else {
        var j := i - |a|;
        assert s[i] == b[j];
        if EscapeAt(b, j) {
          assert s[i + 1] == b[j + 1] && s[i + 2] == b[j + 2];
        }
      }
    }
  }

  // ----- Paths -----

  const PACKAGES: Text := [47, 118, 49, 47, 112, 97, 99, 107, 97, 103, 101, 115, 47]
  const VERSIONS: Text := [47, 118, 101, 114, 115, 105, 111, 110, 115, 47]

  function PackageText(org: Text, name: Text): Text {
    PACKAGES + Encoded(org) + [SLASH] + Encoded(name)
  }

  method PackagePath(org: Text, name: Text) returns (r: Result<Text>)
    ensures r == if ValidSegment(org) && ValidSegment(name) then Ok(PackageText(org, name)) else InvalidArgument
  {
    hide ValidSegment;
    var o := EncodeSegment(org);
    if o.InvalidArgument? {
      return InvalidArgument;
    }
    var n := EncodeSegment(name);
    if n.InvalidArgument? {
      return InvalidArgument;
    }
    var path := Octets("/v1/packages/") + o.value + Octets("/") + n.value;
    Spelled();
    return Ok(path);
  }

  /** The fixed parts of a path as text. */
  lemma Spelled()
    ensures PACKAGES == Octets("/v1/packages/") && VERSIONS == Octets("/versions/") && [SLASH] == Octets("/")
  {}

  function VersionText(org: Text, name: Text, version: Text): Text {
    PackageText(org, name) + VERSIONS + Encoded(version)
  }

  method VersionPath(org: Text, name: Text, version: Text) returns (r: Result<Text>)
    ensures r == if ValidSegment(org) && ValidSegment(name) && ValidSegment(version)
      then Ok(VersionText(org, name, version)) else InvalidArgument
  {
    hide ValidSegment;
    var p := PackagePath(org, name);
    if p.InvalidArgument? {
      return InvalidArgument;
    }
    var v := EncodeSegment(version);
    if v.InvalidArgument? {
      return InvalidArgument;
    }
    var path := p.value + Octets("/versions/") + v.value;
    Spelled();
    return Ok(path);
  }

  const V1: Text := [118, 49]
  const PACKAGES_WORD: Text := [112, 97, 99, 107, 97, 103, 101, 115]
  const VERSIONS_WORD: Text := [118, 101, 114, 115, 105, 111, 110, 115]

  /** A version path, segment by segment. */
  lemma VersionSegments(org: Text, name: Text, version: Text)
    ensures VersionText(org, name, version) != [] && VersionText(org, name, version)[0] == SLASH
    ensures Segments(VersionText(org, name, version)) ==
            [[], V1, PACKAGES_WORD, Encoded(org), Encoded(name), VERSIONS_WORD, Encoded(version)]
  {
    EncodedAlphabet(org);
    EncodedAlphabet(name);
    EncodedAlphabet(version);
    var parts := [[], V1, PACKAGES_WORD, Encoded(org), Encoded(name), VERSIONS_WORD, Encoded(version)];
    JoinSegments(parts);
    VersionJoined(Encoded(org), Encoded(name), Encoded(version));
  }

  lemma VersionJoined(o: Text, n: Text, v: Text)
    ensures Join([[], V1, PACKAGES_WORD, o, n, VERSIONS_WORD, v]) == PACKAGES + o + [SLASH] + n + VERSIONS + v
  {
    var p6 := Join([v]);
    var p5 := Join([VERSIONS_WORD, v]);
    assert [VERSIONS_WORD, v][1..] == [v];
    assert p5 == VERSIONS_WORD + [SLASH] + v;
    var p4 := Join([n, VERSIONS_WORD, v]);
    assert [n, VERSIONS_WORD, v][1..] == [VERSIONS_WORD, v];
    assert p4 == n + [SLASH] + p5 == n + VERSIONS + v;
    var p3 := Join([o, n, VERSIONS_WORD, v]);
    assert [o, n, VERSIONS_WORD, v][1..] == [n, VERSIONS_WORD, v];
    assert p3 == o + [SLASH] + p4;
    var p2 := Join([PACKAGES_WORD, o, n, VERSIONS_WORD, v]);
    assert [PACKAGES_WORD, o, n, VERSIONS_WORD, v][1..] == [o, n, VERSIONS_WORD, v];
    assert p2 == PACKAGES_WORD + [SLASH] + p3;
    var p1 := Join([V1, PACKAGES_WORD, o, n, VERSIONS_WORD, v]);
    assert [V1, PACKAGES_WORD, o, n, VERSIONS_WORD, v][1..] == [PACKAGES_WORD, o, n, VERSIONS_WORD, v];
    assert p1 == V1 + [SLASH] + p2;
    var p0 := Join([[], V1, PACKAGES_WORD, o, n, VERSIONS_WORD, v]);
    assert [[], V1, PACKAGES_WORD, o, n, VERSIONS_WORD, v][1..] == [V1, PACKAGES_WORD, o, n, VERSIONS_WORD, v];
    assert p0 == [] + [SLASH] + p1;
    assert PACKAGES == [] + [SLASH] + (V1 + [SLASH] + (PACKAGES_WORD + [SLASH]));
  }

  /** Distinct coordinates have distinct paths. */
  lemma VersionPathsInjective(org: Text, name: Text, version: Text, org': Text, name': Text, version': Text)
    requires VersionText(org, name, version) == VersionText(org', name', version')
    ensures org == org' && name == name' && version == version'
  {
    hide VersionText;
    VersionSegments(org, name, version);
    VersionSegments(org', name', version');
    var a, b := Segments(VersionText(org, name, version)), Segments(VersionText(org', name', version'));
    assert a[3] == b[3] && a[4] == b[4] && a[6] == b[6];
    EncodedInjective(org, org');
    EncodedInjective(name, name');
    EncodedInjective(version, version');
  }

  /** A package path, segment by segment. */
  lemma PackageSegments(org: Text, name: Text)
    ensures PackageText(org, name) != [] && PackageText(org, name)[0] == SLASH
    ensures Segments(PackageText(org, name)) == [[], V1, PACKAGES_WORD, Encoded(org), Encoded(name)]
  {
    EncodedAlphabet(org);
    EncodedAlphabet(name);
    JoinSegments([[], V1, PACKAGES_WORD, Encoded(org), Encoded(name)]);
    PackageJoined(Encoded(org), Encoded(name));
  }

  lemma PackageJoined(o: Text, n: Text)
    ensures Join([[], V1, PACKAGES_WORD, o, n]) == PACKAGES + o + [SLASH] + n
  {
    assert [o, n][1..] == [n];
    var p3 := Join([o, n]);
    assert Join([n]) == n && p3 == o + [SLASH] + n;
    assert [PACKAGES_WORD, o, n][1..] == [o, n];
    var p2 := Join([PACKAGES_WORD, o, n]);
    assert p2 == PACKAGES_WORD + [SLASH] + p3;
    assert [V1, PACKAGES_WORD, o, n][1..] == [PACKAGES_WORD, o, n];
    var p1 := Join([V1, PACKAGES_WORD, o, n]);
    assert p1 == V1 + [SLASH] + p2;
    assert [[], V1, PACKAGES_WORD, o, n][1..] == [V1, PACKAGES_WORD, o, n];
    var p0 := Join([[], V1, PACKAGES_WORD, o, n]);
    assert p0 == [] + [SLASH] + p1;
    assert PACKAGES == [] + [SLASH] + (V1 + [SLASH] + (PACKAGES_WORD + [SLASH]));
  }

  /** Distinct packages have distinct paths, and none of them is the path of a version. */
  lemma PackagePathsInjective(org: Text, name: Text, org': Text, name': Text)
    ensures PackageText(org, name) == PackageText(org', name') ==> org == org' && name == name'
    ensures forall version :: PackageText(org, name) != VersionText(org', name', version)
  {
    hide PackageText, VersionText, Encoded;
    PackageSegments(org, name);
    PackageSegments(org', name');
    if PackageText(org, name) == PackageText(org', name') {
      var a, b := Segments(PackageText(org, name)), Segments(PackageText(org', name'));
      assert a[3] == b[3] && a[4] == b[4];
      EncodedInjective(org, org');
      EncodedInjective(name, name');
    }
    forall version
      ensures PackageText(org, name) != VersionText(org', name', version)
    {
      VersionSegments(org', name', version);
      assert |Segments(PackageText(org, name))| != |Segments(VersionText(org', name', version))|;
    }
  }

  lemma DotIsItself()
    ensures Encoded([DOT]) == [DOT] && Encoded([DOT, DOT]) == [DOT, DOT]
  {
    assert [DOT][..0] == [] && [DOT, DOT][..1] == [DOT];
    assert Encoded([DOT]) == Encoded([]) + EncodeByte(DOT);
    assert Encoded([DOT, DOT]) == Encoded([DOT]) + EncodeByte(DOT);
  }

  /** No segment of a path of valid coordinates is a dot segment, so a server resolving dots leaves the path alone. */
  lemma VersionPathHasNoDots(org: Text, name: Text, version: Text)
    requires ValidSegment(org) && ValidSegment(name) && ValidSegment(version)
    ensures RemoveDotSegments(VersionText(org, name, version)) == VersionText(org, name, version)
  {
    hide VersionText, RemoveDots, Encoded;
    VersionSegments(org, name, version);
    NotADot(org);
    NotADot(name);
    NotADot(version);
    forall s | s in Segments(VersionText(org, name, version))
      ensures !DotSegment(s)
    {}
    WithoutDotsIsFixed(VersionText(org, name, version));
  }

  /** Nor is any segment of a package path. */
  lemma PackagePathHasNoDots(org: Text, name: Text)
    requires ValidSegment(org) && ValidSegment(name)
    ensures RemoveDotSegments(PackageText(org, name)) == PackageText(org, name)
  {
    hide PackageText, RemoveDots, Encoded;
    PackageSegments(org, name);
    NotADot(org);
    NotADot(name);
    forall s | s in Segments(PackageText(org, name))
      ensures !DotSegment(s)
    {}
    WithoutDotsIsFixed(PackageText(org, name));
  }

  lemma NotADot(value: Text)
    requires value != [DOT] && value != [DOT, DOT]
    ensures !DotSegment(Encoded(value))
  {
    hide Encoded;
    DotIsItself();
    if Encoded(value) == [DOT] {
      EncodedInjective(value, [DOT]);
    } else if Encoded(value) == [DOT, DOT] {
      EncodedInjective(value, [DOT, DOT]);
    }
  }

  // ----- The base URL -----

  const HTTP: Text := [104, 116, 116, 112, 58, 47, 47]
  const HTTPS: Text := [104, 116, 116, 112, 115, 58, 47, 47]
  const AT_SIGN: Byte := 64

  lemma SchemesSpelled()
    ensures HTTP == Octets("http://") && HTTPS == Octets("https://")
  {}

  predicate Forbidden(b: Byte) {
    b == QUESTION || b == HASH || b == 92 || Space(b) || Control(b)
  }

  function AuthorityStart(value: Text): nat {
    if HTTPS <= value then 8 else 7
  }

  /** The authority: from after the scheme to the next slash. */
  function Authority(value: Text): Text
    requires HTTPS <= value || HTTP <= value
  {
    var rest := value[AuthorityStart(value)..];
    rest[..Until(rest, {SLASH})]
  }

  predicate ValidBase(value: Text) {
    (HTTPS <= value || HTTP <= value) && (forall i :: 0 <= i < |value| ==> !Forbidden(value[i]))
    && Authority(value) != [] && AT_SIGN !in Authority(value)
  }

  function Trimmed(value: Text, start: nat): Text {
    if |value| > start && value[|value| - 1] == SLASH then Trimmed(value[..|value| - 1], start) else value
  }

  /** Checks, then pops trailing slashes down to the authority. */
  method NormalizeBaseUrl(input: Text) returns (r: Result<Text>)
    ensures r == if ValidBase(input) then Ok(Trimmed(input, AuthorityStart(input))) else InvalidArgument
  {
    var value := input;
    var authorityStart := 0;
    SchemesSpelled();
    if Octets("https://") <= value {
      authorityStart := 8;
    } else if Octets("http://") <= value {
      authorityStart := 7;
    } else {
      return InvalidArgument;
    }
    if 63 in value || 35 in value || 92 in value {
      return InvalidArgument;
    }
    for i := 0 to |value|
      invariant forall k :: 0 <= k < i ==> !Forbidden(value[k])
    {
      assert value[i] in value;
      if value[i] == 32 || 9 <= value[i] <= 13 || value[i] < 32 || value[i] == 127 {
        return InvalidArgument;
      }
    }
    var authority := Authority(value);
    if authority == [] || 64 in authority {
      return InvalidArgument;
    }
    while |value| > authorityStart && value[|value| - 1] == SLASH
      invariant Trimmed(value, authorityStart) == Trimmed(input, authorityStart)
      decreases |value|
    {
      value := value[..|value| - 1];
    }
    return Ok(value);
  }

  lemma {:induction false} TrimmedPrefix(value: Text, start: nat)
    requires |value| >= start
    ensures Trimmed(value, start) <= value && |Trimmed(value, start)| >= start
    ensures |Trimmed(value, start)| > start ==> Trimmed(value, start)[|Trimmed(value, start)| - 1] != SLASH
    ensures forall i :: |Trimmed(value, start)| <= i < |value| ==> value[i] == SLASH
  {
    if |value| > start && value[|value| - 1] == SLASH {
      TrimmedPrefix(value[..|value| - 1], start);
    }
  }

  /** Normalising keeps scheme and authority, leaves no trailing slash, and a second time changes nothing. */
  lemma NormalizeIdempotent(value: Text)
    requires ValidBase(value)
    ensures var n := Trimmed(value, AuthorityStart(value));
            && ValidBase(n) && AuthorityStart(n) == AuthorityStart(value) && Authority(n) == Authority(value)
            && n[|n| - 1] != SLASH && Trimmed(n, AuthorityStart(n)) == n
  {
    hide Trimmed, Until, Forbidden;
    var start := AuthorityStart(value);
    var n := Trimmed(value, start);
    TrimmedPrefix(value, start);
    var a := Authority(value);
    LastOfAuthority(value);
    assert |n| >= start + |a|;
    assert n == value[..|n|];
    assert n[..start] == value[..start];
    SchemeOf(value, n, start);
    AuthorityKept(value[start..], n[start..], |a|);
    TrimmedOnce(n, start);
  }

  lemma TrimmedOnce(n: Text, start: nat)
    requires n != [] && n[|n| - 1] != SLASH
    ensures Trimmed(n, start) == n
  {}

  lemma LastOfAuthority(value: Text)
    requires ValidBase(value)
    ensures var end := AuthorityStart(value) + |Authority(value)|; 0 < end <= |value| && value[end - 1] != SLASH
  {
    var rest, a := value[AuthorityStart(value)..], Authority(value);
    assert value[AuthorityStart(value) + |a| - 1] == rest[|a| - 1] != SLASH;
  }

  lemma AuthorityKept(rest: Text, cut: Text, k: nat)
    requires k == Until(rest, {SLASH}) && k <= |cut| && cut <= rest
    ensures Until(cut, {SLASH}) == k && cut[..k] == rest[..k]
  {
    assert forall i :: 0 <= i < |cut| ==> cut[i] == rest[i];
    UntilIs(cut, {SLASH}, k);
  }

  lemma SchemeOf(value: Text, n: Text, start: nat)
    requires (HTTPS <= value || HTTP <= value) && start == AuthorityStart(value)
    requires start <= |n| && n[..start] == value[..start]
    ensures (HTTPS <= n || HTTP <= n) && AuthorityStart(n) == start
  {
    if HTTPS <= value {
      assert n[..8] == value[..8] == HTTPS;
    } else {
      assert n[..7] == value[..7] == HTTP;
      assert n[4] == n[..7][4] == 58;
      FifthOctet(n);
    }
  }

  lemma FifthOctet(n: Text)
    ensures HTTPS <= n ==> n[4] == 115
  {}

  // ----- Base and path together -----

  /** What stands after the authority of a normalised base. */
  function BasePath(value: Text): Text
    requires ValidBase(value)
  {
    TrimmedPrefix(value, AuthorityStart(value));
    NormalizeIdempotent(value);
    var n := Trimmed(value, AuthorityStart(value));
    n[AuthorityStart(value) + |Authority(value)|..]
  }

  function Scheme(value: Text): Text {
    if HTTPS <= value then Octets("https") else Octets("http")
  }

  lemma BaseTakenApart(value: Text)
    requires ValidBase(value)
    ensures var n := Trimmed(value, AuthorityStart(value));
            && n == Scheme(value) + [COLON] + SLASHES + Authority(value) + BasePath(value)
            && (BasePath(value) != [] ==> BasePath(value)[0] == SLASH)
            && Without(Authority(value), AFTER_AUTHORITY) && Without(BasePath(value), AFTER_PATH)
  {
    BaseParts(value);
    BaseIsPlain(value);
    hide Trimmed, Until, Forbidden, Authority, BasePath;
  }

  lemma BaseParts(value: Text)
    requires ValidBase(value)
    ensures var n, start := Trimmed(value, AuthorityStart(value)), AuthorityStart(value);
            && start + |Authority(value)| <= |n| <= |value| && n == value[..|n|]
            && n[..start] == Scheme(value) + [COLON] + SLASHES
            && n[start..] == Authority(value) + BasePath(value)
            && n == Scheme(value) + [COLON] + SLASHES + Authority(value) + BasePath(value)
            && (BasePath(value) != [] ==> BasePath(value)[0] == SLASH)
  {
    BaseCut(value);
    SchemeText(value);
    hide Trimmed, Until, Authority, Forbidden, Scheme;
    var start := AuthorityStart(value);
    var n, a := Trimmed(value, start), Authority(value);
    assert n[..start] == value[..start];
    assert n[start..] == n[start..][..|a|] + n[start..][|a|..];
    assert n[start..][|a|..] == BasePath(value);
    Rejoined(n, start, Scheme(value) + [COLON] + SLASHES, a, BasePath(value));
  }

  /** The authority stands behind the scheme, and a slash or nothing behind the authority. */
  lemma BaseCut(value: Text)
    requires ValidBase(value)
    ensures var n, start, a := Trimmed(value, AuthorityStart(value)), AuthorityStart(value), Authority(value);
            && start + |a| <= |n| <= |value| && n == value[..|n|] && n[start..][..|a|] == a
            && (start + |a| < |n| ==> n[start + |a|] == SLASH)
  {
    hide Trimmed, Until, Forbidden;
    var start := AuthorityStart(value);
    TrimmedPrefix(value, start);
    NormalizeIdempotent(value);
    var n, a := Trimmed(value, start), Authority(value);
    assert a == n[start..][..|a|];
    assert start + |a| < |n| ==> n[start + |a|] == n[start..][|a|];
  }

  lemma Rejoined(n: Text, start: nat, front: Text, a: Text, p: Text)
    requires start <= |n| && n[..start] == front && n[start..] == a + p
    ensures n == front + a + p
  {
    assert n == n[..start] + n[start..];
  }

  lemma SchemeText(value: Text)
    requires ValidBase(value)
    ensures value[..AuthorityStart(value)] == Scheme(value) + [COLON] + SLASHES
  {
    hide Until, Forbidden;
    SchemesSpelled();
    if HTTPS <= value {
      assert value[..8] == HTTPS == Octets("https") + [COLON] + SLASHES;
    } else {
      assert value[..7] == HTTP == Octets("http") + [COLON] + SLASHES;
    }
  }

  lemma BaseIsPlain(value: Text)
    requires ValidBase(value)
    ensures Without(Authority(value), AFTER_AUTHORITY) && Without(BasePath(value), AFTER_PATH)
  {
    BaseSlices(value);
    SlashEndsAuthority(value);
    hide Trimmed, BasePath, Forbidden, Until;
    PartIsPlain(value, Authority(value), AuthorityStart(value));
    PartIsPlain(value, BasePath(value), AuthorityStart(value) + |Authority(value)|);
  }

  lemma BaseSlices(value: Text)
    requires ValidBase(value)
    ensures var start, a, p := AuthorityStart(value), Authority(value), BasePath(value);
            && start + |a| + |p| <= |value|
            && a == value[start..start + |a|] && p == value[start + |a|..start + |a| + |p|]
  {
    BaseParts(value);
    hide Trimmed, BasePath, Authority, Forbidden, ValidBase, Until;
    var n, start := Trimmed(value, AuthorityStart(value)), AuthorityStart(value);
    SliceOfSlice(value, n, start, Authority(value), BasePath(value));
  }

  lemma SliceOfSlice(value: Text, n: Text, start: nat, a: Text, p: Text)
    requires start <= |n| <= |value| && n == value[..|n|] && n[start..] == a + p
    ensures start + |a| + |p| <= |value|
    ensures a == value[start..start + |a|] && p == value[start + |a|..start + |a| + |p|]
  {
    assert value[start..|n|] == a + p;
    assert value[start..|n|][..|a|] == a && value[start..|n|][|a|..] == p;
  }

  lemma SlashEndsAuthority(value: Text)
    requires ValidBase(value)
    ensures NoSlash(Authority(value))
  {
    hide Forbidden;
  }

  lemma PartIsPlain(value: Text, s: Text, from: nat)
    requires from + |s| <= |value| && s == value[from..from + |s|]
    requires forall i :: 0 <= i < |value| ==> !Forbidden(value[i])
    ensures Without(s, AFTER_PATH)
  {
    forall i | 0 <= i < |s|
      ensures s[i] !in AFTER_PATH
    {
      assert s[i] == value[from + i];
      assert !Forbidden(value[from + i]);
    }
  }

  lemma EscapedStays(s: Text)
    requires EscapedText(s)
    ensures Without(s, AFTER_PATH)
  {}

  lemma PathOctets(org: Text, name: Text, version: Text)
    ensures Without(PackageText(org, name), AFTER_PATH) && Without(VersionText(org, name, version), AFTER_PATH)
    ensures PackageText(org, name) != [] && PackageText(org, name)[0] == SLASH
    ensures VersionText(org, name, version) != [] && VersionText(org, name, version)[0] == SLASH
  {
    hide Encoded, EscapedText;
    EncodedAlphabet(org);
    EncodedAlphabet(name);
    EncodedAlphabet(version);
    EscapedStays(Encoded(org));
    EscapedStays(Encoded(name));
    EscapedStays(Encoded(version));
    assert Without(PACKAGES, AFTER_PATH) && Without(VERSIONS, AFTER_PATH) && Without([SLASH], AFTER_PATH);
  }

  /**
   A request to a valid base for valid coordinates goes to the scheme and the authority of the base, at the path of
   the base followed by the path of the coordinates, with no query and no fragment.
   */
  lemma RequestGoesToBase(value: Text, path: Text)
    requires ValidBase(value) && path != [] && path[0] == SLASH && Without(path, AFTER_PATH)
    ensures Split(Trimmed(value, AuthorityStart(value)) + path)
            == Components(Some(Scheme(value)), Some(Authority(value)), BasePath(value) + path, None, None)
  {
    hide Split, Trimmed, Authority, BasePath, Forbidden;
    BaseTakenApart(value);
    var s := BasePath(value) + path;
    var front := Scheme(value) + [COLON] + SLASHES + Authority(value);
    assert front + BasePath(value) + path == front + s;
    assert Without(Scheme(value), AFTER_SCHEME);
    PathSplits(Scheme(value), Authority(value), s, s);
  }

  lemma RequestUrls(value: Text, org: Text, name: Text, version: Text)
    requires ValidBase(value)
    ensures var base := Trimmed(value, AuthorityStart(value));
            var c, d := Split(base + PackageText(org, name)), Split(base + VersionText(org, name, version));
            && c == Components(Some(Scheme(value)), Some(Authority(value)), BasePath(value) + PackageText(org, name),
                               None, None)
            && d == Components(Some(Scheme(value)), Some(Authority(value)),
                               BasePath(value) + VersionText(org, name, version), None, None)
  {
    hide Split, Trimmed, Authority, BasePath, ValidBase, PackageText, VersionText;
    PathOctets(org, name, version);
    RequestGoesToBase(value, PackageText(org, name));
    RequestGoesToBase(value, VersionText(org, name, version));
  }

  // ----- What is escaped -----

  /** Letters, digits and `-._~`. */
  predicate PlainOctet(b: Byte) {
    'a' as int <= b <= 'z' as int || 'A' as int <= b <= 'Z' as int || '0' as int <= b <= '9' as int
    || b == '-' as int || b == '.' as int || b == '_' as int || b == '~' as int
  }

  /** They stay as they are. */
  lemma {:induction false} PlainStays(s: Text)
    requires forall i :: 0 <= i < |s| ==> PlainOctet(s[i])
    ensures Encoded(s) == s
  {
    hide Unreserved;
    if s != [] {
      PlainStays(s[..|s| - 1]);
      PlainIsUnreserved(s[|s| - 1]);
    }
  }

  lemma PlainIsUnreserved(b: Byte)
    ensures Unreserved(b) <==> PlainOctet(b)
  {}

  /** Any other octet becomes a percent sign and two digits that spell it. */
  lemma OthersEscaped(b: Byte)
    requires !PlainOctet(b)
    ensures |Encoded([b])| == 3 && Encoded([b])[0] == '%' as int
    ensures HexValue(Encoded([b])[1]) == Some(b / 16) && HexValue(Encoded([b])[2]) == Some(b % 16)
  {
    assert [b][..0] == [];
    assert Encoded([b]) == Encoded([]) + EncodeByte(b);
    PlainIsUnreserved(b);
  }
}
