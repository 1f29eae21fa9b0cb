/**
 The Swift client's multipart frame, and a reader that follows section 5.1.1 of RFC 2046. The reader
 gives the two payloads back exactly when neither holds a line that begins with the delimiter.
 */
module Multipart {
  import opened Bytes

  const CR: Byte := 13
  const LF: Byte := 10
  const CRLF: seq<Byte> := [13, 10]
  const DASHES: seq<Byte> := [45, 45]

  // ----- The writer -----

  /** A header character of the frame is one octet, never CR. */
  predicate Plain(s: seq<Byte>) {
    forall i :: 0 <= i < |s| ==> s[i] != CR
  }

  predicate IsAscii(s: string) {
    forall i :: 0 <= i < |s| ==> s[i] as int < 0x80 && s[i] as int != 13
  }

  function Ascii(s: string): (r: seq<Byte>)
    requires IsAscii(s)
    ensures |r| == |s| && Plain(r)
  {
    Octets(s)
  }

  const FORM_DATA: string := "Content-Disposition: form-data"
  const META_NAME: string := "; name=\"meta\""
  const META_TYPE: string := "Content-Type: application/json"
  const ARTIFACT_NAME: string := "; name=\"artifact\"; filename=\""
  const ARTIFACT_TYPE: string := "Content-Type: application/octet-stream"

  function MetaLine(): (r: seq<Byte>)
    ensures Plain(r)
  {
    Ascii(FORM_DATA) + Ascii(META_NAME)
  }

  function MetaHeaders(): seq<Byte> {
    MetaLine() + CRLF + Ascii(META_TYPE)
  }

  function ArtifactLine(filename: string): (r: seq<Byte>)
    requires IsAscii(filename)
    ensures Plain(r)
  {
    Ascii(FORM_DATA) + Ascii(ARTIFACT_NAME) + Ascii(filename) + Ascii("\"")
  }

  function ArtifactHeaders(filename: string): seq<Byte>
    requires IsAscii(filename)
  {
    ArtifactLine(filename) + CRLF + Ascii(ARTIFACT_TYPE)
  }

  predicate SafeCharacter(c: char) {
    'a' <= c <= 'z' || 'A' <= c <= 'Z' || '0' <= c <= '9' || c == '.' || c == '_' || c == '-'
  }

  /** Those are the characters with these codes. */
  lemma SafeCodes(c: char)
    ensures SafeCharacter(c) <==>
      var n := c as int; n == 45 || n == 46 || n == 95 || 48 <= n <= 57 || 65 <= n <= 90 || 97 <= n <= 122
  {}

  /**
   A Swift character is a grapheme cluster, here the text of one. Every character but a single ASCII letter,
   digit or one of `._-` becomes `_`, so no file name can end the quoted string.
   */
  function SafeFilename(value: seq<string>): (r: string)
    ensures |r| == |value|
    ensures forall i :: 0 <= i < |r| ==>
      SafeCharacter(r[i]) && (if |value[i]| == 1 && SafeCharacter(value[i][0]) then value[i] == [r[i]] else r[i] == '_')
    ensures IsAscii(r)
  {
    if value == [] then ""
    else [if |value[0]| == 1 && SafeCharacter(value[0][0]) then value[0][0] else '_'] + SafeFilename(value[1..])
  }

  function Delimiter(boundary: seq<Byte>): seq<Byte> {
    CRLF + DASHES + boundary
  }

  /** One part of the frame: the rest of its delimiter's line, headers, empty line, payload, next delimiter. */
  function PartText(headers: seq<Byte>, payload: seq<Byte>, boundary: seq<Byte>): seq<Byte> {
    CRLF + headers + CRLF + CRLF + payload + Delimiter(boundary)
  }

  function Frame(boundary: seq<Byte>, meta: seq<Byte>, artifact: seq<Byte>, filename: string): seq<Byte>
    requires IsAscii(filename)
  {
    DASHES + boundary + PartText(MetaHeaders(), meta, boundary)
      + PartText(ArtifactHeaders(filename), artifact, boundary)
    + DASHES + CRLF
  }

  /** Appends line by line to one growing buffer. `characters` is the language's own segmentation of a string. */
  method MultipartBody(boundary: seq<Byte>, meta: seq<Byte>, artifact: seq<Byte>, org: string, name: string,
                       version: string,
                       characters: string -> seq<string>)
    returns (body: seq<Byte>)
    ensures body == Frame(boundary, meta, artifact,
                          SafeFilename(characters(org + "-" + name + "-" + version + ".tar.gz")))
  {
    hide Ascii, Octets, IsAscii, MetaHeaders, MetaLine, ArtifactHeaders, ArtifactLine, Delimiter, PartText;
    AsciiConstants();
    var dashes: seq<Byte>, crlf: seq<Byte> := [45, 45], [13, 10];
    body := [];
    body := body + dashes + boundary + crlf;
    MetaBlock(body);
    body := body + (Ascii(FORM_DATA) + Ascii(META_NAME)) + crlf;
    body := body + Ascii(META_TYPE) + crlf + crlf;
    body := body + meta;
    PartAppended(DASHES + boundary, MetaHeaders(), meta, boundary);
    body := body + crlf + dashes + boundary + crlf;
    ghost var front := DASHES + boundary + PartText(MetaHeaders(), meta, boundary);
    assert body == front + CRLF;
    var filename := SafeFilename(characters(org + "-" + name + "-" + version + ".tar.gz"));
    ArtifactBlock(body, filename);
    body := body + (Ascii(FORM_DATA) + Ascii(ARTIFACT_NAME) + Ascii(filename) + Ascii("\"")) + crlf;
    body := body + Ascii(ARTIFACT_TYPE) + crlf + crlf;
    body := body + artifact;
    PartAppended(front, ArtifactHeaders(filename), artifact, boundary);
    body := body + crlf + dashes + boundary + dashes + crlf;
  }

  lemma AsciiConstants()
    ensures IsAscii(FORM_DATA) && IsAscii(META_NAME) && IsAscii(META_TYPE) && IsAscii(ARTIFACT_NAME)
      && IsAscii(ARTIFACT_TYPE) && IsAscii("\"")
  {
    FormDataIsAscii();
    MetaIsAscii();
    ArtifactIsAscii();
    hide IsAscii, FORM_DATA, META_NAME, META_TYPE, ARTIFACT_NAME, ARTIFACT_TYPE;
  }

  lemma FormDataIsAscii()
    ensures IsAscii(FORM_DATA) && IsAscii("\"")
  {}

  lemma MetaIsAscii()
    ensures IsAscii(META_NAME) && IsAscii(META_TYPE)
  {}

  lemma ArtifactIsAscii()
    ensures IsAscii(ARTIFACT_NAME) && IsAscii(ARTIFACT_TYPE)
  {}

  lemma MetaBlock(x: seq<Byte>)
    ensures x + (Ascii(FORM_DATA) + Ascii(META_NAME)) + CRLF + Ascii(META_TYPE) == x + MetaHeaders()
  {}

  lemma ArtifactBlock(x: seq<Byte>, filename: string)
    requires IsAscii(filename)
    ensures x + (Ascii(FORM_DATA) + Ascii(ARTIFACT_NAME) + Ascii(filename) + Ascii("\"")) + CRLF + Ascii(ARTIFACT_TYPE)
            == x + ArtifactHeaders(filename)
  {}

  lemma PartAppended(x: seq<Byte>, headers: seq<Byte>, payload: seq<Byte>, boundary: seq<Byte>)
    ensures x + CRLF + headers + CRLF + CRLF + payload + CRLF + DASHES + boundary == x
      + PartText(headers, payload, boundary)
  {
    var y := x + CRLF + headers + CRLF + CRLF + payload;
    assert y == x + (CRLF + headers + CRLF + CRLF + payload);
    assert y + CRLF + DASHES + boundary == y + (CRLF + DASHES + boundary);
  }

  // ----- The reader -----

  datatype Part = Part(headers: seq<Byte>, content: seq<Byte>)

  /** The first position from `from` on where `pat` stands, if any. */
  function Find(s: seq<Byte>, pat: seq<Byte>, from: nat): (r: Option<nat>)
    ensures r.Some? ==> from <= r.value && At(s, pat, r.value) && forall i :: from <= i < r.value ==> !At(s, pat, i)
    ensures r.None? ==> forall i :: from <= i ==> !At(s, pat, i)
    decreases |s| - from
  {
    if from + |pat| > |s| then None
    else if At(s, pat, from) then Some(from)
    else Find(s, pat, from + 1)
  }

  /** Past the linear white space that may follow a delimiter. */
  function SkipPadding(s: seq<Byte>, from: nat): (r: nat)
    requires from <= |s|
    ensures from <= r <= |s|
    decreases |s| - from
  {
    if from < |s| && (s[from] == 32 || s[from] == 9) then SkipPadding(s, from + 1) else from
  }

  /** A body part: header lines up to the first empty line, then content; an empty first line means no headers. */
  function SplitPart(region: seq<Byte>): Option<Part> {
    if At(region, CRLF, 0) then Some(Part([], region[2..]))
    else match Find(region, CRLF + CRLF, 0)
      case None => None
      case Some(k) => Some(Part(region[..k], region[k + 4..]))
  }

  /**
   The parts after a delimiter that ends at `at`. The close delimiter ends the body. Otherwise the rest
   of the line is padding, and the part runs to the next delimiter.
   */
  function ReadParts(s: seq<Byte>, delimiter: seq<Byte>, at: nat): Option<seq<Part>>
    requires at <= |s|
    decreases |s| - at
  {
    if At(s, DASHES, at) then Some([])
    else
      var eol := SkipPadding(s, at);
      if !At(s, CRLF, eol) then None
      else match Find(s, delimiter, eol + 2)
        case None => None
        case Some(next) =>
          match SplitPart(s[eol + 2..next])
          case None => None
          case Some(part) =>
            match ReadParts(s, delimiter, next + |delimiter|)
            case None => None
            case Some(rest) => Some([part] + rest)
  }

  /** The whole body: a preamble, then the parts. The start of the body counts as the start of a line. */
  function Read(body: seq<Byte>, boundary: seq<Byte>): Option<seq<Part>> {
    var s := CRLF + body;
    match Find(s, Delimiter(boundary), 0)
    case None => None
    case Some(first) => ReadParts(s, Delimiter(boundary), first + |Delimiter(boundary)|)
  }

  // ----- Where a delimiter can stand -----

  /** A line of the payload, its first line counted, begins with the delimiter. */
  ghost predicate Dirty(boundary: seq<Byte>, payload: seq<Byte>) {
    Occurs(CRLF + payload, Delimiter(boundary))
  }

  ghost predicate Clean(boundary: seq<Byte>, payload: seq<Byte>) {
    !Dirty(boundary, payload)
  }

  /** A delimiter cannot overlap the one that follows: its CR stands first in it and nowhere else. */
  lemma NoSeam(front: seq<Byte>, boundary: seq<Byte>, back: seq<Byte>, i: nat)
    requires Plain(boundary)
    requires i < |front| && At(front + Delimiter(boundary) + back, Delimiter(boundary), i)
    ensures At(front, Delimiter(boundary), i)
  {
    hide Delimiter;
    var d := Delimiter(boundary);
    var s := front + d + back;
    DelimiterShape(boundary);
    assert s[|front|] == d[0];
    OnlyFirstIsCr(boundary, |front| - i);
    InSlice(s, i, |d|, |front| - i);
    assert front[i..i + |d|] == s[i..i + |d|];
  }

  lemma OnlyFirstIsCr(boundary: seq<Byte>, k: nat)
    requires Plain(boundary) && k > 0
    ensures k < |Delimiter(boundary)| ==> Delimiter(boundary)[k] != CR
  {
    DelimiterShape(boundary);
  }

  lemma InSlice(s: seq<Byte>, i: nat, n: nat, k: nat)
    requires i + n <= |s|
    ensures k < n ==> s[i..i + n][k] == s[i + k]
  {}

  lemma FirstIs(s: seq<Byte>, pat: seq<Byte>, from: nat, k: nat)
    requires from <= k && At(s, pat, k) && forall i :: from <= i < k ==> !At(s, pat, i)
    ensures Find(s, pat, from) == Some(k)
  {}

  lemma DelimiterShape(boundary: seq<Byte>)
    requires Plain(boundary)
    ensures |Delimiter(boundary)| == 4 + |boundary|
    ensures Delimiter(boundary)[0] == CR && Delimiter(boundary)[1] == LF && Delimiter(boundary)[2] == 45
    ensures forall k :: 0 < k < |Delimiter(boundary)| ==> Delimiter(boundary)[k] != CR
  {
    var d := Delimiter(boundary);
    forall k | 0 < k < |d|
      ensures d[k] != CR
    {
      if k >= 4 {
        assert d[k] == boundary[k - 4];
      }
    }
  }

  /** An occurrence begins with CR LF and a dash. */
  lemma Occurrence(s: seq<Byte>, boundary: seq<Byte>, i: nat)
    requires Plain(boundary) && At(s, Delimiter(boundary), i)
    ensures i + 4 <= |s| && s[i] == CR && s[i + 1] == LF && s[i + 2] == 45
  {
    DelimiterShape(boundary);
    var d := Delimiter(boundary);
    InSlice(s, i, |d|, 0);
    InSlice(s, i, |d|, 1);
    InSlice(s, i, |d|, 2);
  }

  lemma AtSuffix(front: seq<Byte>, s: seq<Byte>, pat: seq<Byte>, i: nat)
    ensures At(front + s, pat, |front| + i) <==> At(s, pat, i)
  {
    if i + |pat| <= |s| {
      assert (front + s)[|front| + i..|front| + i + |pat|] == s[i..i + |pat|];
    }
  }

  /** Two header lines, as both parts of the frame have: the second begins with neither a dash nor CR. */
  ghost predicate HeaderLines(first: seq<Byte>, second: seq<Byte>) {
    Plain(first) && first != [] && Plain(second) && second != [] && second[0] != 45
  }

  function Headers(first: seq<Byte>, second: seq<Byte>): seq<Byte> {
    first + CRLF + second
  }

  /** What stands between the line of one delimiter and the next delimiter. */
  function Region(first: seq<Byte>, second: seq<Byte>, payload: seq<Byte>): seq<Byte> {
    Headers(first, second) + CRLF + (CRLF + payload)
  }

  lemma RegionShape(first: seq<Byte>, second: seq<Byte>, payload: seq<Byte>)
    ensures var r, h := Region(first, second, payload), |first| + 2 + |second|;
            && |Headers(first, second)| == h && |r| == h + 4 + |payload|
            && r[..h] == Headers(first, second) && r[h + 4..] == payload
            && r[h] == CR && r[h + 1] == LF && r[h + 2] == CR && r[h + 3] == LF
            && r[|first|] == CR && r[|first| + 1] == LF && (second != [] ==> r[|first| + 2] == second[0])
            && (forall k :: 0 <= k < |first| ==> r[k] == first[k])
            && (forall k :: 0 <= k < |second| ==> r[|first| + 2 + k] == second[k])
  {}

  /** In the header lines of a region only their two line ends hold a CR. */
  lemma HeaderCr(first: seq<Byte>, second: seq<Byte>, payload: seq<Byte>, i: nat)
    requires HeaderLines(first, second) && i < |first| + 2 + |second| + 2
    ensures Region(first, second, payload)[i] == CR ==> i == |first| || i == |first| + 2 + |second|
  {
    RegionShape(first, second, payload);
    var r := Region(first, second, payload);
    if i < |first| {
      assert r[i] == first[i];
    } else if |first| + 2 <= i < |first| + 2 + |second| {
      var k := i - |first| - 2;
      assert r[|first| + 2 + k] == second[k];
    }
  }

  /** Inside a region a delimiter can stand only in the payload or on the line end just before it. */
  lemma DelimiterInRegion(boundary: seq<Byte>, first: seq<Byte>, second: seq<Byte>, payload: seq<Byte>, i: nat)
    requires Plain(boundary) && HeaderLines(first, second)
    ensures At(Region(first, second, payload), Delimiter(boundary), i) <==>
            i >= |Headers(first, second)| + 2
              && At(CRLF + payload, Delimiter(boundary), i - |Headers(first, second)| - 2)
  {
    var r, h := Region(first, second, payload), |Headers(first, second)|;
    RegionShape(first, second, payload);
    if i >= h + 2 {
      AtSuffix(Headers(first, second) + CRLF, CRLF + payload, Delimiter(boundary), i - h - 2);
    } else if At(r, Delimiter(boundary), i) {
      Occurrence(r, boundary, i);
      HeaderCr(first, second, payload, i);
      assert false;
    }
  }

  lemma RegionSplits(first: seq<Byte>, second: seq<Byte>, payload: seq<Byte>)
    requires HeaderLines(first, second)
    ensures SplitPart(Region(first, second, payload)) == Some(Part(Headers(first, second), payload))
  {
    var r, h := Region(first, second, payload), |Headers(first, second)|;
    RegionShape(first, second, payload);
    assert r[0] == first[0];
    assert r[h..h + 4] == CRLF + CRLF;
    forall i | 0 <= i < h
      ensures !At(r, CRLF + CRLF, i)
    {
      if At(r, CRLF + CRLF, i) {
        EmptyLine(r, i);
        HeaderCr(first, second, payload, i);
        assert false;
      }
    }
    FirstIs(r, CRLF + CRLF, 0, h);
  }

  lemma EmptyLine(s: seq<Byte>, i: nat)
    requires At(s, CRLF + CRLF, i)
    ensures i + 4 <= |s| && s[i] == CR && s[i + 1] == LF && s[i + 2] == CR && s[i + 3] == LF
  {
    InSlice(s, i, 4, 0);
    InSlice(s, i, 4, 1);
    InSlice(s, i, 4, 2);
    InSlice(s, i, 4, 3);
  }

  // ----- Reading a part back -----

  /** Where the part that starts at `start` ends, and whether that is where its writer meant it to end. */
  lemma NextDelimiter(s: seq<Byte>, start: nat, boundary: seq<Byte>, first: seq<Byte>, second: seq<Byte>,
                      payload: seq<Byte>, back: seq<Byte>)
    returns (next: nat)
    requires Plain(boundary) && HeaderLines(first, second)
    requires start <= |s| && s[start..] == Region(first, second, payload) + Delimiter(boundary) + back
    ensures Find(s, Delimiter(boundary), start) == Some(next)
    ensures !Dirty(boundary, payload) ==> next == start + |Region(first, second, payload)|
    ensures Dirty(boundary, payload) ==>
              start + |Headers(first, second)| + 2 <= next < start + |Region(first, second, payload)|
  {
    hide Delimiter, Region, Headers, Find, At;
    var d, r := Delimiter(boundary), Region(first, second, payload);
    var t := s[start..];
    assert s == s[..start] + t;
    AtEnd(r, d, back);
    AtSuffix(s[..start], t, d, |r|);
    FindBounds(s, d, start, start + |r|);
    next := Find(s, d, start).value;
    AtSuffix(s[..start], t, d, next - start);
    if next < start + |r| {
      DelimiterBefore(boundary, first, second, payload, back, next - start);
    }
    if Dirty(boundary, payload) {
      var j :| At(CRLF + payload, d, j);
      var k := |Headers(first, second)| + 2 + j;
      InRegionToo(boundary, first, second, payload, j);
      DelimiterBefore(boundary, first, second, payload, back, k);
      AtSuffix(s[..start], t, d, k);
      FindBounds(s, d, start, start + k);
    }
  }

  lemma AtEnd(r: seq<Byte>, d: seq<Byte>, back: seq<Byte>)
    ensures At(r + d + back, d, |r|)
  {
    assert (r + d + back)[|r|..|r| + |d|] == d;
  }

  /** Before the delimiter that closes a region, a delimiter stands exactly where one begins a line of the payload. */
  lemma DelimiterBefore(boundary: seq<Byte>, first: seq<Byte>, second: seq<Byte>, payload: seq<Byte>, back: seq<Byte>,
                        i: nat)
    requires Plain(boundary) && HeaderLines(first, second) && i < |Region(first, second, payload)|
    ensures At(Region(first, second, payload) + Delimiter(boundary) + back, Delimiter(boundary), i) <==>
            i >= |Headers(first, second)| + 2
              && At(CRLF + payload, Delimiter(boundary), i - |Headers(first, second)| - 2)
  {
    hide Region, Headers, Delimiter;
    var d, r := Delimiter(boundary), Region(first, second, payload);
    DelimiterInRegion(boundary, first, second, payload, i);
    if At(r + d + back, d, i) {
      NoSeam(r, boundary, back, i);
    }
    if At(r, d, i) {
      assert (r + d + back)[i..i + |d|] == r[i..i + |d|];
    }
  }

  lemma FindBounds(s: seq<Byte>, pat: seq<Byte>, from: nat, k: nat)
    requires from <= k && At(s, pat, k)
    ensures Find(s, pat, from).Some? && from <= Find(s, pat, from).value <= k && At(s, pat, Find(s, pat, from).value)
  {}

  lemma InRegionToo(boundary: seq<Byte>, first: seq<Byte>, second: seq<Byte>, payload: seq<Byte>, j: int)
    requires Plain(boundary) && HeaderLines(first, second) && At(CRLF + payload, Delimiter(boundary), j)
    ensures j >= 0
    ensures var k := |Headers(first, second)| + 2 + j;
            && At(Region(first, second, payload), Delimiter(boundary), k) && k < |Region(first, second, payload)|
  {
    DelimiterInRegion(boundary, first, second, payload, |Headers(first, second)| + 2 + j);
    DelimiterShape(boundary);
  }

  /** A region cut short never splits into its own headers and payload. */
  lemma CutRegion(first: seq<Byte>, second: seq<Byte>, payload: seq<Byte>, n: nat)
    requires HeaderLines(first, second)
    requires |Headers(first, second)| + 2 <= n < |Region(first, second, payload)|
    ensures var p := SplitPart(Region(first, second, payload)[..n]); p.Some? ==> p.value.content != payload
  {
    var r, h := Region(first, second, payload), |Headers(first, second)|;
    RegionShape(first, second, payload);
    var cut := r[..n];
    assert cut[0] == first[0] != CR;
    var p := SplitPart(cut);
    if p.Some? {
      var k := Find(cut, CRLF + CRLF, 0).value;
      EmptyLine(cut, k);
      assert cut[k] == r[k] && cut[k + 2] == r[k + 2];
      if k < h {
        HeaderCr(first, second, payload, k);
        assert false;
      }
      assert |p.value.content| == n - k - 4 < |payload|;
    }
  }

  /** Reading from a delimiter on: the part comes back, followed by the rest, exactly when its payload is clean. */
  lemma ReadsOnePart(s: seq<Byte>, at: nat, boundary: seq<Byte>, first: seq<Byte>, second: seq<Byte>,
                     payload: seq<Byte>, back: seq<Byte>)
    requires Plain(boundary) && HeaderLines(first, second)
    requires at <= |s| && s[at..] == CRLF + (Region(first, second, payload) + Delimiter(boundary) + back)
    ensures var next := at + 2 + |Region(first, second, payload)| + |Delimiter(boundary)|;
            var rest := ReadParts(s, Delimiter(boundary), next);
            && next <= |s| && s[next..] == back
            && (!Dirty(boundary, payload) ==>
                  ReadParts(s, Delimiter(boundary), at) ==
                    if rest.None? then None else Some([Part(Headers(first, second), payload)] + rest.value))
    ensures Dirty(boundary, payload) ==>
              var parts := ReadParts(s, Delimiter(boundary), at);
              parts.Some? ==> parts.value != [] && parts.value[0].content != payload
  {
    hide Delimiter, Region, Headers, SplitPart, Find, At;
    var d, r := Delimiter(boundary), Region(first, second, payload);
    LineEnd(s, at, r + d + back);
    var next := NextDelimiter(s, at + 2, boundary, first, second, payload, back);
    Slices(s, at + 2, r, d, back, next);
    if Dirty(boundary, payload) {
      CutRegion(first, second, payload, next - at - 2);
    } else {
      RegionSplits(first, second, payload);
      assert s[at + 2..next] == r[..|r|] == r;
    }
  }

  /** At a line end there is no close delimiter and no padding. */
  lemma LineEnd(s: seq<Byte>, at: nat, back: seq<Byte>)
    requires at <= |s| && s[at..] == CRLF + back
    ensures !At(s, DASHES, at) && SkipPadding(s, at) == at && At(s, CRLF, at) && s[at + 2..] == back
  {
    assert s[at] == s[at..][0] == CR && s[at + 1] == s[at..][1] == LF;
    InSlice(s, at, 2, 0);
    assert s[at..at + 2] == CRLF;
    assert s[at + 2..] == s[at..][2..];
  }

  lemma Slices(s: seq<Byte>, start: nat, r: seq<Byte>, d: seq<Byte>, back: seq<Byte>, next: nat)
    requires start <= next <= start + |r| && start <= |s| && s[start..] == r + d + back
    ensures |s| == start + |r| + |d| + |back|
    ensures s[start..next] == r[..next - start]
    ensures s[start + |r| + |d|..] == back
  {
    var t := s[start..];
    assert s[start..next] == t[..next - start];
    assert s[start + |r| + |d|..] == t[|r| + |d|..];
  }

  // ----- The frame -----

  lemma FrameHeaders(filename: string)
    requires IsAscii(filename)
    ensures HeaderLines(MetaLine(), Ascii(META_TYPE)) && HeaderLines(ArtifactLine(filename), Ascii(ARTIFACT_TYPE))
    ensures MetaHeaders() == Headers(MetaLine(), Ascii(META_TYPE))
    ensures ArtifactHeaders(filename) == Headers(ArtifactLine(filename), Ascii(ARTIFACT_TYPE))
  {
    assert Ascii(META_TYPE)[0] == 'C' as int && Ascii(ARTIFACT_TYPE)[0] == 'C' as int;
    assert |FORM_DATA| > 0;
  }

  lemma PartTextShape(first: seq<Byte>, second: seq<Byte>, payload: seq<Byte>, boundary: seq<Byte>, back: seq<Byte>)
    ensures PartText(Headers(first, second), payload, boundary) + back ==
            CRLF + (Region(first, second, payload) + Delimiter(boundary) + back)
  {
    hide Headers, Delimiter;
    var h, d := Headers(first, second), Delimiter(boundary);
    assert CRLF + h + CRLF + CRLF + payload == CRLF + (h + CRLF + (CRLF + payload));
    var r := h + CRLF + (CRLF + payload);
    assert CRLF + r + d + back == CRLF + (r + d + back);
  }

  lemma FrameShape(boundary: seq<Byte>, meta: seq<Byte>, artifact: seq<Byte>, filename: string)
    requires IsAscii(filename)
    ensures CRLF + Frame(boundary, meta, artifact, filename) ==
            Delimiter(boundary) + (PartText(MetaHeaders(), meta, boundary)
                                   + (PartText(ArtifactHeaders(filename), artifact, boundary) + (DASHES + CRLF)))
  {
    hide PartText, MetaHeaders, ArtifactHeaders;
    var x, y := PartText(MetaHeaders(), meta, boundary), PartText(ArtifactHeaders(filename), artifact, boundary);
    assert DASHES + boundary + x + y + DASHES + CRLF == DASHES + boundary + (x + (y + (DASHES + CRLF)));
    assert CRLF + (DASHES + boundary + (x + (y + (DASHES + CRLF)))) == CRLF + DASHES + boundary
      + (x + (y + (DASHES + CRLF)));
  }

  /**
   The reader recovers both parts, with their headers, exactly when no line of either payload begins
   with the delimiter.
   */
  lemma FrameRoundTrip(boundary: seq<Byte>, meta: seq<Byte>, artifact: seq<Byte>, filename: string)
    requires Plain(boundary) && IsAscii(filename)
    ensures Read(Frame(boundary, meta, artifact, filename), boundary)
            == Some([Part(MetaHeaders(), meta), Part(ArtifactHeaders(filename), artifact)])
            <==> Clean(boundary, meta) && Clean(boundary, artifact)
  {
    hide Delimiter, Region, Headers, Find, ReadParts, Frame, PartText, MetaHeaders, ArtifactHeaders, ArtifactLine,
      MetaLine, Ascii;
    var s, d := CRLF + Frame(boundary, meta, artifact, filename), Delimiter(boundary);
    FrameHeaders(filename);
    FrameShape(boundary, meta, artifact, filename);
    var tail := PartText(ArtifactHeaders(filename), artifact, boundary) + (DASHES + CRLF);
    assert s[..|d|] == d && s[|d|..] == PartText(MetaHeaders(), meta, boundary) + tail;
    FirstIs(s, d, 0, 0);
    PartTextShape(MetaLine(), Ascii(META_TYPE), meta, boundary, tail);
    ReadsOnePart(s, |d|, boundary, MetaLine(), Ascii(META_TYPE), meta, tail);
    var second := |d| + 2 + |Region(MetaLine(), Ascii(META_TYPE), meta)| + |d|;
    TailRead(s, second, boundary, artifact, filename);
    TwoParts(ReadParts(s, d, |d|), ReadParts(s, d, second), Part(MetaHeaders(), meta),
             Part(ArtifactHeaders(filename), artifact), Dirty(boundary, meta));
  }

  lemma TwoParts(all: Option<seq<Part>>, rest: Option<seq<Part>>, first: Part, second: Part, dirty: bool)
    requires !dirty ==> all == if rest.None? then None else Some([first] + rest.value)
    requires dirty && all.Some? ==> all.value != [] && all.value[0] != first
    ensures all == Some([first, second]) <==> !dirty && rest == Some([second])
  {
    if all == Some([first, second]) && !dirty {
      assert rest.value == ([first] + rest.value)[1..];
      assert [second] == [first, second][1..];
    }
    if rest == Some([second]) {
      assert [first] + [second] == [first, second];
    }
  }

  lemma TailRead(s: seq<Byte>, at: nat, boundary: seq<Byte>, artifact: seq<Byte>, filename: string)
    requires Plain(boundary) && IsAscii(filename)
    requires at <= |s| && s[at..] == PartText(ArtifactHeaders(filename), artifact, boundary) + (DASHES + CRLF)
    ensures ReadParts(s, Delimiter(boundary), at) == Some([Part(ArtifactHeaders(filename), artifact)]) <==>
      !Dirty(boundary, artifact)
  {
    hide Delimiter, Region, Headers, Find, ArtifactHeaders, ArtifactLine, Ascii, PartText, ReadParts;
    FrameHeaders(filename);
    var first, second := ArtifactLine(filename), Ascii(ARTIFACT_TYPE);
    PartTextShape(first, second, artifact, boundary, DASHES + CRLF);
    ReadsOnePart(s, at, boundary, first, second, artifact, DASHES + CRLF);
    var close := at + 2 + |Region(first, second, artifact)| + |Delimiter(boundary)|;
    ClosedAt(s, Delimiter(boundary), close);
    assert [Part(ArtifactHeaders(filename), artifact)] + [] == [Part(ArtifactHeaders(filename), artifact)];
  }

  lemma ClosedAt(s: seq<Byte>, d: seq<Byte>, close: nat)
    requires close <= |s| && s[close..] == DASHES + CRLF
    ensures ReadParts(s, d, close) == Some([])
  {
    assert s[close..close + 2] == s[close..][..2] == DASHES;
  }

  /**
   The condition a caller can check: the delimiter is not in the payload, and the payload does not begin with
   `--boundary`.
   */
  lemma CleanWhen(boundary: seq<Byte>, payload: seq<Byte>)
    requires Plain(boundary)
    ensures Clean(boundary, payload) <==> !Occurs(payload, Delimiter(boundary)) && !(DASHES + boundary <= payload)
  {
    var d := Delimiter(boundary);
    assert d == CRLF + (DASHES + boundary);
    if DASHES + boundary <= payload {
      assert (CRLF + payload)[0..|d|] == d;
      assert At(CRLF + payload, d, 0);
    }
    if i :| At(payload, d, i) {
      AtSuffix(CRLF, payload, d, i);
    }
    if i :| At(CRLF + payload, d, i) {
      Occurrence(CRLF + payload, boundary, i);
      if i >= 2 {
        AtSuffix(CRLF, payload, d, i - 2);
      } else {
        assert i == 0;
        assert payload[..|d| - 2] == (CRLF + payload)[0..|d|][2..] == d[2..] == DASHES + boundary;
      }
    }
  }

  /**
   Keeping the delimiter out of the payload is not enough: an artifact that is `--boundary` itself does
   not hold the delimiter, yet the line end of the empty header line completes it.
   */
  lemma LeadingBoundaryIsLost(boundary: seq<Byte>, meta: seq<Byte>, filename: string)
    requires Plain(boundary) && IsAscii(filename)
    ensures var artifact := DASHES + boundary;
            && !Occurs(artifact, Delimiter(boundary))
            && Read(Frame(boundary, meta, artifact, filename), boundary)
               != Some([Part(MetaHeaders(), meta), Part(ArtifactHeaders(filename), artifact)])
  {
    var artifact := DASHES + boundary;
    DelimiterShape(boundary);
    CleanWhen(boundary, artifact);
    FrameRoundTrip(boundary, meta, artifact, filename);
  }
}
