/**
 The two parts of the frame as form fields: what a reader of `Content-Disposition` and `Content-Type` headers
 (RFC 7578, section 4.2) makes of them, and of the whole body.
 */
module FormFields {
  import opened Bytes
  import opened Multipart

  datatype Field = Field(name: seq<Byte>, filename: Option<seq<Byte>>, mediaType: seq<Byte>, content: seq<Byte>)

  const QUOTE: Byte := 34
  const DISPOSITION: seq<Byte> := Octets("Content-Disposition: form-data")
  const NAME: seq<Byte> := Octets("; name=\"")
  const FILENAME: seq<Byte> := Octets("; filename=\"")
  const TYPE: seq<Byte> := Octets("Content-Type: ")
  const JSON: seq<Byte> := Octets("application/json")
  const STREAM: seq<Byte> := Octets("application/octet-stream")
  const META: seq<Byte> := Octets("meta")
  const ARTIFACT: seq<Byte> := Octets("artifact")

  /** The value of a parameter: from behind its name and the opening quote to the next quote. */
  function Parameter(line: seq<Byte>, mark: seq<Byte>): Option<seq<Byte>> {
    match Find(line, mark, 0)
    case None => None
    case Some(k) =>
      var rest := line[k + |mark|..];
      match Find(rest, [QUOTE], 0)
      case None => None
      case Some(q) => Some(rest[..q])
  }

  /** A part with a disposition line and a media type line, in that order. */
  function ReadField(part: Part): Option<Field> {
    match Find(part.headers, CRLF, 0)
    case None => None
    case Some(k) =>
      var disposition, media := part.headers[..k], part.headers[k + 2..];
      if !(DISPOSITION <= disposition && TYPE <= media) then None
      else match Parameter(disposition, NAME)
        case None => None
        case Some(name) =>
          Some(Field(name, Parameter(disposition, FILENAME), media[14..], part.content))
  }

  // ----- The two lines of each part -----

  lemma Disposition()
    ensures IsAscii(FORM_DATA) && Ascii(FORM_DATA) == DISPOSITION
    ensures |DISPOSITION| == 30
    ensures forall i :: 0 <= i < 30 ==> DISPOSITION[i] != ';' as int
  {
  }

  /** The mark stands first behind the text in front of it. */
  lemma ParameterIs(front: seq<Byte>, mark: seq<Byte>, value: seq<Byte>, back: seq<Byte>)
    requires mark != [] && QUOTE !in value
    requires forall i :: 0 <= i < |front| ==> !At(front + mark + value + [QUOTE] + back, mark, i)
    ensures Parameter(front + mark + value + [QUOTE] + back, mark) == Some(value)
  {
    var line := front + mark + value + [QUOTE] + back;
    assert line[|front|..|front| + |mark|] == mark;
    FirstIs(line, mark, 0, |front|);
    var rest := line[|front| + |mark|..];
    assert rest == value + [QUOTE] + back;
    assert rest[|value|..|value| + 1] == [QUOTE];
    forall i | 0 <= i < |value|
      ensures !At(rest, [QUOTE], i)
    {
      assert rest[i] == value[i] && value[i] in value;
      assert rest[i..i + 1] == [value[i]];
    }
    FirstIs(rest, [QUOTE], 0, |value|);
    assert rest[..|value|] == value;
  }

  // ----- The name is read from either line, the file name from one -----

  lemma MarksDiffer(front: seq<Byte>, line: seq<Byte>, i: nat)
    requires |front| == 30 && (forall k :: 0 <= k < 30 ==> front[k] != ';' as int) && front <= line && i < 30
    ensures !At(line, NAME, i) && !At(line, FILENAME, i)
  {
    assert line[i] == front[i];
    if i + 8 <= |line| {
      assert line[i..i + 8][0] == line[i];
    }
    if i + 12 <= |line| {
      assert line[i..i + 12][0] == line[i];
    }
  }

  lemma MetaName()
    ensures Parameter(MetaLine(), NAME) == Some(META)
    ensures DISPOSITION <= MetaLine()
  {
    Disposition();
    AsciiConstants();
    var front, mark := DISPOSITION, NAME;
    var line := front + mark + META + [QUOTE] + [];
    assert MetaLine() == line by {
      assert Ascii(META_NAME) == mark + META + [QUOTE] + [];
    }
    forall i | 0 <= i < |front|
      ensures !At(line, mark, i)
    {
      MarksDiffer(front, line, i);
    }
    ParameterIs(front, mark, META, []);
  }

  /** Behind the disposition only one semicolon stands in the line of the metadata, and a name follows it. */
  lemma MetaHasNoFilename()
    ensures Parameter(MetaLine(), FILENAME) == None
  {
    Disposition();
    AsciiConstants();
    var front, tail, mark := DISPOSITION, Octets("; name=\"meta\""), FILENAME;
    var line := MetaLine();
    assert line == front + tail;
    forall i | 0 <= i
      ensures !At(line, mark, i)
    {
      if i < 30 {
        MarksDiffer(front, line, i);
      } else {
        NotInTail(front, tail, i);
      }
    }
    NotFound(line, mark);
  }

  lemma NotInTail(front: seq<Byte>, tail: seq<Byte>, i: nat)
    requires |front| == 30 && i >= 30 && tail == Octets("; name=\"meta\"")
    ensures !At(front + tail, FILENAME, i)
  {
    var line, mark := front + tail, FILENAME;
    if i + 12 <= |line| {
      assert line[i] == tail[i - 30] && line[i + 2] == tail[i - 28];
      assert line[i..i + 12][0] == line[i] && line[i..i + 12][2] == line[i + 2];
      assert |tail| == 13 && i <= 31;
      assert mark[0] == ';' as int && mark[2] == 'f' as int;
    }
  }

  lemma NotFound(s: seq<Byte>, pat: seq<Byte>)
    requires forall i :: 0 <= i ==> !At(s, pat, i)
    ensures Find(s, pat, 0) == None
  {}

  lemma ArtifactTexts(filename: string)
    requires IsAscii(filename)
    ensures ArtifactLine(filename) ==
            DISPOSITION + NAME + ARTIFACT + [QUOTE] + (FILENAME + Ascii(filename) + [QUOTE])
  {
    Disposition();
    NamePieces();
    OneQuote();
    hide Octets, Ascii, DISPOSITION, NAME, FILENAME, ARTIFACT;
  }

  lemma FilenameText(filename: string)
    requires IsAscii(filename)
    ensures ArtifactLine(filename) ==
            DISPOSITION + Octets("; name=\"artifact\"") + FILENAME + Ascii(filename) + [QUOTE] + []
  {
    Disposition();
    NamePieces();
    OneQuote();
    hide Octets, Ascii, DISPOSITION, FILENAME;
  }

  lemma OneQuote()
    ensures IsAscii("\"") && Ascii("\"") == [QUOTE]
  {}

  lemma NamePieces()
    ensures IsAscii(ARTIFACT_NAME)
    ensures Ascii(ARTIFACT_NAME) == NAME + ARTIFACT + [QUOTE] + FILENAME
    ensures Ascii(ARTIFACT_NAME) == Octets("; name=\"artifact\"") + FILENAME
  {}

  lemma ArtifactName(filename: string)
    requires IsAscii(filename)
    ensures Parameter(ArtifactLine(filename), NAME) == Some(ARTIFACT)
    ensures DISPOSITION <= ArtifactLine(filename)
  {
    Disposition();
    ArtifactTexts(filename);
    var front, mark := DISPOSITION, NAME;
    var back := FILENAME + Ascii(filename) + [QUOTE];
    var line := front + mark + ARTIFACT + [QUOTE] + back;
    forall i | 0 <= i < |front|
      ensures !At(line, mark, i)
    {
      MarksDiffer(front, line, i);
    }
    ParameterIs(front, mark, ARTIFACT, back);
  }

  lemma ArtifactFilename(filename: string)
    requires IsAscii(filename) && '"' !in filename
    ensures Parameter(ArtifactLine(filename), FILENAME) == Some(Ascii(filename))
  {
    Disposition();
    FilenameText(filename);
    var front, tail := DISPOSITION, Octets("; name=\"artifact\"");
    var mark := FILENAME;
    var line := front + tail + mark + Ascii(filename) + [QUOTE] + [];
    forall i | 0 <= i < |front + tail|
      ensures !At(line, mark, i)
    {
      if i < 30 {
        MarksDiffer(front, line, i);
      } else {
        BeforeFilename(front, tail, line, i);
      }
    }
    NoQuote(filename);
    ParameterIs(front + tail, mark, Ascii(filename), []);
  }

  lemma BeforeFilename(front: seq<Byte>, tail: seq<Byte>, line: seq<Byte>, i: nat)
    requires |front| == 30 && tail == Octets("; name=\"artifact\"") && front + tail <= line && 30 <= i < 47
    ensures !At(line, FILENAME, i)
  {
    var mark := FILENAME;
    if i + 12 <= |line| {
      assert line[i] == (front + tail)[i] == tail[i - 30];
      assert i == 30 ==> line[32] == (front + tail)[32] == tail[2];
      assert line[i..i + 12][0] == line[i] && line[i..i + 12][2] == line[i + 2];
      assert mark[0] == ';' as int && mark[2] == 'f' as int;
    }
  }

  lemma NoQuote(filename: string)
    requires IsAscii(filename) && '"' !in filename
    ensures QUOTE !in Ascii(filename)
  {
    forall i | 0 <= i < |filename|
      ensures Ascii(filename)[i] != QUOTE
    {
      assert filename[i] in filename;
    }
  }

  // ----- The form -----

  lemma HeaderCut(first: seq<Byte>, second: seq<Byte>)
    requires Plain(first)
    ensures Find(Headers(first, second), CRLF, 0) == Some(|first|)
    ensures Headers(first, second)[..|first|] == first && Headers(first, second)[|first| + 2..] == second
  {
    var h := Headers(first, second);
    assert h[|first|..|first| + 2] == CRLF;
    forall i | 0 <= i < |first|
      ensures !At(h, CRLF, i)
    {
      assert h[i] == first[i] && h[i..i + 2][0] == h[i];
    }
    FirstIs(h, CRLF, 0, |first|);
  }

  lemma MetaType()
    ensures IsAscii(META_TYPE) && |TYPE| == 14
    ensures Ascii(META_TYPE) == TYPE + JSON
  {}

  lemma ArtifactType()
    ensures IsAscii(ARTIFACT_TYPE) && |TYPE| == 14
    ensures Ascii(ARTIFACT_TYPE) == TYPE + STREAM
  {}

  lemma MetaField(meta: seq<Byte>)
    ensures ReadField(Part(MetaHeaders(), meta))
            == Some(Field(META, None, JSON, meta))
  {
    MetaType();
    MetaName();
    MetaHasNoFilename();
    HeaderCut(MetaLine(), Ascii(META_TYPE));
    assert MetaHeaders() == Headers(MetaLine(), Ascii(META_TYPE));
    hide Octets, Ascii, Parameter, MetaLine, Find, Headers, DISPOSITION, NAME, FILENAME, TYPE, META, ARTIFACT,
      JSON, STREAM;
    assert Ascii(META_TYPE)[14..] == JSON;
  }

  lemma ArtifactField(artifact: seq<Byte>, filename: string)
    requires IsAscii(filename) && '"' !in filename
    ensures ReadField(Part(ArtifactHeaders(filename), artifact))
            == Some(Field(ARTIFACT, Some(Ascii(filename)), STREAM, artifact))
  {
    ArtifactType();
    ArtifactName(filename);
    ArtifactFilename(filename);
    HeaderCut(ArtifactLine(filename), Ascii(ARTIFACT_TYPE));
    assert ArtifactHeaders(filename) == Headers(ArtifactLine(filename), Ascii(ARTIFACT_TYPE));
    hide Octets, Ascii, Parameter, ArtifactLine, Find, Headers, DISPOSITION, NAME, FILENAME, TYPE, META, ARTIFACT,
      JSON, STREAM;
    assert Ascii(ARTIFACT_TYPE)[14..] == STREAM;
  }

  /**
   The server finds two fields: `meta` as JSON, and `artifact` as octets under the cleaned file name, with the
   payloads as they were. It does so for every pair of payloads in which no line begins with the delimiter.
   */
  lemma FormRoundTrip(boundary: seq<Byte>, meta: seq<Byte>, artifact: seq<Byte>, characters: seq<string>)
    requires Plain(boundary) && Clean(boundary, meta) && Clean(boundary, artifact)
    ensures var filename := SafeFilename(characters);
            var parts := Read(Frame(boundary, meta, artifact, filename), boundary);
            && parts.Some? && |parts.value| == 2
            && ReadField(parts.value[0]) == Some(Field(META, None, JSON, meta))
            && ReadField(parts.value[1])
               == Some(Field(ARTIFACT, Some(Ascii(filename)), STREAM, artifact))
  {
    var filename := SafeFilename(characters);
    SafeHasNoQuote(characters);
    FrameRoundTrip(boundary, meta, artifact, filename);
    hide SafeFilename, IsAscii, Octets, Ascii, Read, Frame, ReadField, MetaHeaders, ArtifactHeaders, Dirty, Plain,
      META, ARTIFACT, JSON, STREAM;
    MetaField(meta);
    ArtifactField(artifact, filename);
  }

  lemma SafeHasNoQuote(characters: seq<string>)
    ensures '"' !in SafeFilename(characters)
  {
    assert forall i :: 0 <= i < |SafeFilename(characters)| ==> SafeCharacter(SafeFilename(characters)[i]);
  }
}
