/**
 JSON strings as section 7 of RFC 8259 defines them. A writer may spell most characters in more than
 one way; whatever it chooses, the reader gives the same string back. The Kotlin client's writer is one
 such choice. Text is a sequence of codes: UTF-16 units where the client works on those.
 */
module JsonText {
  import opened Bytes

  type Code = x: int | 0 <= x < 0x110000
  type Text = seq<Code>

  const QUOTE: Code := 34
  const BACKSLASH: Code := 92

  /** How one character is spelled: itself, a two-character escape, or `\u` and four hexadecimal digits. */
  datatype Spelling = Raw | Short | Hex(upper: bool)

  /** The letter of the two-character escape of a character, if it has one. */
  function ShortLetter(c: Code): Option<Code> {
    if c == 34 || c == 92 || c == 47 then Some(c)
    else if c == 8 then Some(98)
    else if c == 12 then Some(102)
    else if c == 10 then Some(110)
    else if c == 13 then Some(114)
    else if c == 9 then Some(116)
    else None
  }

  /** The character a two-character escape stands for. */
  function LetterMeaning(l: Code): Option<Code> {
    if l == 34 || l == 92 || l == 47 then Some(l)
    else if l == 98 then Some(8)
    else if l == 102 then Some(12)
    else if l == 110 then Some(10)
    else if l == 114 then Some(13)
    else if l == 116 then Some(9)
    else None
  }

  predicate Allowed(c: Code, how: Spelling) {
    match how
    case Raw => c >= 0x20 && c != QUOTE && c != BACKSLASH
    case Short => ShortLetter(c).Some?
    case Hex(_) => c < 0x10000
  }

  function Spell(c: Code, how: Spelling): (r: Text)
    requires Allowed(c, how)
    ensures r != []
  {
    match how
    case Raw => [c]
    case Short => [BACKSLASH, ShortLetter(c).value]
    case Hex(upper) => [BACKSLASH, 117, HexDigit(c / 4096, upper), HexDigit(c / 256 % 16, upper),
                        HexDigit(c / 16 % 16, upper), HexDigit(c % 16, upper)]
  }

  ghost predicate AllAllowed(s: Text, hows: seq<Spelling>) {
    |hows| == |s| && forall i :: 0 <= i < |s| ==> Allowed(s[i], hows[i])
  }

  /** The characters and the closing quote. */
  function Body(s: Text, hows: seq<Spelling>): Text
    requires AllAllowed(s, hows)
  {
    if s == [] then [QUOTE] else Spell(s[0], hows[0]) + Body(s[1..], hows[1..])
  }

  function Quoted(s: Text, hows: seq<Spelling>): Text
    requires AllAllowed(s, hows)
  {
    [QUOTE] + Body(s, hows)
  }

  // ----- The reader -----

  /** Four hexadecimal digits at the start of `t`. */
  function ReadHex(t: Text): Option<Code> {
    if |t| < 4 then None
    else
      var a, b, c, d := HexValue(t[0]), HexValue(t[1]), HexValue(t[2]), HexValue(t[3]);
      if a.None? || b.None? || c.None? || d.None? then None
      else Some(HexNumber(a.value, b.value, c.value, d.value))
  }

  function HexNumber(a: int, b: int, c: int, d: int): (r: Code)
    requires 0 <= a < 16 && 0 <= b < 16 && 0 <= c < 16 && 0 <= d < 16
  {
    4096 * a + 256 * b + 16 * c + d
  }

  datatype ReadResult = Malformed | Done(value: Text, rest: Text)

  /** From after the opening quote to the first quote that no escape takes: the string, and what follows it. */
  function ReadBody(t: Text): (r: ReadResult)
    ensures r.Done? ==> |r.rest| < |t|
  {
    if t == [] then Malformed
    else if t[0] == QUOTE then Done([], t[1..])
    else if t[0] == BACKSLASH then
      if |t| < 2 then Malformed
      else if t[1] == 117 then
        match ReadHex(t[2..])
        case None => Malformed
        case Some(c) => Prepend(c, ReadBody(t[6..]))
      else match LetterMeaning(t[1])
        case None => Malformed
        case Some(c) => Prepend(c, ReadBody(t[2..]))
    else if t[0] < 0x20 then Malformed
    else Prepend(t[0], ReadBody(t[1..]))
  }

  function Prepend(c: Code, r: ReadResult): ReadResult {
    match r
    case Malformed => Malformed
    case Done(value, rest) => Done([c] + value, rest)
  }

  function ReadString(t: Text): ReadResult {
    if t == [] || t[0] != QUOTE then Malformed else ReadBody(t[1..])
  }

  // ----- Reading undoes every spelling -----

  lemma HexRoundTrip(c: Code, upper: bool, rest: Text)
    requires c < 0x10000
    ensures ReadHex(Spell(c, Hex(upper))[2..] + rest) == Some(c)
  {
    var t := Spell(c, Hex(upper))[2..] + rest;
    assert t[0] == HexDigit(c / 4096, upper) && t[1] == HexDigit(c / 256 % 16, upper);
    assert t[2] == HexDigit(c / 16 % 16, upper) && t[3] == HexDigit(c % 16, upper);
    Digits(c);
  }

  lemma Digits(c: int)
    requires 0 <= c < 0x10000
    ensures 0 <= c / 4096 < 16
    ensures c == 4096 * (c / 4096) + 256 * (c / 256 % 16) + 16 * (c / 16 % 16) + c % 16
  {
    var q1 := c / 16;
    var q2 := q1 / 16;
    var q3 := q2 / 16;
    assert c / 256 == q2 && c / 4096 == q3;
  }

  lemma ReadOne(c: Code, how: Spelling, t: Text)
    requires Allowed(c, how)
    ensures ReadBody(Spell(c, how) + t) == Prepend(c, ReadBody(t))
  {
    var s := Spell(c, how) + t;
    match how {
      case Raw =>
        assert s[1..] == t;
      case Short =>
        assert s[2..] == t;
      case Hex(upper) =>
        HexRoundTrip(c, upper, t);
        assert s[2..] == Spell(c, how)[2..] + t;
        assert s[6..] == t;
    }
  }

  /** A raw control character is no part of a string, and neither is an unknown escape. */
  lemma Refused(c: Code, rest: Text)
    ensures c < 0x20 ==> ReadBody([c] + rest) == Malformed
    ensures c !in {34, 92, 47, 98, 102, 110, 114, 116, 117} ==> ReadBody([92, c] + rest) == Malformed
    ensures c != 34 ==> ReadString([c] + rest) == Malformed
  {
    var s := [92, c] + rest;
    assert s[0] == 92 && s[1] == c;
  }

  lemma ReadEnd(rest: Text)
    ensures ReadBody([QUOTE] + rest) == Done([], rest)
  {
    assert ([QUOTE] + rest)[1..] == rest;
  }

  lemma {:induction false} BodyRoundTrip(s: Text, hows: seq<Spelling>, rest: Text)
    requires AllAllowed(s, hows)
    ensures ReadBody(Body(s, hows) + rest) == Done(s, rest)
  {
    hide ReadBody, Spell, Allowed;
    if s == [] {
      ReadEnd(rest);
    } else {
      BodyRoundTrip(s[1..], hows[1..], rest);
      ReadOne(s[0], hows[0], Body(s[1..], hows[1..]) + rest);
      assert Body(s, hows) + rest == Spell(s[0], hows[0]) + (Body(s[1..], hows[1..]) + rest);
      assert s == [s[0]] + s[1..];
    }
  }

  /** However its characters are spelled, a quoted string reads back as itself and ends where it was ended. */
  lemma QuotedRoundTrip(s: Text, hows: seq<Spelling>, rest: Text)
    requires AllAllowed(s, hows)
    ensures ReadString(Quoted(s, hows) + rest) == Done(s, rest)
  {
    hide ReadBody, Body;
    BodyRoundTrip(s, hows, rest);
    assert (Quoted(s, hows) + rest)[1..] == Body(s, hows) + rest;
  }

  /** Two quoted strings with something after each are told apart, and so are what follows them. */
  lemma QuotedInjective(s: Text, hows: seq<Spelling>, x: Text, t: Text, hows': seq<Spelling>, y: Text)
    requires AllAllowed(s, hows) && AllAllowed(t, hows')
    requires Quoted(s, hows) + x == Quoted(t, hows') + y
    ensures s == t && x == y
  {
    QuotedRoundTrip(s, hows, x);
    QuotedRoundTrip(t, hows', y);
  }

  /** No quoted string holds a raw control character. */
  lemma {:induction false} NoRawControl(s: Text, hows: seq<Spelling>)
    requires AllAllowed(s, hows)
    ensures forall i :: 0 <= i < |Body(s, hows)| ==> Body(s, hows)[i] >= 0x20
  {
    if s != [] {
      NoRawControl(s[1..], hows[1..]);
      SpellPrintable(s[0], hows[0]);
    }
  }

  lemma SpellPrintable(c: Code, how: Spelling)
    requires Allowed(c, how)
    ensures forall i :: 0 <= i < |Spell(c, how)| ==> Spell(c, how)[i] >= 0x20
  {}

  // ----- The Kotlin writer -----

  type Unit = x: int | 0 <= x < 0x10000

  function Codes(s: seq<Unit>): (r: Text)
    ensures |r| == |s| && forall i :: 0 <= i < |s| ==> r[i] == s[i]
  {
    if s == [] then [] else [s[0]] + Codes(s[1..])
  }

  function KotlinSpelling(c: Code): Spelling {
    if c == 47 then Raw
    else if ShortLetter(c).Some? then Short
    else if c < 0x20 then Hex(false)
    else Raw
  }

  function KotlinSpellings(s: Text): (r: seq<Spelling>)
    ensures AllAllowed(s, r)
  {
    if s == [] then [] else [KotlinSpelling(s[0])] + KotlinSpellings(s[1..])
  }

  /** The characters of `s` as the Kotlin writer spells them. */
  ghost function KotlinText(s: Text): Text {
    if s == [] then [] else Spell(s[0], KotlinSpelling(s[0])) + KotlinText(s[1..])
  }

  lemma {:induction false} KotlinTextSnoc(s: Text, c: Code)
    ensures KotlinText(s + [c]) == KotlinText(s) + Spell(c, KotlinSpelling(c))
  {
    if s == [] {
      assert [c][1..] == [] && [] + [c] == [c];
    } else {
      assert (s + [c])[1..] == s[1..] + [c];
      KotlinTextSnoc(s[1..], c);
    }
  }

  lemma {:induction false} KotlinBody(s: Text)
    ensures Body(s, KotlinSpellings(s)) == KotlinText(s) + [QUOTE]
  {
    if s != [] {
      KotlinBody(s[1..]);
      assert KotlinSpellings(s)[1..] == KotlinSpellings(s[1..]);
    }
  }

  /** One unit appended; four hexadecimal digits are lower case and zero padded. */
  method AppendUnit(before: Text, c: Unit) returns (out: Text)
    ensures out == before + Spell(c, KotlinSpelling(c))
  {
    out := before;
    if c == 34 {
      out := out + [BACKSLASH, 34];
    } else if c == 92 {
      out := out + [BACKSLASH, 92];
    } else if c == 8 {
      out := out + [BACKSLASH, 98];
    } else if c == 12 {
      out := out + [BACKSLASH, 102];
    } else if c == 10 {
      out := out + [BACKSLASH, 110];
    } else if c == 13 {
      out := out + [BACKSLASH, 114];
    } else if c == 9 {
      out := out + [BACKSLASH, 116];
    } else if c < 0x20 {
      out := out + [BACKSLASH, 117, 48, 48, HexDigit(c / 16, false), HexDigit(c % 16, false)];
    } else {
      out := out + [c];
    }
  }

  /** The quoted string: what a reader gives back from it is the value, and no control character is left raw. */
  method JsonString(value: seq<Unit>) returns (out: Text)
    ensures out == Quoted(Codes(value), KotlinSpellings(Codes(value)))
    ensures ReadString(out) == Done(Codes(value), [])
    ensures forall i :: 0 <= i < |out| ==> out[i] >= 0x20
  {
    hide Spell, KotlinSpelling, ReadBody, Allowed;
    ghost var s := Codes(value);
    out := [QUOTE];
    for i := 0 to |value|
      invariant out == [QUOTE] + KotlinText(s[..i])
    {
      KotlinTextSnoc(s[..i], s[i]);
      assert s[..i + 1] == s[..i] + [s[i]];
      out := AppendUnit(out, value[i]);
    }
    out := out + [QUOTE];
    assert s[..|value|] == s;
    KotlinBody(s);
    QuotedRoundTrip(s, KotlinSpellings(s), []);
    assert out + [] == out;
    NoRawControl(s, KotlinSpellings(s));
  }
}
