/**
 JSON values as JavaScript prints and canonicalises them. The canonical text of two values is the same
 exactly when the values are the same up to the order of object keys.
 */
module JsonValue {
  import opened JsonText

  /** An object is its members in enumeration order; a number is the text JavaScript prints for it. */
  datatype Json =
    | Null
    | Bool(truth: bool)
    | Num(token: Text)
    | Str(text: Text)
    | Arr(items: seq<Json>)
    | Obj(members: seq<Member>)

  datatype Member = Member(key: Text, value: Json)

  /** The token of a natural number. */
  function DecimalText(n: nat): Text {
    if n < 10 then [48 + n] else DecimalText(n / 10) + [48 + n % 10]
  }

  /** What a token of digits stands for. */
  function DecimalValue(t: Text): int {
    if t == [] then 0 else 10 * DecimalValue(t[..|t| - 1]) + (t[|t| - 1] as int - 48)
  }

  lemma {:induction false} DecimalBack(n: nat)
    ensures DecimalValue(DecimalText(n)) == n && DecimalText(n) != []
    ensures forall i :: 0 <= i < |DecimalText(n)| ==> 48 <= DecimalText(n)[i] <= 57
    ensures DecimalText(n)[0] == 48 ==> n == 0
  {
    if n >= 10 {
      DecimalBack(n / 10);
      assert DecimalText(n)[..|DecimalText(n)| - 1] == DecimalText(n / 10);
    } else {
      assert DecimalText(n)[..0] == [];
    }
  }

  /** Digits without a leading zero are the token of what they stand for. */
  lemma {:induction false} TokenBack(t: Text)
    requires t != [] && (forall i :: 0 <= i < |t| ==> 48 <= t[i] <= 57) && (t[0] == 48 ==> |t| == 1)
    ensures DecimalValue(t) >= 0 && DecimalText(DecimalValue(t)) == t && (t[0] != 48 ==> DecimalValue(t) > 0)
  {
    var front := t[..|t| - 1];
    assert t == front + [t[|t| - 1]];
    if front != [] {
      TokenBack(front);
    }
  }

  predicate NumberCode(c: Code) {
    48 <= c <= 57 || c == 43 || c == 45 || c == 46 || c == 69 || c == 101
  }

  /** How many digits the text begins with. */
  function DigitRun(t: Text): (n: nat)
    ensures n <= |t| && forall i :: 0 <= i < n ==> 48 <= t[i] <= 57
    ensures n < |t| ==> !(48 <= t[n] <= 57)
  {
    if t != [] && 48 <= t[0] <= 57 then 1 + DigitRun(t[1..]) else 0
  }

  /** A number as section 6 of RFC 8259 spells it: a minus sign or none, then the rest. */
  predicate NumberToken(t: Text) {
    if t != [] && t[0] == 45 then Magnitude(t[1..]) else Magnitude(t)
  }

  /** Digits without a leading zero, then a fraction and an exponent or neither. */
  predicate Magnitude(t: Text) {
    var n := DigitRun(t);
    n > 0 && (t[0] == 48 ==> n == 1)
    && if n < |t| && t[n] == 46 then
         DigitRun(t[n + 1..]) > 0 && Exponent(t[n + 1..][DigitRun(t[n + 1..])..])
       else Exponent(t[n..])
  }

  predicate Exponent(t: Text) {
    t == []
    || ((t[0] == 69 || t[0] == 101)
        && var u := if |t| > 1 && (t[1] == 43 || t[1] == 45) then t[2..] else t[1..]; u != [] && DigitRun(u) == |u|)
  }

  /** An exponent has a mark of either case, a sign or none, and digits. */
  lemma ExponentForms(digits: Text)
    requires digits != [] && DigitRun(digits) == |digits|
    ensures Exponent([101] + digits) && Exponent([69] + digits)
    ensures Exponent([101, 43] + digits) && Exponent([101, 45] + digits)
  {
    hide DigitRun;
    assert ([101] + digits)[1..] == digits && ([69] + digits)[1..] == digits;
    assert ([101, 43] + digits)[2..] == digits && ([101, 45] + digits)[2..] == digits;
  }

  lemma ExponentCodes(t: Text)
    requires Exponent(t)
    ensures forall i :: 0 <= i < |t| ==> NumberCode(t[i])
  {
    if t != [] {
      var signed := |t| > 1 && (t[1] == 43 || t[1] == 45);
      var u := if signed then t[2..] else t[1..];
      forall i | 0 <= i < |t|
        ensures NumberCode(t[i])
      {
        if i >= |t| - |u| {
          assert t[i] == u[i - (|t| - |u|)];
        }
      }
    }
  }

  lemma MagnitudeCodes(t: Text)
    requires Magnitude(t)
    ensures t != [] && 48 <= t[0] <= 57
    ensures forall i :: 0 <= i < |t| ==> NumberCode(t[i])
  {
    var n := DigitRun(t);
    if n < |t| && t[n] == 46 {
      var u := t[n + 1..];
      var k := DigitRun(u);
      ExponentCodes(u[k..]);
      CodesBehind(u, k);
      assert t[n..] == [t[n]] + u;
    } else {
      ExponentCodes(t[n..]);
    }
    hide DigitRun;
    CodesBehind(t, n);
  }

  /** Digits in front of number characters. */
  lemma CodesBehind(t: Text, n: nat)
    requires n <= |t| && (forall i :: 0 <= i < n ==> 48 <= t[i] <= 57)
    requires forall i :: 0 <= i < |t[n..]| ==> NumberCode(t[n..][i])
    ensures forall i :: 0 <= i < |t| ==> NumberCode(t[i])
  {
    assert forall i :: n <= i < |t| ==> t[i] == t[n..][i - n];
  }

  /** Every character of a number is a digit, a sign, a point or an exponent mark, the first a digit or a minus sign. */
  lemma TokenCodes(t: Text)
    requires NumberToken(t)
    ensures t != [] && (t[0] == 45 || 48 <= t[0] <= 57)
    ensures forall i :: 0 <= i < |t| ==> NumberCode(t[i])
  {
    if t != [] && t[0] == 45 {
      MagnitudeCodes(t[1..]);
      assert forall i :: 0 < i < |t| ==> t[i] == t[1..][i - 1];
    } else {
      MagnitudeCodes(t);
    }
  }

  lemma {:induction false} AllDigits(t: Text)
    requires forall i :: 0 <= i < |t| ==> 48 <= t[i] <= 57
    ensures DigitRun(t) == |t|
  {
    if t != [] {
      AllDigits(t[1..]);
    }
  }

  /** A natural number in decimal is a number. */
  lemma DecimalToken(n: nat)
    ensures NumberToken(DecimalText(n)) && DecimalText(n)[0] >= 48
  {
    var t := DecimalText(n);
    DecimalBack(n);
    AllDigits(t);
    if n == 0 {
      assert t == [48];
    }
    assert t[|t|..] == [];
  }

  predicate DistinctMembers(ms: seq<Member>) {
    forall i, j :: 0 <= i < j < |ms| ==> ms[i].key != ms[j].key
  }

  /** Numbers are number tokens, and no object holds a key twice. */
  predicate WellFormed(v: Json)
    decreases v, 0
  {
    match v
    case Num(token) => NumberToken(token)
    case Arr(items) => forall i :: 0 <= i < |items| ==> WellFormed(items[i])
    case Obj(members) => DistinctMembers(members) && forall i :: 0 <= i < |members| ==> WellFormed(members[i].value)
    case _ => true
  }

  // ----- Printing, as JSON.stringify does it -----

  predicate HighSurrogate(c: Code) { 0xD800 <= c < 0xDC00 }
  predicate LowSurrogate(c: Code) { 0xDC00 <= c < 0xE000 }

  /** A surrogate without its partner. */
  predicate Lone(s: Text, i: nat)
    requires i < |s|
  {
    (HighSurrogate(s[i]) && !(i + 1 < |s| && LowSurrogate(s[i + 1])))
    || (LowSurrogate(s[i]) && !(i > 0 && HighSurrogate(s[i - 1])))
  }

  function JsSpelling(s: Text, i: nat): Spelling
    requires i < |s|
  {
    if s[i] == 47 then Raw
    else if ShortLetter(s[i]).Some? then Short
    else if s[i] < 0x20 || Lone(s, i) then Hex(false)
    else Raw
  }

  function JsSpellings(s: Text): (r: seq<Spelling>)
    ensures AllAllowed(s, r)
  {
    seq(|s|, i requires 0 <= i < |s| => JsSpelling(s, i))
  }

  function PrintString(s: Text): Text {
    Quoted(s, JsSpellings(s))
  }

  // ----- Which characters are escaped -----

  /** A surrogate in front of its partner or behind it, and nowhere else; the first may be behind one, if `open`. */
  predicate Paired(t: Text, open: bool) {
    forall i {:trigger t[i]} :: 0 <= i < |t| ==>
      && (0xD800 <= t[i] <= 0xDBFF ==> i + 1 < |t| && 0xDC00 <= t[i + 1] <= 0xDFFF)
      && (0xDC00 <= t[i] <= 0xDFFF ==> if i > 0 then 0xD800 <= t[i - 1] <= 0xDBFF else open)
  }

  /** The unit at `i` stands behind a high surrogate and is a low one. */
  predicate Second(s: Text, i: nat) {
    0 < i < |s| && 0xD800 <= s[i - 1] <= 0xDBFF && 0xDC00 <= s[i] <= 0xDFFF
  }

  lemma SpellingPaired(s: Text, i: nat)
    requires i < |s|
    ensures var t := Spell(s[i], JsSpelling(s, i));
            && t != [] && (t != [s[i]] ==> forall j :: 0 <= j < |t| ==> t[j] < 0xD800)
            && (t == [s[i]] && 0xD800 <= s[i] <= 0xDBFF ==> Second(s, i + 1))
            && (t == [s[i]] && 0xDC00 <= s[i] <= 0xDFFF ==> Second(s, i))
            && (Second(s, i) || Second(s, i + 1) ==> t == [s[i]])
  {}

  /** An escape in front. */
  lemma EscapeCons(c: Text, t: Text, open: bool)
    requires Paired(t, false) && forall j :: 0 <= j < |c| ==> c[j] < 0xD800
    ensures Paired(c + t, open)
  {
    var u := c + t;
    forall i | |c| <= i < |u|
      ensures 0xD800 <= u[i] <= 0xDBFF ==> i + 1 < |u| && 0xDC00 <= u[i + 1] <= 0xDFFF
      ensures 0xDC00 <= u[i] <= 0xDFFF ==> i > 0 && 0xD800 <= u[i - 1] <= 0xDBFF
    {
      var j := i - |c|;
      assert u[i] == t[j];
      assert j + 1 < |t| ==> u[i + 1] == t[j + 1];
      assert j > 0 ==> u[i - 1] == t[j - 1];
    }
  }

  /** A character as it is in front. */
  lemma RawCons(c: Code, t: Text, open: bool, next: bool)
    requires Paired(t, next) && (next ==> 0xD800 <= c <= 0xDBFF)
    requires 0xD800 <= c <= 0xDBFF ==> t != [] && 0xDC00 <= t[0] <= 0xDFFF
    requires 0xDC00 <= c <= 0xDFFF ==> open
    ensures Paired([c] + t, open)
  {
    var u := [c] + t;
    assert u[0] == c && (t != [] ==> u[1] == t[0]);
    assert t != [] && 0xDC00 <= t[0] <= 0xDFFF ==> next;
    forall i | 0 < i < |u|
      ensures 0xD800 <= u[i] <= 0xDBFF ==> i + 1 < |u| && 0xDC00 <= u[i + 1] <= 0xDFFF
      ensures 0xDC00 <= u[i] <= 0xDFFF ==> 0xD800 <= u[i - 1] <= 0xDBFF
    {
      assert u[i] == t[i - 1];
      assert i < |t| ==> u[i + 1] == t[i];
      assert i > 1 ==> u[i - 1] == t[i - 2];
    }
  }

  lemma {:induction false} BodyPaired(s: Text, k: nat)
    requires k <= |s|
    ensures var t := Body(s[k..], JsSpellings(s)[k..]);
            Paired(t, Second(s, k)) && t != [] && (Second(s, k) ==> t[0] == s[k])
    decreases |s| - k
  {
    hide Spell, JsSpelling, Paired;
    if k < |s| {
      BodyPaired(s, k + 1);
      SpellingPaired(s, k);
      var c := Spell(s[k], JsSpelling(s, k));
      var t := Body(s[k + 1..], JsSpellings(s)[k + 1..]);
      assert s[k..][1..] == s[k + 1..] && JsSpellings(s)[k..][1..] == JsSpellings(s)[k + 1..];
      if c == [s[k]] {
        RawCons(s[k], t, Second(s, k), Second(s, k + 1));
      } else {
        EscapeCons(c, t, Second(s, k));
      }
    } else {
      LastQuote(s, k);
    }
  }

  lemma LastQuote(s: Text, k: nat)
    requires k == |s|
    ensures Body(s[k..], JsSpellings(s)[k..]) == [34] && Paired([34], false)
  {}

  /** A printed string never holds a surrogate without its partner, whatever the string holds. */
  lemma PrintedIsPaired(s: Text)
    ensures Paired(PrintString(s), false)
  {
    BodyPaired(s, 0);
    assert s[0..] == s && JsSpellings(s)[0..] == JsSpellings(s);
    RawCons(34, Body(s, JsSpellings(s)), false, false);
  }

  /** Only quotes, backslashes, controls and lone surrogates are escaped, the common controls by a letter. */
  lemma OnlyTheseEscaped(s: Text, i: nat)
    requires i < |s|
    ensures JsSpelling(s, i).Short? <==> s[i] in {8, 9, 10, 12, 13, 34, 92}
    ensures s[i] < 32 ==> !JsSpelling(s, i).Raw?
    ensures 32 <= s[i] < 0xD800 || s[i] > 0xDFFF ==> !JsSpelling(s, i).Hex?
    ensures Second(s, i) || Second(s, i + 1) ==> JsSpelling(s, i).Raw?
  {}

  const NULL: Text := [110, 117, 108, 108]
  const TRUE: Text := [116, 114, 117, 101]
  const FALSE: Text := [102, 97, 108, 115, 101]

  function Print(v: Json): Text
    decreases v, 0
  {
    match v
    case Null => NULL
    case Bool(b) => if b then TRUE else FALSE
    case Num(token) => token
    case Str(text) => PrintString(text)
    case Arr(items) => [91] + if items == [] then [93] else Print(items[0]) + PrintItems(items[1..])
    case Obj(members) => [123] + if members == [] then [125] else PrintMember(members[0]) + PrintMembers(members[1..])
  }

  /** The items after the first, with their commas and the closing bracket. */
  function PrintItems(items: seq<Json>): Text
    decreases items, 1
  {
    if items == [] then [93] else [44] + Print(items[0]) + PrintItems(items[1..])
  }

  function PrintMember(m: Member): Text
    decreases m, 1
  {
    PrintString(m.key) + [58] + Print(m.value)
  }

  function PrintMembers(ms: seq<Member>): Text
    decreases ms, 1
  {
    if ms == [] then [125] else [44] + PrintMember(ms[0]) + PrintMembers(ms[1..])
  }

  // ----- A reader after RFC 8259 -----

  datatype Parsed<T> = Bad | Parsed(value: T, rest: Text)

  /** Section 2: space, tab, line feed and carriage return may stand before every token. */
  function Skip(t: Text): (r: Text)
    ensures |r| <= |t|
  {
    if t != [] && t[0] in {32, 9, 10, 13} then Skip(t[1..]) else t
  }

  lemma SkipsSpace(t: Text)
    ensures Skip([32] + t) == Skip([9] + t) == Skip([10] + t) == Skip([13] + t) == Skip(t)
  {}

  /** The length of the longest number token at the start. */
  function NumberLength(t: Text): (n: nat)
    ensures n <= |t|
  {
    if t != [] && NumberCode(t[0]) then 1 + NumberLength(t[1..]) else 0
  }

  function ReadLiteral(t: Text): (r: Parsed<Json>)
    ensures r.Parsed? ==> |r.rest| < |t|
  {
    if [110, 117, 108, 108] <= t then Parsed(Null, t[4..])
    else if [116, 114, 117, 101] <= t then Parsed(Bool(true), t[4..])
    else if [102, 97, 108, 115, 101] <= t then Parsed(Bool(false), t[5..])
    else
      var n := NumberLength(t);
      if NumberToken(t[..n]) then Parsed(Num(t[..n]), t[n..]) else Bad
  }

  /** Section 3: the first character of a value says of which kind it is. */
  function ReadValue(t: Text): (r: Parsed<Json>)
    ensures r.Parsed? ==> |r.rest| < |t|
    decreases |t|, 1
  {
    var s := Skip(t);
    if s == [] then Bad
    else if s[0] == 34 then
      match ReadString(s)
      case Malformed => Bad
      case Done(text, rest) => Parsed(Str(text), rest)
    else if s[0] == 91 then
      match ReadItems(s[1..], true)
      case Bad => Bad
      case Parsed(items, rest) => Parsed(Arr(items), rest)
    else if s[0] == 123 then
      match ReadMembers(s[1..], true)
      case Bad => Bad
      case Parsed(members, rest) => Parsed(Obj(members), rest)
    else ReadLiteral(s)
  }

  /** Section 5: the items up to the closing bracket, with a comma before each but the first. */
  function ReadItems(t: Text, first: bool): (r: Parsed<seq<Json>>)
    ensures r.Parsed? ==> |r.rest| < |t|
    decreases |t|, 2
  {
    var s := Skip(t);
    if s == [] then Bad
    else if s[0] == 93 then Parsed([], s[1..])
    else if !first && s[0] != 44 then Bad
    else
      match ReadValue(if first then s else s[1..])
      case Bad => Bad
      case Parsed(v, rest) =>
        match ReadItems(rest, false)
        case Bad => Bad
        case Parsed(items, end) => Parsed([v] + items, end)
  }

  /** Section 4: the same for members, each a string, a colon and a value. */
  function ReadMembers(t: Text, first: bool): (r: Parsed<seq<Member>>)
    ensures r.Parsed? ==> |r.rest| < |t|
    decreases |t|, 2
  {
    var s := Skip(t);
    if s == [] then Bad
    else if s[0] == 125 then Parsed([], s[1..])
    else if !first && s[0] != 44 then Bad
    else
      match ReadMember(if first then s else s[1..])
      case Bad => Bad
      case Parsed(m, rest) =>
        match ReadMembers(rest, false)
        case Bad => Bad
        case Parsed(members, end) => Parsed([m] + members, end)
  }

  function ReadMember(t: Text): (r: Parsed<Member>)
    ensures r.Parsed? ==> |r.rest| < |t|
    decreases |t|, 1
  {
    match ReadString(Skip(t))
    case Malformed => Bad
    case Done(key, rest) =>
      var s := Skip(rest);
      if s == [] || s[0] != 58 || |s| >= |t| then Bad
      else
        match ReadValue(s[1..])
        case Bad => Bad
        case Parsed(v, end) => Parsed(Member(key, v), end)
  }

  /** Between items and between members a comma is demanded, and between a key and its value a colon. */
  lemma SeparatorsDemanded(t: Text)
    requires Skip(t) != []
    ensures Skip(t)[0] != 44 && Skip(t)[0] != 93 ==> ReadItems(t, false) == Bad
    ensures Skip(t)[0] != 44 && Skip(t)[0] != 125 ==> ReadMembers(t, false) == Bad
  {}

  // ----- It reads back what is printed, with anything that can follow a value -----

  /** What may follow a value: nothing, a comma, or a closing bracket. */
  predicate Stop(x: Text) {
    x == [] || x[0] == 44 || x[0] == 93 || x[0] == 125
  }

  lemma {:induction false} TokenLength(a: Text, x: Text)
    requires (forall i :: 0 <= i < |a| ==> NumberCode(a[i])) && Stop(x)
    ensures NumberLength(a + x) == |a|
  {
    if a == [] {
      assert a + x == x;
    } else {
      assert (a + x)[0] == a[0] && (a + x)[1..] == a[1..] + x;
      TokenLength(a[1..], x);
    }
  }

  lemma First(v: Json)
    requires WellFormed(v)
    ensures Print(v) != []
    ensures var c := Print(v)[0];
            && (v.Str? <==> c == 34) && (v.Arr? <==> c == 91) && (v.Obj? <==> c == 123)
            && c != 93 && c != 125 && c !in {32, 9, 10, 13} && (v.Num? ==> c == 45 || 48 <= c <= 57)
  {
    if v.Num? {
      TokenCodes(v.token);
    }
  }

  /** Before a printed token nothing is skipped. */
  lemma NothingToSkip(a: Text, x: Text)
    requires a != [] && a[0] !in {32, 9, 10, 13}
    ensures Skip(a + x) == a + x && (a + x)[0] == a[0] && a + x != []
  {}

  lemma LiteralReads(v: Json, x: Text)
    requires WellFormed(v) && Stop(x) && (v.Null? || v.Bool? || v.Num?)
    ensures ReadLiteral(Print(v) + x) == Parsed(v, x)
  {
    var t := Print(v) + x;
    assert t[0] == Print(v)[0];
    match v {
      case Null => assert t[..4] == NULL && t[4..] == x;
      case Bool(b) =>
        if b {
          assert t[..4] == TRUE && t[4..] == x;
        } else {
          assert t[..5] == FALSE && t[5..] == x;
        }
      case Num(token) =>
        TokenReads(token, x);
    }
  }

  lemma TokenReads(token: Text, x: Text)
    requires NumberToken(token) && Stop(x)
    ensures ReadLiteral(token + x) == Parsed(Num(token), x)
  {
    var t := token + x;
    TokenCodes(token);
    TokenLength(token, x);
    hide NumberLength, NumberToken;
    assert t[0] == token[0] && t[..|token|] == token && t[|token|..] == x;
  }

  lemma StringReads(s: Text, x: Text)
    ensures ReadString(PrintString(s) + x) == Done(s, x)
    ensures PrintString(s) != [] && PrintString(s)[0] == 34
  {
    QuotedRoundTrip(s, JsSpellings(s), x);
  }

  /** A printed value, with what may follow it, reads back as the value, and the reader stops where it ends. */
  lemma {:induction false} PrintRoundTrip(v: Json, x: Text)
    requires WellFormed(v) && Stop(x)
    ensures ReadValue(Print(v) + x) == Parsed(v, x)
    decreases v, 0
  {
    hide ReadItems, ReadMembers, ReadLiteral, ReadString, Skip, PrintString, PrintItems, PrintMembers, PrintMember;
    First(v);
    NothingToSkip(Print(v), x);
    match v {
      case Str(text) =>
        StringReads(text, x);
      case Arr(items) =>
        ItemsReadFirst(items, x);
        AfterOpening(91, ItemsText(items), x);
      case Obj(members) =>
        MembersReadFirst(members, x);
        AfterOpening(123, MembersText(members), x);
      case _ =>
        LiteralReads(v, x);
    }
  }

  lemma AfterOpening(c: Code, a: Text, x: Text)
    ensures ([c] + a + x)[1..] == a + x
  {}

  function ItemsText(items: seq<Json>): Text {
    if items == [] then [93] else Print(items[0]) + PrintItems(items[1..])
  }

  function MembersText(ms: seq<Member>): Text {
    if ms == [] then [125] else PrintMember(ms[0]) + PrintMembers(ms[1..])
  }

  lemma StopItems(items: seq<Json>, x: Text)
    ensures PrintItems(items) != [] && Stop(PrintItems(items) + x)
    ensures PrintItems(items)[0] == if items == [] then 93 else 44
  {}

  lemma StopMembers(ms: seq<Member>, x: Text)
    ensures PrintMembers(ms) != [] && Stop(PrintMembers(ms) + x)
    ensures PrintMembers(ms)[0] == if ms == [] then 125 else 44
  {}

  lemma {:induction false} ItemsReadFirst(items: seq<Json>, x: Text)
    requires forall i :: 0 <= i < |items| ==> WellFormed(items[i])
    ensures ReadItems(ItemsText(items) + x, true) == Parsed(items, x)
    decreases items, 2
  {
    hide Print, PrintItems, WellFormed;
    if items == [] {
      NothingToSkip([93], x);
      assert ([93] + x)[1..] == x;
    } else {
      var p, q := Print(items[0]), PrintItems(items[1..]);
      First(items[0]);
      StopItems(items[1..], x);
      assert p + q + x == p + (q + x);
      NothingToSkip(p, q + x);
      PrintRoundTrip(items[0], q + x);
      ItemsRead(items[1..], x);
      assert [items[0]] + items[1..] == items;
    }
  }

  lemma {:induction false} ItemsRead(items: seq<Json>, x: Text)
    requires forall i :: 0 <= i < |items| ==> WellFormed(items[i])
    ensures ReadItems(PrintItems(items) + x, false) == Parsed(items, x)
    decreases items, 1
  {
    hide Print, WellFormed;
    StopItems(items, x);
    NothingToSkip(PrintItems(items), x);
    if items == [] {
      assert ([93] + x)[1..] == x;
    } else {
      var p, q := Print(items[0]), PrintItems(items[1..]);
      StopItems(items[1..], x);
      assert (PrintItems(items) + x)[1..] == p + (q + x);
      PrintRoundTrip(items[0], q + x);
      ItemsRead(items[1..], x);
      assert [items[0]] + items[1..] == items;
    }
  }

  lemma {:induction false} MemberReads(m: Member, x: Text)
    requires WellFormed(m.value) && Stop(x)
    ensures ReadMember(PrintMember(m) + x) == Parsed(m, x)
    ensures PrintMember(m) != [] && PrintMember(m)[0] == 34
    decreases m, 1
  {
    hide PrintString, Print, WellFormed, ReadString;
    var v := Print(m.value) + x;
    assert PrintMember(m) + x == PrintString(m.key) + ([58] + v);
    StringReads(m.key, [58] + v);
    NothingToSkip(PrintString(m.key), [58] + v);
    NothingToSkip([58], v);
    assert ([58] + v)[1..] == v;
    PrintRoundTrip(m.value, x);
  }

  lemma {:induction false} MembersReadFirst(ms: seq<Member>, x: Text)
    requires forall i :: 0 <= i < |ms| ==> WellFormed(ms[i].value)
    ensures ReadMembers(MembersText(ms) + x, true) == Parsed(ms, x)
    decreases ms, 2
  {
    hide PrintMember, PrintMembers, WellFormed, ReadMember;
    if ms == [] {
      NothingToSkip([125], x);
      assert ([125] + x)[1..] == x;
    } else {
      var p, q := PrintMember(ms[0]), PrintMembers(ms[1..]);
      StopMembers(ms[1..], x);
      assert p + q + x == p + (q + x);
      MemberReads(ms[0], q + x);
      NothingToSkip(p, q + x);
      MembersRead(ms[1..], x);
      assert [ms[0]] + ms[1..] == ms;
    }
  }

  lemma {:induction false} MembersRead(ms: seq<Member>, x: Text)
    requires forall i :: 0 <= i < |ms| ==> WellFormed(ms[i].value)
    ensures ReadMembers(PrintMembers(ms) + x, false) == Parsed(ms, x)
    decreases ms, 1
  {
    hide PrintMember, WellFormed, ReadMember;
    StopMembers(ms, x);
    NothingToSkip(PrintMembers(ms), x);
    if ms == [] {
      assert ([125] + x)[1..] == x;
    } else {
      var p, q := PrintMember(ms[0]), PrintMembers(ms[1..]);
      StopMembers(ms[1..], x);
      assert (PrintMembers(ms) + x)[1..] == p + (q + x);
      MemberReads(ms[0], q + x);
      MembersRead(ms[1..], x);
      assert [ms[0]] + ms[1..] == ms;
    }
  }

  /** So equal texts, with anything that may follow, come from equal values. */
  lemma PrintInjective(v: Json, x: Text, w: Json, y: Text)
    requires WellFormed(v) && WellFormed(w) && Stop(x) && Stop(y)
    requires Print(v) + x == Print(w) + y
    ensures v == w && x == y
  {
    PrintRoundTrip(v, x);
    PrintRoundTrip(w, y);
  }
}
