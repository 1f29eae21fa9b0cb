/**
 Documentation identifiers: the parts of a lineage, each reduced to letters, digits, `_` and `-`, joined
 with dots. A lineage whose parts are already clean can be read back from its identifier.
 */
module DocumentationId {
  import opened Bytes

  predicate Word(c: char) {
    'A' <= c <= 'Z' || 'a' <= c <= 'z' || '0' <= c <= '9' || c == '_' || c == '-'
  }

  predicate Words(s: string) {
    forall i :: 0 <= i < |s| ==> Word(s[i])
  }

  /** Every run of other characters becomes one hyphen. */
  function Squeeze(s: string, gap: bool): (r: string)
    ensures Words(r)
  {
    if s == "" then ""
    else if Word(s[0]) then [s[0]] + Squeeze(s[1..], false)
    else if gap then Squeeze(s[1..], true)
    else "-" + Squeeze(s[1..], true)
  }

  function StripLeft(s: string): (r: string)
    ensures Words(s) ==> Words(r)
  {
    if s != "" && s[0] == '-' then StripLeft(s[1..]) else s
  }

  function StripRight(s: string): (r: string)
    ensures Words(s) ==> Words(r)
  {
    if s != "" && s[|s| - 1] == '-' then StripRight(s[..|s| - 1]) else s
  }

  function Part(s: string): (r: string)
    ensures r != "" && Words(r)
  {
    var r := StripRight(StripLeft(Squeeze(s, false)));
    if r == "" then "item" else r
  }

  predicate Clean(s: string) {
    s != "" && Words(s) && s[0] != '-' && s[|s| - 1] != '-'
  }

  lemma {:induction false} WordsStay(s: string)
    requires Words(s)
    ensures Squeeze(s, false) == s
  {
    if s != "" {
      WordsStay(s[1..]);
    }
  }

  /** A clean part stays as it is. */
  lemma CleanStays(s: string)
    requires Clean(s)
    ensures Part(s) == s
  {
    WordsStay(s);
  }

  /** Characters that an identifier cannot hold, by their codes: a run of them, and nothing else. */
  predicate Foreign(s: string) {
    s != "" && forall i :: 0 <= i < |s| ==>
      var n := s[i] as int; n < 45 || n == 46 || n == 47 || 58 <= n <= 64 || 91 <= n <= 94 || n == 96 || n >= 123
  }

  lemma {:induction false} SqueezeWords(x: string, rest: string, gap: bool)
    requires Words(x) && x != ""
    ensures Squeeze(x + rest, gap) == x + Squeeze(rest, false)
  {
    assert (x + rest)[0] == x[0] && (x + rest)[1..] == x[1..] + rest;
    if x[1..] != "" {
      SqueezeWords(x[1..], rest, false);
    } else {
      assert x[1..] + rest == rest && x == [x[0]];
    }
  }

  lemma {:induction false} SqueezeForeign(junk: string, rest: string, gap: bool)
    requires Foreign(junk)
    ensures Squeeze(junk + rest, gap) == (if gap then "" else "-") + Squeeze(rest, true)
  {
    assert (junk + rest)[0] == junk[0] && (junk + rest)[1..] == junk[1..] + rest;
    assert !Word(junk[0]);
    if junk[1..] != "" {
      SqueezeForeign(junk[1..], rest, true);
      assert "" + Squeeze(rest, true) == Squeeze(rest, true);
    } else {
      assert junk[1..] + rest == rest;
    }
  }

  /** A run between two clean parts becomes one hyphen; at either end it goes; of nothing else `item` is made. */
  lemma PartReplaces(x: string, junk: string, y: string)
    requires Clean(x) && Clean(y) && Foreign(junk)
    ensures Part(x + junk + y) == x + "-" + y
    ensures Part(junk + x) == x && Part(x + junk) == x
    ensures Part(junk) == Part("") == "item"
  {
    Squeezed(x, junk, y);
    Stripped(x + "-" + y);
    StrippedLeft(x);
    StrippedRight(x);
    hide Squeeze, StripLeft, StripRight;
  }

  lemma Stripped(x: string)
    requires x != "" && x[0] != '-' && x[|x| - 1] != '-'
    ensures StripRight(StripLeft(x)) == x && StripRight(StripLeft("-")) == "" == StripRight(StripLeft(""))
  {
    assert "-"[1..] == "";
  }

  lemma StrippedLeft(x: string)
    requires Clean(x)
    ensures StripRight(StripLeft("-" + x)) == x
  {
    assert ("-" + x)[1..] == x;
    assert StripLeft(x) == x;
  }

  lemma StrippedRight(x: string)
    requires Clean(x)
    ensures StripRight(StripLeft(x + "-")) == x
  {
    assert (x + "-")[0] == x[0] != '-';
    assert (x + "-")[..|x|] == x;
    assert StripRight(x) == x;
  }

  lemma Squeezed(x: string, junk: string, y: string)
    requires Clean(x) && Clean(y) && Foreign(junk)
    ensures Squeeze(x + junk + y, false) == x + "-" + y
    ensures Squeeze(junk + x, false) == "-" + x && Squeeze(x + junk, false) == x + "-"
    ensures Squeeze(junk, false) == "-" && Squeeze("", false) == ""
  {
    assert x + junk + y == x + (junk + y) && y + "" == y && x + "" == x && junk + "" == junk;
    SqueezeWords(x, junk + y, false);
    SqueezeForeign(junk, y, false);
    SqueezeWords(y, "", true);
    SqueezeForeign(junk, x, false);
    SqueezeWords(x, "", true);
    SqueezeWords(x, junk, false);
    SqueezeForeign(junk, "", false);
  }

  // ----- Array indices -----

  lemma DigitsAreClean(n: nat)
    ensures Clean(Digits(n))
  {
    DigitsBack(n);
  }

  lemma DigitsInjective(a: nat, b: nat)
    requires Digits(a) == Digits(b)
    ensures a == b
  {
    DigitsBack(a);
    DigitsBack(b);
  }

  // ----- Joining -----

  function Dotted(parts: seq<string>): string {
    if parts == [] then "" else if |parts| == 1 then parts[0] else parts[0] + (['.'] + Dotted(parts[1..]))
  }

  function Parts(lineage: seq<string>): (r: seq<string>)
    ensures |r| == |lineage| && forall i :: 0 <= i < |r| ==> r[i] == Part(lineage[i])
  {
    seq(|lineage|, i requires 0 <= i < |lineage| => Part(lineage[i]))
  }

  function Identifier(lineage: seq<string>): string {
    Dotted(Parts(["api"] + lineage))
  }

  predicate AllWords(parts: seq<string>) {
    parts != [] && forall i :: 0 <= i < |parts| ==> Words(parts[i])
  }

  /** The first part ends at the first dot. */
  lemma FirstDot(parts: seq<string>)
    requires AllWords(parts)
    ensures parts[0] <= Dotted(parts)
    ensures |parts| == 1 ==> Dotted(parts) == parts[0]
    ensures |parts| > 1 ==>
      |Dotted(parts)| > |parts[0]| && Dotted(parts)[|parts[0]|] == '.'
      && Dotted(parts)[|parts[0]| + 1..] == Dotted(parts[1..])
    ensures forall i :: 0 <= i < |parts[0]| ==> Dotted(parts)[i] != '.'
  {
    NoDot(parts[0]);
    DottedForm(parts);
    hide Dotted, Words;
    var rest := Dotted(parts)[|parts[0]|..];
    assert Dotted(parts) == parts[0] + rest;
  }

  lemma DottedForm(parts: seq<string>)
    requires parts != []
    ensures |parts| == 1 ==> Dotted(parts) == parts[0]
    ensures |parts| > 1 ==> Dotted(parts) == parts[0] + (['.'] + Dotted(parts[1..]))
  {}

  lemma NoDot(s: string)
    requires Words(s)
    ensures forall i :: 0 <= i < |s| ==> s[i] != '.'
  {}

  lemma {:induction false} DottedInjective(a: seq<string>, b: seq<string>)
    requires AllWords(a) && AllWords(b) && Dotted(a) == Dotted(b)
    ensures a == b
    decreases |a|
  {
    hide Dotted, Words;
    FirstDot(a);
    FirstDot(b);
    assert |a[0]| == |b[0]| && (|a| == 1 <==> |b| == 1);
    assert a[0] == b[0];
    assert a == [a[0]] + a[1..] && b == [b[0]] + b[1..];
    if |a| > 1 {
      DottedInjective(a[1..], b[1..]);
    }
  }

  lemma PartsTail(first: string, lineage: seq<string>)
    ensures Parts([first] + lineage)[1..] == Parts(lineage)
  {
    hide Part;
    assert ([first] + lineage)[1..] == lineage;
  }

  /** Lineages with the same identifier agree part by part. */
  lemma IdentifierDetermines(a: seq<string>, b: seq<string>)
    requires Identifier(a) == Identifier(b)
    ensures Parts(a) == Parts(b)
  {
    hide Dotted, Part, Words;
    var x, y := Parts(["api"] + a), Parts(["api"] + b);
    DottedInjective(x, y);
    PartsTail("api", a);
    PartsTail("api", b);
  }
}
