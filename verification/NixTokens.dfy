/**
 The tokens of an adapter record as the two clients check them: regular expressions that must match the whole
 string, trimming, and loops over characters. Each accepts exactly what the record rules say.
 */
module NixTokens {
  import opened Bytes
  import opened Patterns
  import opened NixRecord

  // ----- The regular expressions -----

  /** `^[a-z0-9](?:[a-z0-9._-]{0,126}[a-z0-9])?$` */
  function SlugPattern(): Pattern {
    var edge := (c: char) => 'a' <= c <= 'z' || '0' <= c <= '9';
    var inner := (c: char) => 'a' <= c <= 'z' || '0' <= c <= '9' || c == '.' || c == '_' || c == '-';
    Then(One(edge), Maybe(Then(Repeat(inner, 0, Some(126)), One(edge))))
  }

  /** `^[a-z0-9](?:[a-z0-9._+-]{0,126}[a-z0-9])?$` */
  function TargetPattern(): Pattern {
    var edge := (c: char) => 'a' <= c <= 'z' || '0' <= c <= '9';
    var inner := (c: char) => 'a' <= c <= 'z' || '0' <= c <= '9' || c == '.' || c == '_' || c == '+' || c == '-';
    Then(One(edge), Maybe(Then(Repeat(inner, 0, Some(126)), One(edge))))
  }

  /** `^[A-Za-z_][A-Za-z0-9_'-]*$` */
  function IdentifierPattern(): Pattern {
    Then(One(c => 'A' <= c <= 'Z' || 'a' <= c <= 'z' || c == '_'),
         Repeat(c => 'A' <= c <= 'Z' || 'a' <= c <= 'z' || '0' <= c <= '9' || c == '_' || c == '\'' || c == '-', 0,
               None))
  }

  /** `^/nix/store/[0-9abcdfghijklmnpqrsvwxyz]{32}-[A-Za-z0-9+._?-]+$` */
  function StorePathPattern(): Pattern {
    var base32 := (c: char) => '0' <= c <= '9' || 'a' <= c <= 'd' || 'f' <= c <= 'n' || 'p' <= c <= 's'
                               || 'v' <= c <= 'z';
    var name := (c: char) => 'A' <= c <= 'Z' || 'a' <= c <= 'z' || '0' <= c <= '9' || c == '+' || c == '.'
                             || c == '_' || c == '?' || c == '-';
    Then(Exact("/nix/store/"), Then(Repeat(base32, 32, Some(32)), Then(Exact("-"), Repeat(name, 1, None))))
  }

  /** `^[0-9a-f]{64}$` */
  function HexPattern(): Pattern { Repeat(c => '0' <= c <= '9' || 'a' <= c <= 'f', 64, Some(64)) }

  /** `^sha256-[A-Za-z0-9+/]{43}=$` */
  function SriPattern(): Pattern {
    Then(Exact("sha256-"),
         Then(Repeat(c => 'A' <= c <= 'Z' || 'a' <= c <= 'z' || '0' <= c <= '9' || c == '+' || c == '/', 43, Some(43)),
              Exact("=")))
  }

  /** `^[a-z0-9_-]+$` */
  function SystemPattern(): Pattern {
    Repeat(c => 'a' <= c <= 'z' || '0' <= c <= '9' || c == '_' || c == '-', 1, None)
  }

  // ----- They are the record's rules -----

  lemma Edged(edge: char -> bool, inner: char -> bool, s: string)
    requires forall c :: edge(c) ==> inner(c)
    ensures Matches(Then(One(edge), Maybe(Then(Repeat(inner, 0, Some(126)), One(edge)))), s)
            <==> 1 <= |s| <= 128 && edge(s[0]) && edge(s[|s| - 1]) && All(inner, s)
  {
    var middle := Repeat(inner, 0, Some(126));
    OneThen(edge, Maybe(Then(middle, One(edge))), s);
    if s != "" && s[1..] != "" {
      ThenOne(middle, edge, s[1..]);
      var m := s[1..][..|s| - 2];
      assert forall i :: 0 <= i < |m| ==> m[i] == s[i + 1];
      assert All(inner, s) <==> inner(s[0]) && inner(s[|s| - 1]) && forall i :: 0 <= i < |m| ==> inner(m[i]) by {
        assert forall i :: 0 < i < |s| - 1 ==> s[i] == m[i - 1];
      }
    }
  }

  lemma SlugMatches(s: string)
    ensures Matches(SlugPattern(), s) <==> ValidSlug(s)
  {
    var edge := (c: char) => 'a' <= c <= 'z' || '0' <= c <= '9';
    var inner := (c: char) => 'a' <= c <= 'z' || '0' <= c <= '9' || c == '.' || c == '_' || c == '-';
    hide Matches;
    Edged(edge, inner, s);
  }

  lemma TargetMatches(s: string)
    ensures Matches(TargetPattern(), s) <==> ValidTarget(s)
  {
    var edge := (c: char) => 'a' <= c <= 'z' || '0' <= c <= '9';
    var inner := (c: char) => 'a' <= c <= 'z' || '0' <= c <= '9' || c == '.' || c == '_' || c == '+' || c == '-';
    hide Matches;
    Edged(edge, inner, s);
  }

  lemma IdentifierMatches(s: string)
    ensures Matches(IdentifierPattern(), s) <==> NixIdentifier(s)
  {
    var p := IdentifierPattern();
    OneThen(p.first.among, p.second, s);
    assert s != "" ==> s == [s[0]] + s[1..];
  }

  lemma RepeatMatches(p: char -> bool, q: char -> bool, min: nat, max: Option<nat>, s: string)
    requires forall c :: p(c) <==> q(c)
    ensures Matches(Repeat(p, min, max), s) <==> min <= |s| && (max.Some? ==> |s| <= max.value) && All(q, s)
  {}

  /** The part after the prefix: 32 digits in base 32, a dash, a name. */
  lemma StoreNameMatches(t: string)
    ensures Matches(StorePathPattern().second, t)
            <==> |t| > 33 && All(NixBase32, t[..32]) && t[32] == '-' && All(StoreNameChar, t[33..])
  {
    var p := StorePathPattern().second;
    BaseDigits(p.first, t);
    ThenAt(p.first, p.second, t, 32);
    if |t| >= 32 {
      NameMatches(p.second, t[32..]);
      hide Matches, All, NixBase32, StoreNameChar;
      assert |t| >= 33 ==> t[32..][0] == t[32] && t[32..][1..] == t[33..];
    }
  }

  lemma NameMatches(p: Pattern, u: string)
    requires p == StorePathPattern().second.second
    ensures Matches(p, u) <==> |u| > 1 && u[0] == '-' && All(StoreNameChar, u[1..])
  {
    hide Matches;
    ExactThen("-", p.second, u);
    if |u| >= 1 {
      RepeatMatches(p.second.among, StoreNameChar, 1, None, u[1..]);
      assert u[..1] == [u[0]];
    }
  }

  lemma BaseDigits(p: Pattern, t: string)
    requires p == StorePathPattern().second.first
    ensures forall u :: Matches(p, u) ==> |u| == 32
    ensures |t| >= 32 ==> (Matches(p, t[..32]) <==> All(NixBase32, t[..32]))
  {
    if |t| >= 32 {
      RepeatMatches(p.among, NixBase32, 32, Some(32), t[..32]);
    }
  }

  lemma StorePathMatches(s: string)
    ensures Matches(StorePathPattern(), s) <==> NixStorePath(s)
  {
    var p := StorePathPattern();
    ExactThen("/nix/store/", p.second, s);
    hide Matches;
    if |s| >= 11 {
      var t := s[11..];
      StoreNameMatches(t);
      hide NixBase32, StoreNameChar;
      assert |s| >= 44 ==> t[..32] == s[11..43] && t[32] == s[43] && t[33..] == s[44..];
    }
  }

  lemma HexMatches(s: string)
    ensures Matches(HexPattern(), s) <==> Sha256Hex(s)
  {}

  lemma SriMatches(s: string)
    ensures Matches(SriPattern(), s) <==> Sha256Sri(s)
  {
    var p := SriPattern();
    ThenAt(p.first, p.second, s, 7);
    if |s| >= 7 {
      var t := s[7..];
      ThenAt(p.second.first, p.second.second, t, 43);
      if |t| >= 43 {
        assert t[..43] == s[7..50] && t[43..] == s[50..];
        if |s| == 51 {
          assert s[50..] == [s[50]];
        }
      }
    }
  }

  // ----- White space -----

  /** Unicode's white space one by one, with the one that each client has and the other has not. */
  lemma SpacesListed(d: Dialect, c: char)
    ensures Space(d, c) <==>
      c as int in [9, 10, 11, 12, 13, 32, 160, 5760, 8192, 8193, 8194, 8195, 8196, 8197, 8198, 8199, 8200, 8201, 8202,
                   8232, 8233, 8239, 8287, 12288]
      || c as int == if d.Go? then 133 else 65279
  {}

  function TrimStart(d: Dialect, s: string): string {
    if s != "" && Space(d, s[0]) then TrimStart(d, s[1..]) else s
  }

  function TrimEnd(d: Dialect, s: string): string {
    if s != "" && Space(d, s[|s| - 1]) then TrimEnd(d, s[..|s| - 1]) else s
  }

  /** `strings.TrimSpace`, and `trim`. */
  function TrimSpace(d: Dialect, s: string): string { TrimEnd(d, TrimStart(d, s)) }

  lemma {:induction false} TrimStartShorter(d: Dialect, s: string)
    ensures |TrimStart(d, s)| <= |s| && (|TrimStart(d, s)| < |s| || TrimStart(d, s) == s)
    ensures TrimStart(d, s) == s <==> s == "" || !Space(d, s[0])
    ensures TrimStart(d, s) == "" <==> Blank(d, s)
    ensures TrimStart(d, s) != "" ==> !Space(d, TrimStart(d, s)[0])
  {
    hide Space;
    if s != "" && Space(d, s[0]) {
      TrimStartShorter(d, s[1..]);
      assert s == [s[0]] + s[1..];
    }
  }

  lemma {:induction false} TrimEndShorter(d: Dialect, s: string)
    ensures |TrimEnd(d, s)| <= |s| && (|TrimEnd(d, s)| < |s| || TrimEnd(d, s) == s)
    ensures TrimEnd(d, s) == s <==> s == "" || !Space(d, s[|s| - 1])
    ensures s != "" && !Space(d, s[0]) ==> TrimEnd(d, s) != ""
  {
    hide Space;
    if s != "" && Space(d, s[|s| - 1]) {
      TrimEndShorter(d, s[..|s| - 1]);
    }
  }

  /** Trimming leaves a string alone exactly when neither end is white space, and empties one that is nothing else. */
  lemma Trims(d: Dialect, s: string)
    ensures TrimSpace(d, s) == s <==> Trimmed(d, s)
    ensures TrimSpace(d, s) == "" <==> Blank(d, s)
  {
    hide Space, Blank;
    TrimStartShorter(d, s);
    TrimEndShorter(d, TrimStart(d, s));
    TrimEndShorter(d, s);
  }

  // ----- Length -----

  /** A string as the client holds it: the octets of UTF-8 in Go, the units of UTF-16 in TypeScript. */
  function Encoded(d: Dialect, s: string): seq<int> {
    if s == "" then []
    else (if d.Go? then Octets8(s[0] as int) else Units16(s[0] as int)) + Encoded(d, s[1..])
  }

  function Octets8(n: int): seq<int> {
    if n < 0x80 then [n]
    else if n < 0x800 then [0xC0 + n / 0x40, 0x80 + n % 0x40]
    else if n < 0x10000 then [0xE0 + n / 0x1000, 0x80 + n / 0x40 % 0x40, 0x80 + n % 0x40]
    else [0xF0 + n / 0x40000, 0x80 + n / 0x1000 % 0x40, 0x80 + n / 0x40 % 0x40, 0x80 + n % 0x40]
  }

  function Units16(n: int): seq<int> {
    if n < 0x10000 then [n] else [0xD800 + (n - 0x10000) / 0x400, 0xDC00 + (n - 0x10000) % 0x400]
  }

  /** The length the clients test is the length of that. */
  lemma {:induction false} LengthIsEncoded(d: Dialect, s: string)
    ensures Length(d, s) == |Encoded(d, s)|
  {
    if s != "" {
      LengthIsEncoded(d, s[1..]);
    }
  }
}
