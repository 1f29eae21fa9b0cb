/**
 Canonical text of adapter records in the TypeScript client: every document is parsed into a fresh record,
 the record is printed with its keys sorted at every level, and only what prints back to itself is accepted.
 */
module NixCanonicalTs {
  import opened Bytes
  import opened NixRecord
  import opened NixTokens
  import opened Patterns
  import opened NixAdapterTs
  import opened NixDocument
  import J = JsonText
  import opened JsonValue
  import opened JsonCanonical

  // ----- Parse, print, compare -----

  /** `JSON.parse` with the type of every field checked, and the SHA-256 of a text in hex. */
  datatype Library = Library(parse: J.Text -> Option<RawRecord>, hash: J.Text -> string)

  function CanonicalText(r: Record): J.Text {
    Stringify(Document(r))
  }

  ghost predicate Hashes(lib: Library) {
    forall t :: Sha256Hex(lib.hash(t))
  }

  /** The law asked of the parser: it reads back the canonical text of an accepted record whose defaults are filled. */
  ghost predicate Lawful(lib: Library) {
    Hashes(lib) && forall r :: Accepts(TypeScript, r) && Fill(r) == r ==> lib.parse(CanonicalText(r)) == Some(Unload(r))
  }

  ghost predicate Parses(raw: RawRecord) {
    NoEmptyText(raw) && Accepts(TypeScript, Load(raw))
  }

  /** The one record a document parses to. */
  ghost function Parsed(o: Orders, raw: RawRecord): Record {
    Normal(o, Fill(Load(raw)))
  }

  datatype Verified = Rejected | Verified(record: Record, canonicalJson: J.Text, sha256: string)

  /**
   A text is verified when it is the canonical spelling of its own content, under the expected digest if one
   is given.
   */
  ghost function Verify(o: Orders, lib: Library, json: J.Text, expectedSha256: Option<string>): Verified {
    match lib.parse(json)
    case None => Rejected
    case Some(raw) =>
      if Parses(raw) && json == CanonicalText(Parsed(o, raw))
        && (expectedSha256 == None || expectedSha256 == Some(lib.hash(json)))
      then Verified(Parsed(o, raw), json, lib.hash(json)) else Rejected
  }

  lemma ParsedIsNormal(o: Orders, raw: RawRecord, n: Record)
    requires TotalOrders(o) && Accepts(TypeScript, Load(raw)) && IsNormalOf(o, Fill(Load(raw)), n)
    ensures n == Parsed(o, raw)
  {
    hide Accepts, SortedRecord, View, Normal, Fill;
    FillKeepsAcceptance(TypeScript, Load(raw));
    NormalIsNormal(TypeScript, o, Fill(Load(raw)));
    NormalFormUnique(TypeScript, o, Fill(Load(raw)), Fill(Load(raw)), n, Parsed(o, raw));
  }

  /** `canonicalNixAdapterRecordJson`: parse the document, print the record with sorted keys. */
  method CanonicalJson(o: Orders, raw: RawRecord) returns (text: Option<J.Text>)
    requires TotalOrders(o)
    ensures text == if Parses(raw) then Some(CanonicalText(Parsed(o, raw))) else None
  {
    hide Accepts, IsNormalOf, Normal, Fill, CanonicalText, Load, NoEmptyText;
    var record := ParseZedToNix(o, raw);
    if record.None? {
      return None;
    }
    ParsedIsNormal(o, raw, record.value);
    return Some(CanonicalText(record.value));
  }

  /** A parsed record handed back as a document parses to itself. */
  lemma ParsedAgain(o: Orders, raw: RawRecord)
    requires TotalOrders(o) && Parses(raw)
    ensures var n := Parsed(o, raw);
            Parses(Unload(n)) && Parsed(o, Unload(n)) == n && Accepts(TypeScript, n) && Fill(n) == n
  {
    hide Accepts, SortedRecord, View, Normal, Fill;
    var n := Parsed(o, raw);
    NormalIsStable(TypeScript, o, Load(raw));
    FillKeepsAcceptance(TypeScript, Load(raw));
    NormalIsNormal(TypeScript, o, Fill(Load(raw)));
    LoadUnload(n);
    FillKeepsAcceptance(TypeScript, n);
    NormalIsNormal(TypeScript, o, n);
    ReparseIsIdentity(o, raw, n, n);
  }

  /** Accepts exactly the canonical text of what it parses to. */
  method VerifyCanonicalJson(o: Orders, lib: Library, json: J.Text,
                             expectedSha256: Option<string>) returns (v: Verified)
    requires TotalOrders(o) && Hashes(lib)
    ensures v == Verify(o, lib, json, expectedSha256)
  {
    hide Accepts, IsNormalOf, Normal, Fill, CanonicalText, Load, NoEmptyText, Sha256Hex, Unload,
      Matches, HexPattern;
    var raw := lib.parse(json);
    if raw.None? {
      return Rejected;
    }
    var record := ParseZedToNix(o, raw.value);
    if record.None? {
      return Rejected;
    }
    ParsedIsNormal(o, raw.value, record.value);
    ParsedAgain(o, raw.value);
    var canonical := CanonicalJson(o, Unload(record.value));
    if canonical.None? || json != canonical.value {
      return Rejected;
    }
    var digest := lib.hash(canonical.value);
    if expectedSha256.Some? {
      HexMatches(expectedSha256.value);
    }
    if expectedSha256.Some? && (!Matches(HexPattern(), expectedSha256.value) || digest != expectedSha256.value) {
      return Rejected;
    }
    return Verified(record.value, canonical.value, digest);
  }

  /** Canonical text of any document that parses verifies, with its own digest. */
  lemma CanonicalVerifies(o: Orders, lib: Library, raw: RawRecord)
    requires Lawful(lib) && TotalOrders(o) && Parses(raw)
    ensures var n := Parsed(o, raw);
            var t := CanonicalText(n);
            Verify(o, lib, t, None) == Verified(n, t, lib.hash(t)) == Verify(o, lib, t, Some(lib.hash(t)))
  {
    hide Accepts, Parsed, Fill, CanonicalText, Parses;
    ParsedAgain(o, raw);
  }

  /** The texts that verify are exactly the canonical texts of documents that parse. */
  lemma VerifiedTexts(o: Orders, lib: Library, json: J.Text)
    requires Lawful(lib) && TotalOrders(o)
    ensures Verify(o, lib, json, None).Verified? <==> exists raw :: Parses(raw) && json == CanonicalText(Parsed(o, raw))
  {
    hide Parsed, CanonicalText, Parses, Lawful;
    if raw :| Parses(raw) && json == CanonicalText(Parsed(o, raw)) {
      CanonicalVerifies(o, lib, raw);
    }
  }

  /** There is one verified spelling: texts whose content agrees up to order and defaults are the same. */
  lemma OneSpelling(o: Orders, lib: Library, x: J.Text, y: J.Text, r: RawRecord, q: RawRecord)
    requires TotalOrders(o) && lib.parse(x) == Some(r) && lib.parse(y) == Some(q)
    requires Verify(o, lib, x, None).Verified? && Verify(o, lib, y, None).Verified?
    ensures x == y <==> View(Fill(Load(r))) == View(Fill(Load(q)))
  {
    hide Verify, Accepts, Normal, Fill, View, Load, NoEmptyText, CanonicalText;
    VerifiedIs(o, lib, x);
    VerifiedIs(o, lib, y);
    SameNormal(TypeScript, o, Load(r), Load(q));
    SameText(Parsed(o, r), Parsed(o, q));
  }

  lemma SameText(n: Record, m: Record)
    ensures n == m ==> CanonicalText(n) == CanonicalText(m)
  {}

  lemma VerifiedIs(o: Orders, lib: Library, json: J.Text)
    ensures Verify(o, lib, json, None).Verified? <==>
      lib.parse(json).Some? && Parses(lib.parse(json).value) && json == CanonicalText(Parsed(o, lib.parse(json).value))
  {
    hide Accepts, Parsed, CanonicalText, Load, NoEmptyText;
  }

  // ----- The text, and so the digest, determines the record -----

  /** Records have one canonical text exactly when they are one record, so the law on the parser can be met. */
  lemma TextDetermines(n: Record, m: Record)
    ensures CanonicalText(n) == CanonicalText(m) <==> n == m
  {
    hide DocumentSlots, Stringify, Equiv, WellFormed;
    DocumentAgrees(n, m);
    StringifyDecides(Document(n), Document(m));
    SameText(n, m);
  }

  /** Verified texts with one digest hold one record, unless the hash collides on the two texts. */
  lemma DigestDetermines(o: Orders, lib: Library, x: J.Text, y: J.Text, h: Option<string>, k: Option<string>)
    requires Verify(o, lib, x, h).Verified? && Verify(o, lib, y, k).Verified?
    requires Verify(o, lib, x, h).sha256 == Verify(o, lib, y, k).sha256
    ensures Verify(o, lib, x, h).record == Verify(o, lib, y, k).record || (x != y && lib.hash(x) == lib.hash(y))
  {
    hide Parsed, Parses, CanonicalText;
    TextDetermines(Verify(o, lib, x, h).record, Verify(o, lib, y, k).record);
  }
}
