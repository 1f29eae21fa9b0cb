/**
 Canonical bytes of adapter records in the Go client: parse, validate, fill, normalise, print, and accept
 only what prints back to itself.
 */
module NixCanonical {
  import opened Bytes
  import opened NixRecord

  type Text = seq<Byte>

  /**
   The JSON library and the hash: `marshal` prints a record for cloning and `clone` is the strict decoder
   that reads it back; `canonical` prints it compact with sorted keys and `decode` is the null check and
   the strict decoder; `hash` is the SHA-256 in hex.
   */
  datatype Codec = Codec(marshal: Record -> Text, clone: Text -> Option<Record>, canonical: Record -> Text,
                         decode: Text -> Option<Record>, hash: Text -> string)

  /** The law asked of the library: either decoder undoes its printer, on records the client accepts. */
  ghost predicate Lawful(c: Codec) {
    && (forall r :: Accepts(Go, r) ==> c.clone(c.marshal(r)) == Some(r))
    && (forall r :: Accepts(Go, r) ==> c.decode(c.canonical(r)) == Some(r))
    && (forall t :: Sha256Hex(c.hash(t)))
  }

  datatype Verified = Rejected | Verified(record: Record, canonicalJson: Text, sha256: string)

  ghost function CanonicalRecord(o: Orders, c: Codec, r: Record): Option<Record> {
    match c.clone(c.marshal(r))
    case None => None
    case Some(copy) => if Accepts(Go, copy) then Some(Normal(o, Fill(copy))) else None
  }

  /** A document is verified when it is the canonical spelling of its own, accepted, content. */
  ghost function Verify(o: Orders, c: Codec, data: Text, expectedSha256: string): Verified {
    match c.decode(data)
    case None => Rejected
    case Some(r) =>
      var n := Normal(o, Fill(r));
      if Accepts(Go, r) && data == c.canonical(n) && (expectedSha256 == "" || expectedSha256 == c.hash(data))
      then Verified(n, data, c.hash(data)) else Rejected
  }

  /** Parsing leaves nothing for canonicalisation to change. */
  lemma ParsedIsCanonical(o: Orders, c: Codec, r: Record)
    requires Lawful(c) && TotalOrders(o) && Accepts(Go, r)
    ensures var n := Normal(o, Fill(r)); CanonicalRecord(o, c, n) == Some(n)
  {
    hide Accepts, Normal, Fill;
    NormalIsStable(Go, o, r);
  }

  /** Canonical bytes of an accepted record verify, with their own digest, as the record's normal form. */
  lemma CanonicalVerifies(o: Orders, c: Codec, r: Record, expectedSha256: string)
    requires Lawful(c) && TotalOrders(o) && Accepts(Go, r)
    ensures CanonicalRecord(o, c, r).Some?
    ensures var n := CanonicalRecord(o, c, r).value;
            var t := c.canonical(n);
            Verify(o, c, t, expectedSha256) ==
              if expectedSha256 == "" || expectedSha256 == c.hash(t) then Verified(n, t, c.hash(t)) else Rejected
  {
    hide Accepts, Normal, Fill;
    NormalIsStable(Go, o, r);
  }

  /** The texts that verify are exactly the canonical texts of accepted records. */
  lemma VerifiedTexts(o: Orders, c: Codec, data: Text)
    requires Lawful(c) && TotalOrders(o)
    ensures Verify(o, c, data, "").Verified? <==> exists r :: Accepts(Go, r) && data == c.canonical(Normal(o, Fill(r)))
  {
    hide Accepts, Normal, Fill;
    if r :| Accepts(Go, r) && data == c.canonical(Normal(o, Fill(r))) {
      CanonicalVerifies(o, c, r, "");
    }
  }

  /** There is one verified spelling: documents whose content agrees up to order and defaults are the same bytes. */
  lemma OneSpelling(o: Orders, c: Codec, x: Text, y: Text, h: string, k: string)
    requires TotalOrders(o)
    requires Verify(o, c, x, h).Verified? && Verify(o, c, y, k).Verified?
    ensures x == y <==> View(Fill(c.decode(x).value)) == View(Fill(c.decode(y).value))
    ensures x == y <==> Verify(o, c, x, h).record == Verify(o, c, y, k).record
  {
    hide Accepts, SortedRecord, View, Normal, Fill;
    SameNormal(Go, o, c.decode(x).value, c.decode(y).value);
  }
}
