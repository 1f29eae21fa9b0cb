/**
 What the consumer's lists do to the verdict, and what an accepted envelope says, in the literal words of the
 documents. The lists decide nothing but their own demands.
 */
module AdmissionPolicy {
  import opened Bytes
  import opened Ordering
  import opened JsonText
  import opened JsonValue
  import opened JsonCanonical
  import opened JsonObject
  import opened ContractAdmission

  /** A declaration of the IR has this identity. */
  predicate Exports(ir: Json, id: Json) {
    ArrayAt(ir, "declarations") && exists i :: 0 <= i < |ItemsAt(ir, "declarations")| && Names(ir, i, id)
  }

  predicate Names(ir: Json, i: nat, id: Json)
    requires ArrayAt(ir, "declarations") && i < |ItemsAt(ir, "declarations")|
  {
    Get(ItemsAt(ir, "declarations")[i], T("id")) == Some(id)
  }

  lemma InColumn(items: seq<Json>, key: string, id: Json)
    ensures Some(id) in Column(items, key) <==> exists i :: 0 <= i < |items| && Get(items[i], T(key)) == Some(id)
  {
    hide Get;
    var c := Column(items, key);
    if i :| 0 <= i < |items| && Get(items[i], T(key)) == Some(id) {
      assert c[i] == Some(id);
    }
    if Some(id) in c {
      var i :| 0 <= i < |c| && c[i] == Some(id);
      assert Get(items[i], T(key)) == Some(id);
    }
  }

  lemma ExportedIds(ir: Json, id: Json)
    requires ArrayAt(ir, "declarations")
    ensures Some(id) in Column(ItemsAt(ir, "declarations"), "id") <==> Exports(ir, id)
  {
    hide Get, Read, T, Column;
    var items := ItemsAt(ir, "declarations");
    InColumn(items, "id", id);
    if i :| 0 <= i < |items| && Get(items[i], T("id")) == Some(id) {
      assert Names(ir, i, id);
    }
    if Exports(ir, id) {
      var i :| 0 <= i < |items| && Names(ir, i, id);
      assert Get(items[i], T("id")) == Some(id);
    }
  }

  /** One more identity in a list. */
  lemma OneMoreIdentity(ids: seq<Json>, id: Json, nonempty: bool)
    requires ids != [] || !nonempty
    ensures Identities(Somes(ids + [id]), nonempty)
            <==> Identities(Somes(ids), nonempty) && Identity(Some(id)) && id !in ids
  {
    var a, b := Somes(ids), Somes(ids + [id]);
    assert forall i :: 0 <= i < |ids| ==> b[i] == a[i] == Some(ids[i]);
    assert b[|ids|] == Some(id) && |b| == |a| + 1;
    hide Identity;
    assert id in ids <==> exists i :: 0 <= i < |ids| && b[i] == b[|ids|];
  }

  lemma ForbiddenInventory(ir: Json, report: Json, required: seq<Json>, forbidden: seq<Json>, requireComplete: bool,
                           id: Json)
    ensures Inventories(ir, report, required, forbidden + [id], requireComplete)
            <==> Inventories(ir, report, required, forbidden, requireComplete)
                 && Identity(Some(id)) && id !in forbidden && !Exports(ir, id)
  {
    hide Identities, Identity, Read, T, Column, Objects, DecimalText;
    OneMoreIdentity(forbidden, id, false);
    if ArrayAt(ir, "declarations") {
      ExportedIds(ir, id);
    }
    hide ItemsAt, ArrayAt, Exports, Count;
  }

  lemma RequiredInventory(ir: Json, report: Json, required: seq<Json>, forbidden: seq<Json>, requireComplete: bool,
                          id: Json)
    requires required != []
    ensures Inventories(ir, report, required + [id], forbidden, requireComplete)
            <==> Inventories(ir, report, required, forbidden, requireComplete)
                 && Identity(Some(id)) && id !in required && Exports(ir, id)
  {
    hide Identities, Identity, Read, T, Column, Objects, DecimalText;
    OneMoreIdentity(required, id, true);
    if ArrayAt(ir, "declarations") {
      ExportedIds(ir, id);
    }
    hide ItemsAt, ArrayAt, Exports, Count;
  }

  /** Forbidding one more identity keeps acceptance exactly when it is a new one that no declaration has. */
  lemma ForbidOneMore(h: Hash, ir: Json, report: Json, required: seq<Json>, forbidden: seq<Json>,
                      requireComplete: bool, id: Json)
    ensures Accepted(h, ir, report, required, forbidden + [id], requireComplete)
            <==> Accepted(h, ir, report, required, forbidden, requireComplete)
                 && Identity(Some(id)) && id !in forbidden && !Exports(ir, id)
  {
    hide IrHeader, ReportHeader, Bound, AllDeclarations, Inventories, Identity, Exports;
    ForbiddenInventory(ir, report, required, forbidden, requireComplete, id);
  }

  /** Requiring one more keeps acceptance exactly when it is a new one that some declaration has. */
  lemma RequireOneMore(h: Hash, ir: Json, report: Json, required: seq<Json>, forbidden: seq<Json>,
                       requireComplete: bool, id: Json)
    requires required != []
    ensures Accepted(h, ir, report, required + [id], forbidden, requireComplete)
            <==> Accepted(h, ir, report, required, forbidden, requireComplete)
                 && Identity(Some(id)) && id !in required && Exports(ir, id)
  {
    hide IrHeader, ReportHeader, Bound, AllDeclarations, Inventories, Identity, Exports;
    RequiredInventory(ir, report, required, forbidden, requireComplete, id);
  }

  /** Nothing is accepted for a consumer that requires nothing. */
  lemma SomethingIsRequired(h: Hash, ir: Json, report: Json, forbidden: seq<Json>, requireComplete: bool)
    ensures !Accepted(h, ir, report, [], forbidden, requireComplete)
  {
    hide IrHeader, ReportHeader, Bound, AllDeclarations, Identity, Read, T, Column, Objects, DecimalText;
  }

  /** Demanding completeness adds that nothing was excluded and nothing is out of scope. */
  lemma CompletenessDemanded(h: Hash, ir: Json, report: Json, required: seq<Json>, forbidden: seq<Json>)
    ensures Accepted(h, ir, report, required, forbidden, true)
            <==> Accepted(h, ir, report, required, forbidden, false)
                 && Read(Some(ir), ["excludedDeclarations"]) == Some(Arr([]))
                 && Read(Some(ir), ["outOfScopeDeclarations"]) == Some(Arr([]))
  {
    hide IrHeader, ReportHeader, Bound, AllDeclarations, Identities, Read, T, Column, Objects, DecimalText;
  }

  // ----- What an accepted envelope says -----

  /** No declaration has a forbidden identity, and every required one is there. */
  lemma ListsAreObeyed(h: Hash, ir: Json, report: Json, required: seq<Json>, forbidden: seq<Json>,
                       requireComplete: bool)
    requires Accepted(h, ir, report, required, forbidden, requireComplete)
    ensures forall id :: id in forbidden ==> !Exports(ir, id)
    ensures forall id :: id in required ==> Exports(ir, id)
  {
    hide IrHeader, ReportHeader, Bound, AllDeclarations, Identities, Read, T, Column, Objects, DecimalText, ArrayAt,
      ItemsAt, Exports;
    assert ArrayAt(ir, "declarations");
    forall id
      ensures Some(id) in Column(ItemsAt(ir, "declarations"), "id") <==> Exports(ir, id)
    {
      ExportedIds(ir, id);
    }
  }

  /** The count under a path, read as a decimal number. */
  function CountAt(ir: Json, key: string): Option<int> {
    var x := Read(Some(ir), ["admission", "scope", key]);
    if x.Some? && x.value.Num? then Some(DecimalValue(x.value.token)) else None
  }

  /** The scope counts what the inventories hold. */
  lemma ScopeCountsInventories(h: Hash, ir: Json, report: Json, required: seq<Json>, forbidden: seq<Json>,
                               requireComplete: bool)
    requires Accepted(h, ir, report, required, forbidden, requireComplete)
    ensures ArrayAt(ir, "declarations") && ArrayAt(ir, "excludedDeclarations") && ArrayAt(ir, "outOfScopeDeclarations")
    ensures CountAt(ir, "admittedDeclarations") == Some(|ItemsAt(ir, "declarations")|)
    ensures CountAt(ir, "excludedDeclarations") == Some(|ItemsAt(ir, "excludedDeclarations")|)
    ensures CountAt(ir, "outOfScopeDeclarations") == Some(|ItemsAt(ir, "outOfScopeDeclarations")|)
    ensures Read(Some(ir), ["admission", "scope", "complete"])
            == Some(Bool(ItemsAt(ir, "excludedDeclarations") == [] && ItemsAt(ir, "outOfScopeDeclarations") == []))
  {
    hide IrHeader, ReportHeader, Bound, AllDeclarations, Identities, Read, T, Objects, DecimalText, ArrayAt, ItemsAt;
    assert ArrayAt(ir, "declarations") && ArrayAt(ir, "excludedDeclarations") && ArrayAt(ir, "outOfScopeDeclarations");
    DecimalBack(|ItemsAt(ir, "declarations")|);
    DecimalBack(|ItemsAt(ir, "excludedDeclarations")|);
    DecimalBack(|ItemsAt(ir, "outOfScopeDeclarations")|);
  }

  /** The declarations are those the report maps, one for one. */
  lemma DeclarationsAreMapped(h: Hash, ir: Json, report: Json, required: seq<Json>, forbidden: seq<Json>,
                              requireComplete: bool)
    requires Accepted(h, ir, report, required, forbidden, requireComplete)
    ensures ArrayAt(ir, "declarations") && ArrayAt(report, "declarationMap")
    ensures var admitted := Column(ItemsAt(ir, "declarations"), "id");
            var mapped := Column(ItemsAt(report, "declarationMap"), "typespec");
            multiset(admitted) == multiset(mapped) && Distinct(admitted) && admitted != []
  {
    hide IrHeader, ReportHeader, Bound, AllDeclarations, Identity, Read, T, Objects, DecimalText, ArrayAt, ItemsAt,
      Column;
    SameMultiset(Column(ItemsAt(ir, "declarations"), "id"), Column(ItemsAt(report, "declarationMap"), "typespec"));
  }

  /** The string under a path. */
  function TextAt(v: Json, path: seq<string>): Option<Text> {
    var x := Read(Some(v), path);
    if x.Some? && x.value.Str? then Some(x.value.text) else None
  }

  /** Both authorities are independent peers; what was generated is evidence only, and nothing takes precedence. */
  lemma AuthoritiesArePeers(h: Hash, ir: Json, report: Json, required: seq<Json>, forbidden: seq<Json>,
                            requireComplete: bool)
    requires Accepted(h, ir, report, required, forbidden, requireComplete)
    ensures TextAt(ir, ["authorities", "typespec"]) == Some(T("independently-authored"))
    ensures TextAt(ir, ["authorities", "jsonSchema"]) == Some(T("independently-authored"))
    ensures TextAt(ir, ["authorities", "generatedJsonSchema"]) == Some(T("comparison-evidence-only"))
    ensures TextAt(ir, ["authorities", "precedence"]) == Some(T("none"))
    ensures TextAt(ir, ["role"]) == Some(T("downstream-derived-parity-artifact"))
    ensures Read(Some(ir), ["editableAuthority"]) == Some(Bool(false))
  {
    hide Read, T, ReportHeader, Bound, AllDeclarations, Inventories;
  }

  /** Nothing is admitted without full evidence, on either side, and without findings. */
  lemma EvidenceIsComplete(h: Hash, ir: Json, report: Json, required: seq<Json>, forbidden: seq<Json>,
                           requireComplete: bool)
    requires Accepted(h, ir, report, required, forbidden, requireComplete)
    ensures Read(Some(report), ["findings"]) == Some(Arr([]))
    ensures Read(Some(report), ["zeroUnexplainedFindings"]) == Some(Bool(true))
    ensures TextAt(report, ["status"]) == TextAt(ir, ["status"]) == Some(T("passed"))
    ensures Read(Some(report), ["coverage", "directDeclarationInventory"]) == Some(Bool(true))
    ensures Read(Some(report), ["coverage", "typespecGeneratedJsonSchemaComparison"]) == Some(Bool(true))
    ensures Read(Some(report), ["coverage", "differentialInstanceValidation"]) == Some(Bool(true))
    ensures Read(Some(ir), ["coverage", "directDeclarationInventory"]) == Some(Bool(true))
    ensures Read(Some(ir), ["coverage", "typespecGeneratedJsonSchemaComparison"]) == Some(Bool(true))
    ensures Read(Some(ir), ["coverage", "differentialInstanceValidation"]) == Some(Bool(true))
    ensures Read(Some(report), ["differential", "disabled"]) != Some(Bool(true))
  {
    hide Read, T, Bound, AllDeclarations, Inventories, IrStatement;
    Passed(ir);
  }

  lemma Passed(ir: Json)
    requires IrStatement(ir)
    ensures TextAt(ir, ["status"]) == Some(T("passed")) && Read(Some(ir), ["admissible"]) == Some(Bool(true))
  {
    hide Read, T;
  }

  lemma RequirementsAreMet(h: Hash, ir: Json, report: Json, required: seq<Json>, forbidden: seq<Json>,
                           requireComplete: bool)
    requires Accepted(h, ir, report, required, forbidden, requireComplete)
    ensures Read(Some(ir), ["admission", "requirements", "exactInputDigests"]) == Some(Bool(true))
    ensures Read(Some(ir), ["admission", "requirements", "directDeclarationInventory"]) == Some(Bool(true))
    ensures Read(Some(ir), ["admission", "requirements", "generatedSchemaComparison"]) == Some(Bool(true))
    ensures Read(Some(ir), ["admission", "requirements", "differentialInstanceValidation"]) == Some(Bool(true))
    ensures Read(Some(ir), ["admission", "requirements", "zeroUnexplainedFindings"]) == Some(Bool(true))
  {
    hide Read, T, Bound, AllDeclarations, Inventories, IrStatement, ReportHeader;
  }

  /** Report and IR were made from inputs with the same three digests. */
  lemma InputsAgree(h: Hash, ir: Json, report: Json, required: seq<Json>, forbidden: seq<Json>, requireComplete: bool)
    requires Accepted(h, ir, report, required, forbidden, requireComplete)
    ensures SameDigest(report, ["inputs", "typespec", "digest"], ir, ["provenance", "typespec", "digest"])
    ensures SameDigest(report, ["inputs", "authoredJsonSchema", "digest"],
                       ir, ["provenance", "authoredJsonSchema", "digest"])
    ensures SameDigest(report, ["inputs", "generatedJsonSchema", "digest"],
                       ir, ["provenance", "generatedJsonSchema", "digest"])
  {
    hide Read, T, Receipt, SelfDigest, AllDeclarations, Inventories, IrHeader, ReportHeader, IsDigest;
    DigestIsHexText(Read(Some(report), ["inputs", "typespec", "digest"]));
    DigestIsHexText(Read(Some(report), ["inputs", "authoredJsonSchema", "digest"]));
    DigestIsHexText(Read(Some(report), ["inputs", "generatedJsonSchema", "digest"]));
  }

  /** The two reads give one text of 64 hexadecimal digits. */
  predicate SameDigest(v: Json, path: seq<string>, w: Json, path': seq<string>) {
    TextAt(v, path).Some? && HexText(TextAt(v, path).value) && TextAt(w, path') == TextAt(v, path)
  }

  /** The text under the first path is the hash of the canonical text of what stands under the second. */
  predicate Seals(h: Hash, v: Json, digest: seq<string>, schema: seq<string>) {
    Read(Some(v), schema).Some?
    && TextAt(v, digest) == Some(h(Stringify(Read(Some(v), schema).value)))
  }

  /** Every declaration seals its three schemas, and says where each of two comes from. */
  lemma DeclarationsAreSealed(h: Hash, ir: Json, report: Json, required: seq<Json>, forbidden: seq<Json>,
                              requireComplete: bool, i: nat)
    requires Accepted(h, ir, report, required, forbidden, requireComplete)
    requires ArrayAt(ir, "declarations") && i < |ItemsAt(ir, "declarations")|
    ensures var d := ItemsAt(ir, "declarations")[i];
            && Seals(h, d, ["assertionDigest"], ["assertionSchema"])
            && Seals(h, d, ["lanes", "typespecGeneratedJsonSchema", "schemaDigest"],
                     ["lanes", "typespecGeneratedJsonSchema", "normalizedSchema"])
            && Seals(h, d, ["lanes", "authoredJsonSchema", "schemaDigest"],
                     ["lanes", "authoredJsonSchema", "normalizedSchema"])
            && TextAt(d, ["lanes", "typespecGeneratedJsonSchema", "role"]) == Some(T("comparison-evidence-only"))
            && TextAt(d, ["lanes", "authoredJsonSchema", "role"]) == Some(T("independently-authored-authority"))
  {
    hide Read, T, Bound, Inventories, IrHeader, ReportHeader, IsDigest, Stringify;
    assert Declaration(h, ItemsAt(ir, "declarations")[i]);
    hide ItemsAt, ArrayAt;
  }

  /** The IR seals the report, and itself but for its identifier. */
  lemma EnvelopeIsSealed(h: Hash, ir: Json, report: Json, required: seq<Json>, forbidden: seq<Json>,
                         requireComplete: bool)
    requires Accepted(h, ir, report, required, forbidden, requireComplete)
    ensures TextAt(ir, ["admission", "receipt", "digest"]) == Some(h(Stringify(report)))
    ensures TextAt(ir, ["irId"]) == Some(h(Stringify(BodyOf(ir)))) && HexText(h(Stringify(BodyOf(ir))))
    ensures TextAt(ir, ["admission", "receipt", "status"]) == Some(T("passed"))
    ensures Read(Some(ir), ["admission", "receipt", "zeroUnexplainedFindings"]) == Some(Bool(true))
    ensures Read(Some(ir), ["admission", "receipt", "runId"]) == Read(Some(report), ["runId"])
    ensures Read(Some(ir), ["admission", "receipt", "schema"]) == Read(Some(report), ["schema"])
  {
    hide Read, T, LaneBinding, Inventories, IrHeader, ReportHeader, IsDigest, Stringify, BodyOf;
    DigestIsHexText(Read(Some(ir), ["irId"]));
  }

  /** A 64-digit text of `0123456789abcdef`. */
  predicate HexText(t: Text) {
    |t| == 64 && forall i :: 0 <= i < 64 ==>
      t[i] in [48, 49, 50, 51, 52, 53, 54, 55, 56, 57, 97, 98, 99, 100, 101, 102]
  }

  lemma DigestIsHexText(v: Option<Json>)
    ensures IsDigest(v) <==> v.Some? && v.value.Str? && HexText(v.value.text)
  {
    if v.Some? && v.value.Str? && |v.value.text| == 64 {
      forall i | 0 <= i < 64
        ensures LowerHex(v.value.text[i]) <==>
          v.value.text[i] in [48, 49, 50, 51, 52, 53, 54, 55, 56, 57, 97, 98, 99, 100, 101, 102]
      {}
    }
  }
}
