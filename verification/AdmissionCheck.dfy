/**
 `verifyContractIrEnvelope` check by check, in the order in which the first failing one is reported. It succeeds
 exactly on the envelopes that `Accepted` describes.
 */
module AdmissionCheck {
  import opened Bytes
  import opened Ordering
  import opened JsonText
  import opened JsonValue
  import opened JsonCanonical
  import opened JsonObject
  import opened ContractAdmission

  /** Why an envelope is refused: the first check that fails. */
  datatype Reason =
    NoObject | RequiredIds | ForbiddenIds | IrSchema | IrNotPassed | IrEditable | TypespecAuthority |
    SchemaAuthority | GeneratedAuthority | Precedence | ReportSchema | ReportNotPassed | Findings | RunId |
    Coverage | Differential | Requirement | ReceiptMissing | ReceiptIdentity | ReceiptNotPassed | ReceiptDigest
    | SelfDigestWrong | InputBinding | DeclarationsMissing | DeclarationNoObject | DeclarationIds | MapMissing |
    MappedTypespec | MappedGenerated | MappedAuthored | InventoryMismatch | RequiredAbsent | ForbiddenExported |
    ScopeMissing | ScopeCounts | ScopeComplete | NotComplete | AssertionDigest | GeneratedRole | GeneratedDigest
    | AuthoredRole | AuthoredDigest

  datatype Verdict = Verified(irId: Option<Json>, runId: Option<Json>) | Rejected(why: Reason)

  /** Sixty-four characters of `[a-f0-9]`. */
  method CheckDigest(v: Option<Json>) returns (ok: bool)
    ensures ok <==> IsDigest(v)
  {
    if v.None? || !v.value.Str? || |v.value.text| != 64 {
      return false;
    }
    var t := v.value.text;
    for i := 0 to 64
      invariant forall j :: 0 <= j < i ==> LowerHex(t[j])
    {
      if !(97 <= t[i] <= 102) && !(48 <= t[i] <= 57) {
        return false;
      }
    }
    return true;
  }

  // ----- Identities -----

  function TrimStart(t: Text): Text {
    if t != [] && Space(t[0]) then TrimStart(t[1..]) else t
  }

  function TrimEnd(t: Text): Text {
    if t != [] && Space(t[|t| - 1]) then TrimEnd(t[..|t| - 1]) else t
  }

  /** White space off both ends. */
  function Trim(t: Text): Text { TrimEnd(TrimStart(t)) }

  lemma {:induction false} TrimStartShorter(t: Text)
    ensures |TrimStart(t)| <= |t| && (|TrimStart(t)| < |t| || TrimStart(t) == t)
    ensures (TrimStart(t) == t <==> t == [] || !Space(t[0]))
  {
    if t != [] && Space(t[0]) {
      TrimStartShorter(t[1..]);
    }
  }

  lemma {:induction false} TrimEndShorter(t: Text)
    ensures |TrimEnd(t)| <= |t| && (|TrimEnd(t)| < |t| || TrimEnd(t) == t)
    ensures (TrimEnd(t) == t <==> t == [] || !Space(t[|t| - 1]))
  {
    if t != [] && Space(t[|t| - 1]) {
      TrimEndShorter(t[..|t| - 1]);
    }
  }

  /** A text is an identity if it is not empty and trimming leaves it alone. */
  lemma IdentityIsTrimmed(t: Text)
    ensures Identity(Some(Str(t))) <==> t != [] && Trim(t) == t
  {
    TrimStartShorter(t);
    TrimEndShorter(TrimStart(t));
    TrimEndShorter(t);
  }

  /** The white space of ECMAScript, one character after the other. */
  lemma SpacesListed(c: Code)
    ensures Space(c) <==> c in [9, 10, 11, 12, 13, 32, 160, 5760, 8192, 8193, 8194, 8195, 8196, 8197, 8198, 8199, 8200,
                                8201, 8202, 8232, 8233, 8239, 8287, 12288, 65279]
  {}

  method CheckIdentities(values: seq<Option<Json>>, nonempty: bool) returns (ok: bool)
    ensures ok <==> Identities(values, nonempty)
  {
    if nonempty && |values| == 0 {
      return false;
    }
    for i := 0 to |values|
      invariant forall j :: 0 <= j < i ==> Identity(values[j])
    {
      if values[i].None? || !values[i].value.Str? {
        return false;
      }
      IdentityIsTrimmed(values[i].value.text);
      if Trim(values[i].value.text) != values[i].value.text || |values[i].value.text| == 0 {
        return false;
      }
    }
    var seen: set<Option<Json>> := {};
    for i := 0 to |values|
      invariant seen == Elements(values[..i]) && |seen| <= i
      invariant |seen| == i <==> Distinct(values[..i])
    {
      DistinctSnoc(values, i);
      seen := seen + {values[i]};
    }
    assert values[..|values|] == values;
    return |seen| == |values|;
  }

  lemma DistinctSnoc<A>(s: seq<A>, i: nat)
    requires i < |s|
    ensures Distinct(s[..i + 1]) <==> Distinct(s[..i]) && s[i] !in s[..i]
    ensures Elements(s[..i + 1]) == Elements(s[..i]) + {s[i]}
  {
    var a, b := s[..i], s[..i + 1];
    assert b == a + [s[i]];
    assert forall j :: 0 <= j < i ==> b[j] == a[j];
    assert s[i] in a <==> exists j :: 0 <= j < i && b[j] == b[i];
  }

  function Elements<A>(s: seq<A>): set<A> { set x | x in s }

  // ----- The checks in order -----

  predicate Flag(v: Json, path: seq<string>, field: string) { IsTrue(v, path + [field]) }

  method CheckFlags(v: Json, path: seq<string>, fields: seq<string>) returns (ok: bool)
    ensures ok <==> forall f :: f in fields ==> Flag(v, path, f)
  {
    hide Flag;
    for i := 0 to |fields|
      invariant forall j :: 0 <= j < i ==> Flag(v, path, fields[j])
    {
      if !Flag(v, path, fields[i]) {
        return false;
      }
    }
    return true;
  }

  method CheckIr(ir: Json) returns (why: Option<Reason>)
    ensures why.None? <==> IrStatement(ir)
  {
    hide Read, IsText, IsTrue, PeerAuthorities;
    if !IsText(ir, ["schema"], "ores.typespec-json-schema-validator.contract-ir/v1") {
      return Some(IrSchema);
    }
    if !IsText(ir, ["status"], "passed") || !IsTrue(ir, ["admissible"]) {
      return Some(IrNotPassed);
    }
    if !IsText(ir, ["role"], "downstream-derived-parity-artifact")
       || Read(Some(ir), ["editableAuthority"]) != Some(Bool(false)) {
      return Some(IrEditable);
    }
    why := CheckAuthorities(ir);
  }

  method CheckAuthorities(ir: Json) returns (why: Option<Reason>)
    ensures why.None? <==> PeerAuthorities(ir)
  {
    hide Read, IsText;
    if !IsText(ir, ["authorities", "typespec"], "independently-authored") {
      return Some(TypespecAuthority);
    }
    if !IsText(ir, ["authorities", "jsonSchema"], "independently-authored") {
      return Some(SchemaAuthority);
    }
    if !IsText(ir, ["authorities", "generatedJsonSchema"], "comparison-evidence-only") {
      return Some(GeneratedAuthority);
    }
    if !IsText(ir, ["authorities", "precedence"], "none") {
      return Some(Precedence);
    }
    return None;
  }

  method CheckReport(report: Json) returns (why: Option<Reason>)
    ensures why.None? <==> ReportStatement(report)
  {
    hide Read, IsText, IsTrue, IsDigest;
    if !IsText(report, ["schema"], "ores.typespec-json-schema-validator.report/v1") {
      return Some(ReportSchema);
    }
    if !IsText(report, ["status"], "passed") || !IsTrue(report, ["zeroUnexplainedFindings"]) {
      return Some(ReportNotPassed);
    }
    if Read(Some(report), ["findings"]) != Some(Arr([])) {
      return Some(Findings);
    }
    var run := CheckDigest(Read(Some(report), ["runId"]));
    return if run then None else Some(RunId);
  }

  method CheckHeaders(ir: Json, report: Json) returns (why: Option<Reason>)
    requires ir.Obj? && report.Obj?
    ensures why.None? <==> IrHeader(ir) && ReportHeader(report)
  {
    hide Read, T, IsText, IsTrue, IsDigest, IrStatement, ReportStatement;
    why := CheckIr(ir);
    if why.Some? {
      return why;
    }
    why := CheckReport(report);
    if why.Some? {
      return why;
    }
    var coverage := CheckEvidence(ir, report);
    if !coverage {
      return Some(Coverage);
    }
    if IsTrue(report, ["differential", "disabled"]) {
      return Some(Differential);
    }
    var requirements := CheckRequirements(ir);
    return if requirements then None else Some(Requirement);
  }

  method CheckEvidence(ir: Json, report: Json) returns (ok: bool)
    ensures ok <==> forall f :: f in COVERAGE ==> IsTrue(report, ["coverage", f]) && IsTrue(ir, ["coverage", f])
  {
    hide IsTrue;
    var fields := ["directDeclarationInventory", "typespecGeneratedJsonSchemaComparison",
                   "differentialInstanceValidation"];
    assert fields == COVERAGE;
    hide COVERAGE;
    var inReport := CheckFlags(report, ["coverage"], fields);
    var inIr := CheckFlags(ir, ["coverage"], fields);
    forall f
      ensures (Flag(ir, ["coverage"], f) <==> IsTrue(ir, ["coverage", f]))
        && (Flag(report, ["coverage"], f) <==> IsTrue(report, ["coverage", f]))
    {
      assert ["coverage"] + [f] == ["coverage", f];
    }
    return inReport && inIr;
  }

  method CheckRequirements(ir: Json) returns (ok: bool)
    ensures ok <==> forall f :: f in REQUIREMENTS ==> IsTrue(ir, ["admission", "requirements", f])
  {
    hide IsTrue;
    var fields := ["exactInputDigests", "directDeclarationInventory", "generatedSchemaComparison",
                   "differentialInstanceValidation", "zeroUnexplainedFindings"];
    assert fields == REQUIREMENTS;
    hide REQUIREMENTS;
    ok := CheckFlags(ir, ["admission", "requirements"], fields);
    forall f
      ensures Flag(ir, ["admission", "requirements"], f) <==> IsTrue(ir, ["admission", "requirements", f])
    {
      assert ["admission", "requirements"] + [f] == ["admission", "requirements", f];
    }
  }

  method CheckReceipt(ir: Json, report: Json) returns (why: Option<Reason>)
    ensures why.None? <==> ReceiptNames(ir, report)
  {
    hide Read, T, IsText, IsTrue;
    var receipt := Read(Some(ir), ["admission", "receipt"]);
    if receipt.None? || !receipt.value.Obj? {
      return Some(ReceiptMissing);
    }
    if Read(Some(ir), ["admission", "receipt", "schema"]) != Read(Some(report), ["schema"])
       || Read(Some(ir), ["admission", "receipt", "runId"]) != Read(Some(report), ["runId"]) {
      return Some(ReceiptIdentity);
    }
    if !IsText(ir, ["admission", "receipt", "status"], "passed")
       || !IsTrue(ir, ["admission", "receipt", "zeroUnexplainedFindings"]) {
      return Some(ReceiptNotPassed);
    }
    return None;
  }

  method CheckBindings(h: Hash, ir: Json, report: Json) returns (why: Option<Reason>)
    ensures why.None? <==> Bound(h, ir, report)
  {
    hide Read, IsDigest, ReceiptNames, LaneBinding, Stringify, BodyOf;
    why := CheckReceipt(ir, report);
    if why.Some? {
      return why;
    }
    if Read(Some(ir), ["admission", "receipt", "digest"]) != Some(Str(h(Stringify(report)))) {
      return Some(ReceiptDigest);
    }
    var irId := CheckDigest(Read(Some(ir), ["irId"]));
    if !irId || Read(Some(ir), ["irId"]) != Some(Str(h(Stringify(BodyOf(ir))))) {
      return Some(SelfDigestWrong);
    }
    var lanes := CheckLanes(ir, report);
    if !lanes {
      return Some(InputBinding);
    }
    return None;
  }

  /** Both digests of a lane are digests, and the same one. */
  predicate LaneBound(ir: Json, report: Json, lane: string) {
    IsDigest(Read(Some(report), ["inputs", lane, "digest"])) && IsDigest(Read(Some(ir), ["provenance", lane, "digest"]))
    && Read(Some(report), ["inputs", lane, "digest"]) == Read(Some(ir), ["provenance", lane, "digest"])
  }

  method CheckLanes(ir: Json, report: Json) returns (ok: bool)
    ensures ok <==> LaneBinding(ir, report)
  {
    hide Read, IsDigest;
    var lanes := ["typespec", "authoredJsonSchema", "generatedJsonSchema"];
    assert lanes == LANES;
    hide LANES;
    for i := 0 to |lanes|
      invariant forall j :: 0 <= j < i ==> LaneBound(ir, report, lanes[j])
    {
      var reported := CheckDigest(Read(Some(report), ["inputs", lanes[i], "digest"]));
      var held := CheckDigest(Read(Some(ir), ["provenance", lanes[i], "digest"]));
      if !reported || !held
         || Read(Some(report), ["inputs", lanes[i], "digest"]) != Read(Some(ir), ["provenance", lanes[i], "digest"]) {
        assert lanes[i] in lanes;
        return false;
      }
    }
    return true;
  }

  method CheckObjects(items: seq<Json>) returns (ok: bool)
    ensures ok <==> Objects(items)
  {
    for i := 0 to |items|
      invariant forall j :: 0 <= j < i ==> items[j].Obj?
    {
      if !items[i].Obj? {
        return false;
      }
    }
    return true;
  }

  method CheckInventories(ir: Json, report: Json, required: seq<Json>, forbidden: seq<Json>, requireComplete: bool)
    returns (why: Option<Reason>)
    requires Identities(Somes(required), true) && Identities(Somes(forbidden), false)
    ensures why.None? <==> Inventories(ir, report, required, forbidden, requireComplete)
  {
    hide Read, T, Identities, Column, Objects, DecimalText;
    if !ArrayAt(ir, "declarations") {
      return Some(DeclarationsMissing);
    }
    var declarations := ItemsAt(ir, "declarations");
    var objects := CheckObjects(declarations);
    if !objects {
      return Some(DeclarationNoObject);
    }
    var admitted := Column(declarations, "id");
    var ids := CheckIdentities(admitted, true);
    if !ids {
      return Some(DeclarationIds);
    }
    var map_ := if ArrayAt(report, "declarationMap") then ItemsAt(report, "declarationMap") else [];
    objects := CheckObjects(map_);
    if !ArrayAt(report, "declarationMap") || !objects {
      return Some(MapMissing);
    }
    why := CheckColumns(map_);
    if why.Some? {
      return why;
    }
    why := CheckNames(admitted, Column(map_, "typespec"), required, forbidden);
    if why.Some? {
      return why;
    }
    why := CheckScope(ir, |admitted|, requireComplete);
  }

  method CheckColumns(map_: seq<Json>) returns (why: Option<Reason>)
    ensures why.None? <==> Identities(Column(map_, "typespec"), true) && Identities(Column(map_, "generated"), true)
                           && Identities(Column(map_, "authored"), true)
  {
    hide Identities, Column;
    var ids := CheckIdentities(Column(map_, "typespec"), true);
    if !ids {
      return Some(MappedTypespec);
    }
    ids := CheckIdentities(Column(map_, "generated"), true);
    if !ids {
      return Some(MappedGenerated);
    }
    ids := CheckIdentities(Column(map_, "authored"), true);
    return if ids then None else Some(MappedAuthored);
  }

  method CheckNames(admitted: seq<Option<Json>>, mapped: seq<Option<Json>>, required: seq<Json>, forbidden: seq<Json>)
    returns (why: Option<Reason>)
    ensures why.None? <==>
      |admitted| == |mapped| && (forall id :: id in admitted ==> id in mapped)
      && (forall id :: id in required ==> Some(id) in admitted)
      && forall id :: id in forbidden ==> Some(id) !in admitted
  {
    if |admitted| != |mapped| {
      return Some(InventoryMismatch);
    }
    for i := 0 to |admitted|
      invariant forall j :: 0 <= j < i ==> admitted[j] in mapped
    {
      if admitted[i] !in mapped {
        return Some(InventoryMismatch);
      }
    }
    for i := 0 to |required|
      invariant forall j :: 0 <= j < i ==> Some(required[j]) in admitted
    {
      if Some(required[i]) !in admitted {
        return Some(RequiredAbsent);
      }
    }
    for i := 0 to |forbidden|
      invariant forall j :: 0 <= j < i ==> Some(forbidden[j]) !in admitted
    {
      if Some(forbidden[i]) in admitted {
        return Some(ForbiddenExported);
      }
    }
    return None;
  }

  method CheckScope(ir: Json, admitted: nat, requireComplete: bool) returns (why: Option<Reason>)
    ensures why.None? <==>
      ArrayAt(ir, "excludedDeclarations") && ArrayAt(ir, "outOfScopeDeclarations")
      && var excluded, outOfScope := |ItemsAt(ir, "excludedDeclarations")|, |ItemsAt(ir, "outOfScopeDeclarations")|;
         var complete := excluded == 0 && outOfScope == 0;
         Read(Some(ir), ["admission", "scope", "admittedDeclarations"]) == Count(admitted)
         && Read(Some(ir), ["admission", "scope", "excludedDeclarations"]) == Count(excluded)
         && Read(Some(ir), ["admission", "scope", "outOfScopeDeclarations"]) == Count(outOfScope)
         && Read(Some(ir), ["admission", "scope", "complete"]) == Some(Bool(complete))
         && (requireComplete ==> complete)
  {
    hide Read, T, DecimalText;
    if !ArrayAt(ir, "excludedDeclarations") || !ArrayAt(ir, "outOfScopeDeclarations") {
      return Some(ScopeMissing);
    }
    var excluded, outOfScope := |ItemsAt(ir, "excludedDeclarations")|, |ItemsAt(ir, "outOfScopeDeclarations")|;
    if Read(Some(ir), ["admission", "scope", "admittedDeclarations"]) != Some(Num(DecimalText(admitted)))
       || Read(Some(ir), ["admission", "scope", "excludedDeclarations"]) != Some(Num(DecimalText(excluded)))
       || Read(Some(ir), ["admission", "scope", "outOfScopeDeclarations"]) != Some(Num(DecimalText(outOfScope))) {
      return Some(ScopeCounts);
    }
    var complete := excluded == 0 && outOfScope == 0;
    if Read(Some(ir), ["admission", "scope", "complete"]) != Some(Bool(complete)) {
      return Some(ScopeComplete);
    }
    if requireComplete && !complete {
      return Some(NotComplete);
    }
    return None;
  }

  method CheckSchema(h: Hash, d: Json, digest: seq<string>, schema: seq<string>) returns (ok: bool)
    ensures ok <==> DigestOver(h, d, digest, schema)
  {
    hide Read, Stringify;
    var held, over := Read(Some(d), digest), Read(Some(d), schema);
    if over.None? {
      return false;
    }
    var formed := CheckDigest(held);
    return formed && held == Some(Str(h(Stringify(over.value))));
  }

  method CheckDeclaration(h: Hash, d: Json) returns (why: Option<Reason>)
    ensures why.None? <==> Declaration(h, d)
  {
    hide Read, T, DigestOver;
    var ok := CheckSchema(h, d, ["assertionDigest"], ["assertionSchema"]);
    if !ok {
      return Some(AssertionDigest);
    }
    if !IsText(d, ["lanes", "typespecGeneratedJsonSchema", "role"], "comparison-evidence-only") {
      return Some(GeneratedRole);
    }
    ok := CheckSchema(h, d, ["lanes", "typespecGeneratedJsonSchema", "schemaDigest"],
                      ["lanes", "typespecGeneratedJsonSchema", "normalizedSchema"]);
    if !ok {
      return Some(GeneratedDigest);
    }
    if !IsText(d, ["lanes", "authoredJsonSchema", "role"], "independently-authored-authority") {
      return Some(AuthoredRole);
    }
    ok := CheckSchema(h, d, ["lanes", "authoredJsonSchema", "schemaDigest"],
                      ["lanes", "authoredJsonSchema", "normalizedSchema"]);
    return if ok then None else Some(AuthoredDigest);
  }

  method CheckDeclarations(h: Hash, ir: Json) returns (why: Option<Reason>)
    requires ArrayAt(ir, "declarations")
    ensures why.None? <==> AllDeclarations(h, ir)
  {
    hide ArrayAt, ItemsAt, Declaration;
    var declarations := ItemsAt(ir, "declarations");
    for i := 0 to |declarations|
      invariant forall j :: 0 <= j < i ==> Declaration(h, declarations[j])
    {
      why := CheckDeclaration(h, declarations[i]);
      if why.Some? {
        return why;
      }
    }
    return None;
  }

  /** All checks; on success the identifier and the run that was verified. */
  method VerifyContractIrEnvelope(h: Hash, ir: Json, report: Json, required: seq<Json>, forbidden: seq<Json>,
                                  requireComplete: bool)
    returns (r: Verdict)
    ensures r.Verified? <==> Accepted(h, ir, report, required, forbidden, requireComplete)
    ensures r.Verified? ==> r == Verified(Read(Some(ir), ["irId"]), Read(Some(report), ["runId"]))
  {
    hide IrHeader, ReportHeader, Bound, Inventories, AllDeclarations, Identities, Read, ArrayAt;
    if !ir.Obj? || !report.Obj? {
      Rejects(h, ir, report, required, forbidden, requireComplete);
      return Rejected(NoObject);
    }
    var ids := CheckIdentities(Somes(required), true);
    if !ids {
      Rejects(h, ir, report, required, forbidden, requireComplete);
      return Rejected(RequiredIds);
    }
    ids := CheckIdentities(Somes(forbidden), false);
    if !ids {
      Rejects(h, ir, report, required, forbidden, requireComplete);
      return Rejected(ForbiddenIds);
    }
    var why := CheckHeaders(ir, report);
    if why.Some? {
      return Rejected(why.value);
    }
    why := CheckBindings(h, ir, report);
    if why.Some? {
      return Rejected(why.value);
    }
    why := CheckInventories(ir, report, required, forbidden, requireComplete);
    if why.Some? {
      return Rejected(why.value);
    }
    Rejects(h, ir, report, required, forbidden, requireComplete);
    why := CheckDeclarations(h, ir);
    if why.Some? {
      return Rejected(why.value);
    }
    return Verified(Read(Some(ir), ["irId"]), Read(Some(report), ["runId"]));
  }

  /** What the first checks demand follows from the rest. */
  lemma Rejects(h: Hash, ir: Json, report: Json, required: seq<Json>, forbidden: seq<Json>, requireComplete: bool)
    ensures IrHeader(ir) && ReportHeader(report) ==> ir.Obj? && report.Obj?
    ensures Inventories(ir, report, required, forbidden, requireComplete) ==>
      Identities(Somes(required), true) && Identities(Somes(forbidden), false) && ArrayAt(ir, "declarations")
  {
    hide Read, Identities, IsDigest;
  }
}
