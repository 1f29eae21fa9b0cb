/**
 Admission of a Contract IR envelope. Every check is on values; the hash of canonical text is a
 parameter, and where a property depends on it, it says which texts would have to collide.
 */
module ContractAdmission {
  import opened Bytes
  import opened Ordering
  import opened JsonText
  import opened JsonValue
  import opened JsonCanonical
  import opened JsonObject

  // ----- Reading values -----

  predicate IsText(v: Json, path: seq<string>, s: string) { Read(Some(v), path) == Some(Str(T(s))) }

  predicate IsTrue(v: Json, path: seq<string>) { Read(Some(v), path) == Some(Bool(true)) }

  predicate LowerHex(c: Code) { 48 <= c <= 57 || 97 <= c <= 102 }

  predicate IsDigest(v: Option<Json>) {
    v.Some? && v.value.Str? && |v.value.text| == 64 && forall i :: 0 <= i < 64 ==> LowerHex(v.value.text[i])
  }

  /** ECMAScript white space and line terminators. */
  predicate Space(c: Code) {
    9 <= c <= 13 || c == 0x20 || c == 0xA0 || c == 0x1680 || 0x2000 <= c <= 0x200A || c == 0x2028 || c == 0x2029
    || c == 0x202F || c == 0x205F || c == 0x3000 || c == 0xFEFF
  }

  /** A nonempty string that trimming leaves alone. */
  predicate Identity(v: Option<Json>) {
    v.Some? && v.value.Str? && v.value.text != [] && !Space(v.value.text[0]) && !Space(v.value.text[|v.value.text| - 1])
  }

  /** Distinct identities. */
  predicate Identities(ids: seq<Option<Json>>, nonempty: bool) {
    (nonempty ==> ids != []) && (forall i :: 0 <= i < |ids| ==> Identity(ids[i])) && Distinct(ids)
  }

  function Somes(items: seq<Json>): seq<Option<Json>> {
    Map((v: Json) => Some(v), items)
  }

  function Column(items: seq<Json>, key: string): seq<Option<Json>> {
    Map((v: Json) => Get(v, T(key)), items)
  }

  function Count(n: nat): Option<Json> { Some(Num(DecimalText(n))) }

  function Remove(ms: seq<Member>, key: Text): seq<Member> {
    if ms == [] then [] else (if ms[0].key == key then [] else [ms[0]]) + Remove(ms[1..], key)
  }

  /** The IR without its own identifier. */
  function BodyOf(ir: Json): Json {
    if ir.Obj? then Obj(Remove(ir.members, T("irId"))) else ir
  }

  type Hash = Text -> Text

  ghost function Sha256Json(h: Hash, v: Json): Option<Json> {
    Some(Str(h(Stringify(v))))
  }

  // ----- The checks -----

  const CONTRACT_IR_SCHEMA: string := "ores.typespec-json-schema-validator.contract-ir/v1"
  const PARITY_REPORT_SCHEMA: string := "ores.typespec-json-schema-validator.report/v1"
  const COVERAGE: seq<string> :=
    ["directDeclarationInventory", "typespecGeneratedJsonSchemaComparison", "differentialInstanceValidation"]
  const REQUIREMENTS: seq<string> :=
    ["exactInputDigests", "directDeclarationInventory", "generatedSchemaComparison", "differentialInstanceValidation",
     "zeroUnexplainedFindings"]
  const LANES: seq<string> := ["typespec", "authoredJsonSchema", "generatedJsonSchema"]

  predicate IrHeader(ir: Json) {
    && ir.Obj? && IrStatement(ir)
    && (forall f :: f in REQUIREMENTS ==> IsTrue(ir, ["admission", "requirements", f]))
    && (forall f :: f in COVERAGE ==> IsTrue(ir, ["coverage", f]))
  }

  predicate IrStatement(ir: Json) {
    && IsText(ir, ["schema"], CONTRACT_IR_SCHEMA)
    && IsText(ir, ["status"], "passed") && IsTrue(ir, ["admissible"])
    && IsText(ir, ["role"], "downstream-derived-parity-artifact")
    && Read(Some(ir), ["editableAuthority"]) == Some(Bool(false))
    && PeerAuthorities(ir)
  }

  /** Two peers, and evidence that outranks neither. */
  predicate PeerAuthorities(ir: Json) {
    && IsText(ir, ["authorities", "typespec"], "independently-authored")
    && IsText(ir, ["authorities", "jsonSchema"], "independently-authored")
    && IsText(ir, ["authorities", "generatedJsonSchema"], "comparison-evidence-only")
    && IsText(ir, ["authorities", "precedence"], "none")
  }

  predicate ReportHeader(report: Json) {
    && report.Obj? && ReportStatement(report)
    && (forall f :: f in COVERAGE ==> IsTrue(report, ["coverage", f]))
    && !IsTrue(report, ["differential", "disabled"])
  }

  predicate ReportStatement(report: Json) {
    && IsText(report, ["schema"], PARITY_REPORT_SCHEMA)
    && IsText(report, ["status"], "passed") && IsTrue(report, ["zeroUnexplainedFindings"])
    && Read(Some(report), ["findings"]) == Some(Arr([]))
    && IsDigest(Read(Some(report), ["runId"]))
  }

  /** The receipt inside the IR binds the report. */
  ghost predicate Receipt(h: Hash, ir: Json, report: Json) {
    && ReceiptNames(ir, report)
    && Read(Some(ir), ["admission", "receipt", "digest"]) == Sha256Json(h, report)
  }

  predicate ReceiptNames(ir: Json, report: Json) {
    var receipt := ["admission", "receipt"];
    && Read(Some(ir), receipt).Some? && Read(Some(ir), receipt).value.Obj?
    && Read(Some(ir), ["admission", "receipt", "schema"]) == Read(Some(report), ["schema"])
    && Read(Some(ir), ["admission", "receipt", "runId"]) == Read(Some(report), ["runId"])
    && IsText(ir, ["admission", "receipt", "status"], "passed")
    && IsTrue(ir, ["admission", "receipt", "zeroUnexplainedFindings"])
  }

  /** The IR's identifier binds the rest of the IR. */
  ghost predicate SelfDigest(h: Hash, ir: Json) {
    IsDigest(Read(Some(ir), ["irId"])) && Read(Some(ir), ["irId"]) == Sha256Json(h, BodyOf(ir))
  }

  /** Both documents name the same digest for every input lane. */
  predicate LaneBinding(ir: Json, report: Json) {
    forall lane :: lane in LANES ==>
      IsDigest(Read(Some(report), ["inputs", lane, "digest"]))
      && Read(Some(report), ["inputs", lane, "digest"]) == Read(Some(ir), ["provenance", lane, "digest"])
  }

  ghost predicate Bound(h: Hash, ir: Json, report: Json) {
    Receipt(h, ir, report) && SelfDigest(h, ir) && LaneBinding(ir, report)
  }

  predicate ArrayAt(v: Json, key: string) {
    Read(Some(v), [key]).Some? && Read(Some(v), [key]).value.Arr?
  }

  function ItemsAt(v: Json, key: string): seq<Json>
    requires ArrayAt(v, key)
  {
    Read(Some(v), [key]).value.items
  }

  predicate Objects(items: seq<Json>) {
    forall i :: 0 <= i < |items| ==> items[i].Obj?
  }

  /** The inventories agree with each other, with what the consumer requires and with the scope counts. */
  ghost predicate Inventories(ir: Json, report: Json, required: seq<Json>, forbidden: seq<Json>,
                              requireComplete: bool) {
    && Identities(Somes(required), true) && Identities(Somes(forbidden), false)
    && ArrayAt(ir, "declarations") && Objects(ItemsAt(ir, "declarations"))
    && ArrayAt(report, "declarationMap") && Objects(ItemsAt(report, "declarationMap"))
    && ArrayAt(ir, "excludedDeclarations") && ArrayAt(ir, "outOfScopeDeclarations")
    && var admitted := Column(ItemsAt(ir, "declarations"), "id");
       var mapped := Column(ItemsAt(report, "declarationMap"), "typespec");
       var excluded, outOfScope := |ItemsAt(ir, "excludedDeclarations")|, |ItemsAt(ir, "outOfScopeDeclarations")|;
       var complete := excluded == 0 && outOfScope == 0;
       && Identities(admitted, true) && Identities(mapped, true)
       && Identities(Column(ItemsAt(report, "declarationMap"), "generated"), true)
       && Identities(Column(ItemsAt(report, "declarationMap"), "authored"), true)
       && |admitted| == |mapped| && (forall id :: id in admitted ==> id in mapped)
       && (forall id :: id in required ==> Some(id) in admitted)
          && (forall id :: id in forbidden ==> Some(id) !in admitted)
       && Read(Some(ir), ["admission", "scope", "admittedDeclarations"]) == Count(|admitted|)
       && Read(Some(ir), ["admission", "scope", "excludedDeclarations"]) == Count(excluded)
       && Read(Some(ir), ["admission", "scope", "outOfScopeDeclarations"]) == Count(outOfScope)
       && Read(Some(ir), ["admission", "scope", "complete"]) == Some(Bool(complete))
       && (requireComplete ==> complete)
  }

  /** A digest over a schema held beside it. */
  ghost predicate DigestOver(h: Hash, d: Json, digest: seq<string>, schema: seq<string>) {
    Read(Some(d), schema).Some? && IsDigest(Read(Some(d), digest))
      && Read(Some(d), digest) == Sha256Json(h, Read(Some(d), schema).value)
  }

  ghost predicate Declaration(h: Hash, d: Json) {
    && DigestOver(h, d, ["assertionDigest"], ["assertionSchema"])
    && IsText(d, ["lanes", "typespecGeneratedJsonSchema", "role"], "comparison-evidence-only")
    && DigestOver(h, d, ["lanes", "typespecGeneratedJsonSchema", "schemaDigest"],
                  ["lanes", "typespecGeneratedJsonSchema", "normalizedSchema"])
    && IsText(d, ["lanes", "authoredJsonSchema", "role"], "independently-authored-authority")
    && DigestOver(h, d, ["lanes", "authoredJsonSchema", "schemaDigest"],
                  ["lanes", "authoredJsonSchema", "normalizedSchema"])
  }

  /** `verifyContractIrEnvelope` on an IR, a report and the consumer's lists. */
  ghost predicate Accepted(h: Hash, ir: Json, report: Json, required: seq<Json>, forbidden: seq<Json>,
                           requireComplete: bool) {
    && IrHeader(ir) && ReportHeader(report) && Bound(h, ir, report)
    && Inventories(ir, report, required, forbidden, requireComplete) && AllDeclarations(h, ir)
  }

  ghost predicate AllDeclarations(h: Hash, ir: Json) {
    ArrayAt(ir, "declarations")
    && forall i :: 0 <= i < |ItemsAt(ir, "declarations")| ==> Declaration(h, ItemsAt(ir, "declarations")[i])
  }

  // ----- The identifier determines the envelope -----

  lemma {:induction false} RemoveKeeps(ms: seq<Member>, key: Text)
    requires DistinctMembers(ms) && forall i :: 0 <= i < |ms| ==> WellFormed(ms[i].value)
    ensures DistinctMembers(Remove(ms, key))
      && forall i :: 0 <= i < |Remove(ms, key)| ==> WellFormed(Remove(ms, key)[i].value)
    ensures forall m :: m in Remove(ms, key) <==> m in ms && m.key != key
  {
    if ms != [] {
      RemoveKeeps(ms[1..], key);
      var r, t := Remove(ms, key), Remove(ms[1..], key);
      forall i | 0 <= i < |t|
        ensures t[i].key != ms[0].key
      {
        assert t[i] in ms[1..];
      }
      forall m
        ensures m in ms <==> m == ms[0] || m in ms[1..]
      {
        assert ms == [ms[0]] + ms[1..];
      }
    }
  }

  /** Any read that does not start at the removed key sees the same in the body. */
  lemma BodyReads(ir: Json, key: string, path: seq<string>)
    requires ir.Obj? && WellFormed(ir) && T(key) != T("irId")
    ensures WellFormed(BodyOf(ir)) && Read(Some(BodyOf(ir)), [key] + path) == Read(Some(ir), [key] + path)
  {
    RemoveKeeps(ir.members, T("irId"));
    var k := T(key);
    FindMember(ir.members, k);
    FindMember(BodyOf(ir).members, k);
    var rest := BodyOf(ir).members;
    if i :| 0 <= i < |ir.members| && ir.members[i].key == k {
      assert ir.members[i] in rest;
      var j :| 0 <= j < |rest| && rest[j] == ir.members[i];
    } else {
      forall j | 0 <= j < |rest|
        ensures rest[j].key != k
      {
        assert rest[j] in ir.members;
      }
    }
    assert Get(BodyOf(ir), k) == Get(ir, k);
    assert ([key] + path)[0] == key && ([key] + path)[1..] == path;
  }

  /** Two different canonical texts with one hash. */
  ghost predicate Collides(h: Hash, v: Json, w: Json) {
    Stringify(v) != Stringify(w) && h(Stringify(v)) == h(Stringify(w))
  }

  /**
   Two accepted envelopes with one identifier have the same IR body and the same parity report, up to key
   order, unless the hash collides on the two bodies or on the two reports.
   */
  lemma IdentifierDetermines(h: Hash, ir: Json, report: Json, ir': Json, report': Json)
    requires WellFormed(ir) && WellFormed(report) && WellFormed(ir') && WellFormed(report')
    requires ir.Obj? && ir'.Obj? && Bound(h, ir, report) && Bound(h, ir', report')
    requires Read(Some(ir), ["irId"]) == Read(Some(ir'), ["irId"])
    ensures Collides(h, BodyOf(ir), BodyOf(ir')) || Collides(h, report, report')
            || (Equiv(BodyOf(ir), BodyOf(ir')) && Equiv(report, report'))
  {
    hide Read, Equiv, WellFormed, IsText, IsTrue, LaneBinding, BodyOf, Stringify;
    var body, body' := BodyOf(ir), BodyOf(ir');
    var path := ["admission"] + ["receipt", "digest"];
    ReceiptInBody(ir);
    ReceiptInBody(ir');
    if !Collides(h, body, body') && !Collides(h, report, report') {
      StringifyDecides(body, body');
      assert path == ["admission", "receipt", "digest"];
      DigestsAgree(body, body', path);
      StringifyDecides(report, report');
    }
  }

  lemma ReceiptInBody(ir: Json)
    requires ir.Obj? && WellFormed(ir)
    ensures WellFormed(BodyOf(ir))
    ensures Read(Some(BodyOf(ir)), ["admission"] + ["receipt", "digest"]) ==
      Read(Some(ir), ["admission"] + ["receipt", "digest"])
  {
    assert |T("admission")| == 9 && |T("irId")| == 4;
    BodyReads(ir, "admission", ["receipt", "digest"]);
  }

  lemma DigestsAgree(v: Json, w: Json, path: seq<string>)
    requires WellFormed(v) && WellFormed(w) && Equiv(v, w)
    requires Read(Some(v), path).Some? && Read(Some(v), path).value.Str?
    ensures Read(Some(w), path) == Read(Some(v), path)
  {
    ReadUpToOrder(Some(v), Some(w), path);
    SameScalar(Read(Some(v), path), Read(Some(w), path));
  }

  /** The identifier itself is the only member the body leaves out. */
  lemma BodyAndIdentifier(ir: Json, ir': Json)
    requires WellFormed(ir) && WellFormed(ir') && ir.Obj? && ir'.Obj?
    requires IsDigest(Read(Some(ir), ["irId"])) && Read(Some(ir), ["irId"]) == Read(Some(ir'), ["irId"])
    requires Equiv(BodyOf(ir), BodyOf(ir'))
    ensures Equiv(ir, ir')
  {
    hide Remove, T, Equiv, WellFormed, Read, HasMatch, Find;
    var key := T("irId");
    var a, b := ir.members, ir'.members;
    IdentifierMember(ir);
    IdentifierMember(ir');
    MembersWellFormed(ir);
    MembersWellFormed(ir');
    RemoveKeeps(a, key);
    RemoveKeeps(b, key);
    EquivObjects(Remove(a, key), Remove(b, key));
    forall i | 0 <= i < |a|
      ensures HasMatch(a[i], b)
    {
      if a[i].key == key {
        IdentifierMatches(a, b, key, i);
      } else {
        assert a[i] in Remove(a, key);
        var k :| 0 <= k < |Remove(a, key)| && Remove(a, key)[k] == a[i];
        MatchInLarger(a[i], Remove(b, key), b);
      }
    }
    EquivObjects(a, b);
  }

  lemma MembersWellFormed(v: Json)
    requires WellFormed(v) && v.Obj?
    ensures DistinctMembers(v.members) && forall i :: 0 <= i < |v.members| ==> WellFormed(v.members[i].value)
  {}

  lemma IdentifierMatches(a: seq<Member>, b: seq<Member>, key: Text, i: nat)
    requires DistinctMembers(a) && DistinctMembers(b) && i < |a| && a[i].key == key
    requires Find(a, key) == Find(b, key) && Find(a, key).Some? && Find(a, key).value.Str?
    ensures HasMatch(a[i], b)
  {
    hide Find;
    FindMember(a, key);
    FindMember(b, key);
    var j :| 0 <= j < |b| && b[j].key == key;
    assert a[i].value == b[j].value;
    assert Match(a[i], b[j]);
  }

  lemma MatchInLarger(m: Member, small: seq<Member>, large: seq<Member>)
    requires HasMatch(m, small) && forall n :: n in small ==> n in large
    ensures HasMatch(m, large)
  {
    var j :| 0 <= j < |small| && Match(m, small[j]);
    assert small[j] in large;
    var k :| 0 <= k < |large| && large[k] == small[j];
  }

  lemma IdentifierMember(ir: Json)
    requires WellFormed(ir) && ir.Obj? && Read(Some(ir), ["irId"]).Some?
    ensures exists i :: 0 <= i < |ir.members| && ir.members[i].key == T("irId")
    ensures Find(ir.members, T("irId")) == Read(Some(ir), ["irId"])
    ensures |Remove(ir.members, T("irId"))| == |ir.members| - 1
  {
    FindMember(ir.members, T("irId"));
    assert ["irId"][1..] == [];
    var i :| 0 <= i < |ir.members| && ir.members[i].key == T("irId");
    RemoveOne(ir.members, T("irId"), i);
  }

  lemma {:induction false} RemoveNone(ms: seq<Member>, key: Text)
    requires forall i :: 0 <= i < |ms| ==> ms[i].key != key
    ensures Remove(ms, key) == ms
  {
    if ms != [] {
      RemoveNone(ms[1..], key);
    }
  }

  lemma {:induction false} RemoveOne(ms: seq<Member>, key: Text, i: nat)
    requires DistinctMembers(ms) && i < |ms| && ms[i].key == key
    ensures |Remove(ms, key)| == |ms| - 1
  {
    if i == 0 {
      RemoveNone(ms[1..], key);
    } else {
      RemoveOne(ms[1..], key, i - 1);
    }
  }

  /**
   One identifier, one envelope: whatever each of two consumers required, the whole IR and the whole report
   are the same up to key order, unless the hash collides on what they bind.
   */
  lemma OneEnvelope(h: Hash, ir: Json, report: Json, required: seq<Json>, forbidden: seq<Json>, requireComplete: bool,
                    ir': Json, report': Json, required': seq<Json>, forbidden': seq<Json>, requireComplete': bool)
    requires WellFormed(ir) && WellFormed(report) && WellFormed(ir') && WellFormed(report')
    requires Accepted(h, ir, report, required, forbidden, requireComplete)
    requires Accepted(h, ir', report', required', forbidden', requireComplete')
    ensures Read(Some(ir), ["irId"]) == Read(Some(ir'), ["irId"]) ==>
      Collides(h, BodyOf(ir), BodyOf(ir')) || Collides(h, report, report') || (Equiv(ir, ir') && Equiv(report, report'))
  {
    hide IrHeader, ReportHeader, Inventories, AllDeclarations, Read, Equiv, WellFormed, Collides, BodyOf;
    HeaderIsObject(ir);
    HeaderIsObject(ir');
    if Read(Some(ir), ["irId"]) == Read(Some(ir'), ["irId"]) {
      IdentifierDetermines(h, ir, report, ir', report');
      if Equiv(BodyOf(ir), BodyOf(ir')) {
        BodyAndIdentifier(ir, ir');
      }
    }
  }

  lemma HeaderIsObject(ir: Json)
    requires IrHeader(ir)
    ensures ir.Obj?
  {}

  // ----- The verdict does not see key order -----

  predicate Scalar(x: Option<Json>) {
    x.None? || x.value.Null? || x.value.Bool? || x.value.Num? || x.value.Str? || x.value == Arr([])
  }

  /** Every read agrees up to key order, and every scalar read agrees outright. */
  ghost predicate SameReads(v: Json, w: Json) {
    forall path {:trigger Read(Some(v), path)} {:trigger Read(Some(w), path)} ::
      Same(Read(Some(v), path), Read(Some(w), path))
      && (Scalar(Read(Some(v), path)) || Scalar(Read(Some(w), path)) ==> Read(Some(v), path) == Read(Some(w), path))
  }

  lemma ReadsAgree(v: Json, w: Json)
    requires WellFormed(v) && WellFormed(w) && Equiv(v, w)
    ensures SameReads(v, w) && Equiv(w, v) && (v.Obj? <==> w.Obj?)
  {
    forall path
      ensures Same(Read(Some(v), path), Read(Some(w), path))
      ensures Scalar(Read(Some(v), path)) || Scalar(Read(Some(w), path)) ==> Read(Some(v), path) == Read(Some(w), path)
    {
      ReadUpToOrder(Some(v), Some(w), path);
      SameScalar(Read(Some(v), path), Read(Some(w), path));
      SameSymmetric(Read(Some(v), path), Read(Some(w), path));
      SameScalar(Read(Some(w), path), Read(Some(v), path));
    }
    SameSymmetric(Some(v), Some(w));
  }

  lemma ScalarReads(v: Json, w: Json)
    requires SameReads(v, w)
    ensures forall path, s :: IsText(v, path, s) <==> IsText(w, path, s)
    ensures forall path :: IsTrue(v, path) <==> IsTrue(w, path)
  {
    hide Read, T, Same;
  }

  lemma IrHeaderUpToOrder(ir: Json, ir': Json)
    requires SameReads(ir, ir') && (ir.Obj? <==> ir'.Obj?) && IrHeader(ir)
    ensures IrHeader(ir')
  {
    hide SameReads, Read, T, Same, IsText, IsTrue, REQUIREMENTS, COVERAGE, CONTRACT_IR_SCHEMA;
    ScalarReads(ir, ir');
    ScalarRead(ir, ir', ["editableAuthority"]);
  }

  lemma ReportHeaderUpToOrder(report: Json, report': Json)
    requires SameReads(report, report') && (report.Obj? <==> report'.Obj?) && ReportHeader(report)
    ensures ReportHeader(report')
  {
    hide SameReads, Read, T, Same, IsText, IsTrue, COVERAGE, PARITY_REPORT_SCHEMA;
    ScalarReads(report, report');
    ScalarRead(report, report', ["findings"]);
    ScalarRead(report, report', ["runId"]);
  }

  lemma ScalarRead(v: Json, w: Json, path: seq<string>)
    requires SameReads(v, w)
    ensures Scalar(Read(Some(v), path)) ==> Read(Some(w), path) == Read(Some(v), path)
  {
    hide Read, Same;
  }

  lemma BodyUpToOrder(ir: Json, ir': Json)
    requires WellFormed(ir) && WellFormed(ir') && ir.Obj? && ir'.Obj? && Equiv(ir, ir') && Equiv(ir', ir)
    ensures WellFormed(BodyOf(ir)) && WellFormed(BodyOf(ir')) && Equiv(BodyOf(ir), BodyOf(ir'))
  {
    var key := T("irId");
    var a, b := ir.members, ir'.members;
    RemoveKeeps(a, key);
    RemoveKeeps(b, key);
    EquivObjects(a, b);
    EquivObjects(b, a);
    BodyMatches(a, b, key);
    BodyMatches(b, a, key);
    var r, t := Remove(a, key), Remove(b, key);
    KeysCount(r, t);
    KeysCount(t, r);
    EquivObjects(r, t);
  }

  lemma BodyMatches(a: seq<Member>, b: seq<Member>, key: Text)
    requires DistinctMembers(a) && DistinctMembers(b)
    requires (forall i :: 0 <= i < |a| ==> WellFormed(a[i].value))
      && forall i :: 0 <= i < |b| ==> WellFormed(b[i].value)
    requires forall i :: 0 <= i < |a| ==> HasMatch(a[i], b)
    ensures forall i :: 0 <= i < |Remove(a, key)| ==> HasMatch(Remove(a, key)[i], Remove(b, key))
  {
    RemoveKeeps(a, key);
    RemoveKeeps(b, key);
    forall i | 0 <= i < |Remove(a, key)|
      ensures HasMatch(Remove(a, key)[i], Remove(b, key))
    {
      var m := Remove(a, key)[i];
      assert m in Remove(a, key);
      var k :| 0 <= k < |a| && a[k] == m;
      var j :| 0 <= j < |b| && Match(m, b[j]);
      assert b[j] in Remove(b, key);
      var n :| 0 <= n < |Remove(b, key)| && Remove(b, key)[n] == b[j];
    }
  }

  lemma KeysCount(r: seq<Member>, t: seq<Member>)
    requires DistinctMembers(r) && forall i :: 0 <= i < |r| ==> HasMatch(r[i], t)
    ensures |r| <= |t|
  {
    var x, y := Map(KeyOf, r), Map(KeyOf, t);
    forall k | k in x
      ensures k in y
    {
      var i :| 0 <= i < |x| && x[i] == k;
      var j :| 0 <= j < |t| && Match(r[i], t[j]);
      assert y[j] == k;
    }
    SubsetLength(x, y);
  }

  lemma HashUpToOrder(h: Hash, x: Option<Json>, y: Option<Json>)
    requires Same(x, y) && x.Some?
    ensures Sha256Json(h, x.value) == Sha256Json(h, y.value)
  {
    StringifyDecides(x.value, y.value);
  }

  lemma BoundUpToOrder(h: Hash, ir: Json, ir': Json, report: Json, report': Json)
    requires WellFormed(ir) && WellFormed(ir') && ir.Obj? && ir'.Obj? && Equiv(ir, ir') && Equiv(ir', ir)
    requires WellFormed(report) && WellFormed(report') && Equiv(report, report')
    requires SameReads(ir, ir') && SameReads(report, report') && ReportHeader(report) && Bound(h, ir, report)
    ensures Bound(h, ir', report')
  {
    hide Receipt, SelfDigest, LaneBinding;
    ReceiptUpToOrder(h, ir, ir', report, report');
    SelfDigestUpToOrder(h, ir, ir');
    LanesUpToOrder(ir, ir', report, report');
  }

  lemma ReceiptUpToOrder(h: Hash, ir: Json, ir': Json, report: Json, report': Json)
    requires WellFormed(report) && WellFormed(report') && Equiv(report, report')
    requires SameReads(ir, ir') && SameReads(report, report') && Receipt(h, ir, report)
    requires IsText(report, ["schema"], PARITY_REPORT_SCHEMA) && IsDigest(Read(Some(report), ["runId"]))
    ensures Receipt(h, ir', report')
  {
    hide SameReads, Read, T, Equiv, WellFormed, Stringify, IsText, IsTrue;
    assert Same(Some(report), Some(report'));
    HashUpToOrder(h, Some(report), Some(report'));
    ObjectRead(ir, ir', ["admission", "receipt"]);
    ScalarReads(ir, ir');
    SchemaIsText(report);
    ScalarRead(report, report', ["schema"]);
    ScalarRead(report, report', ["runId"]);
    ScalarRead(ir, ir', ["admission", "receipt", "schema"]);
    ScalarRead(ir, ir', ["admission", "receipt", "runId"]);
    ScalarRead(ir, ir', ["admission", "receipt", "digest"]);
  }

  lemma SchemaIsText(report: Json)
    requires IsText(report, ["schema"], PARITY_REPORT_SCHEMA)
    ensures Scalar(Read(Some(report), ["schema"]))
  {}

  lemma ObjectRead(v: Json, w: Json, path: seq<string>)
    requires SameReads(v, w) && Read(Some(v), path).Some? && Read(Some(v), path).value.Obj?
    ensures Read(Some(w), path).Some? && Read(Some(w), path).value.Obj?
  {
    hide Read, Same;
    SameObjects(Read(Some(v), path), Read(Some(w), path));
  }

  lemma SelfDigestUpToOrder(h: Hash, ir: Json, ir': Json)
    requires WellFormed(ir) && WellFormed(ir') && ir.Obj? && ir'.Obj? && Equiv(ir, ir') && Equiv(ir', ir)
    requires SameReads(ir, ir') && SelfDigest(h, ir)
    ensures SelfDigest(h, ir')
  {
    BodyUpToOrder(ir, ir');
    assert Same(Some(BodyOf(ir)), Some(BodyOf(ir')));
    HashUpToOrder(h, Some(BodyOf(ir)), Some(BodyOf(ir')));
    ScalarRead(ir, ir', ["irId"]);
  }

  lemma LanesUpToOrder(ir: Json, ir': Json, report: Json, report': Json)
    requires SameReads(ir, ir') && SameReads(report, report') && LaneBinding(ir, report)
    ensures LaneBinding(ir', report')
  {
    hide Read, Same, LANES;
    forall lane | lane in LANES
      ensures IsDigest(Read(Some(report'), ["inputs", lane, "digest"]))
      ensures Read(Some(report'), ["inputs", lane, "digest"]) == Read(Some(ir'), ["provenance", lane, "digest"])
    {
      ScalarRead(report, report', ["inputs", lane, "digest"]);
      ScalarRead(ir, ir', ["provenance", lane, "digest"]);
    }
  }

  lemma SameObjects(x: Option<Json>, y: Option<Json>)
    requires Same(x, y)
    ensures x.Some? && x.value.Obj? ==> y.Some? && y.value.Obj?
    ensures x.Some? && x.value.Arr? ==> y.Some? && y.value.Arr? && |x.value.items| == |y.value.items|
    ensures x.Some? && x.value.Arr? ==>
      forall i :: 0 <= i < |x.value.items| ==> Same(Some(x.value.items[i]), Some(y.value.items[i]))
  {}

  lemma ArraysUpToOrder(v: Json, w: Json, key: string)
    requires SameReads(v, w) && ArrayAt(v, key)
    ensures ArrayAt(w, key) && |ItemsAt(w, key)| == |ItemsAt(v, key)|
    ensures forall i :: 0 <= i < |ItemsAt(v, key)| ==> Same(Some(ItemsAt(v, key)[i]), Some(ItemsAt(w, key)[i]))
  {
    hide Read, T, Same;
    SameObjects(Read(Some(v), [key]), Read(Some(w), [key]));
  }

  lemma ColumnsUpToOrder(a: seq<Json>, b: seq<Json>, key: string, nonempty: bool)
    requires |a| == |b| && forall i :: 0 <= i < |a| ==> Same(Some(a[i]), Some(b[i]))
    requires Identities(Column(a, key), nonempty)
    ensures Column(a, key) == Column(b, key)
  {
    hide Get, Equiv, WellFormed;
    forall i | 0 <= i < |a|
      ensures Column(a, key)[i] == Column(b, key)[i]
    {
      GetUpToOrder(a[i], b[i], T(key));
      assert Identity(Column(a, key)[i]);
      SameScalar(Get(a[i], T(key)), Get(b[i], T(key)));
    }
  }

  lemma ObjectsUpToOrder(a: seq<Json>, b: seq<Json>)
    requires |a| == |b| && Objects(a) && forall i :: 0 <= i < |a| ==> Same(Some(a[i]), Some(b[i]))
    ensures Objects(b)
  {
    forall i | 0 <= i < |b|
      ensures b[i].Obj?
    {
      SameObjects(Some(a[i]), Some(b[i]));
    }
  }

  lemma InventoriesUpToOrder(ir: Json, ir': Json, report: Json, report': Json, required: seq<Json>,
                             forbidden: seq<Json>, requireComplete: bool)
    requires SameReads(ir, ir') && SameReads(report, report')
    requires Inventories(ir, report, required, forbidden, requireComplete)
    ensures Inventories(ir', report', required, forbidden, requireComplete)
  {
    hide Read, T, Same, Identities, Column, Objects, ItemsAt, ArrayAt, DecimalText;
    ArraysUpToOrder(ir, ir', "declarations");
    ArraysUpToOrder(report, report', "declarationMap");
    ArraysUpToOrder(ir, ir', "excludedDeclarations");
    ArraysUpToOrder(ir, ir', "outOfScopeDeclarations");
    var d, d' := ItemsAt(ir, "declarations"), ItemsAt(ir', "declarations");
    var m, m' := ItemsAt(report, "declarationMap"), ItemsAt(report', "declarationMap");
    ObjectsUpToOrder(d, d');
    ObjectsUpToOrder(m, m');
    ColumnsUpToOrder(d, d', "id", true);
    ColumnsUpToOrder(m, m', "typespec", true);
    ColumnsUpToOrder(m, m', "generated", true);
    ColumnsUpToOrder(m, m', "authored", true);
  }

  lemma DigestUpToOrder(h: Hash, d: Json, d': Json, digest: seq<string>, schema: seq<string>)
    requires SameReads(d, d') && DigestOver(h, d, digest, schema)
    ensures DigestOver(h, d', digest, schema)
  {
    hide Read, Equiv, WellFormed, Stringify;
    HashUpToOrder(h, Read(Some(d), schema), Read(Some(d'), schema));
  }

  lemma DeclarationUpToOrder(h: Hash, d: Json, d': Json)
    requires Same(Some(d), Some(d')) && Declaration(h, d)
    ensures Declaration(h, d')
  {
    hide Read, DigestOver, T, Equiv, WellFormed;
    ReadsAgree(d, d');
    DigestUpToOrder(h, d, d', ["assertionDigest"], ["assertionSchema"]);
    DigestUpToOrder(h, d, d', ["lanes", "typespecGeneratedJsonSchema", "schemaDigest"],
                    ["lanes", "typespecGeneratedJsonSchema", "normalizedSchema"]);
    DigestUpToOrder(h, d, d', ["lanes", "authoredJsonSchema", "schemaDigest"],
                    ["lanes", "authoredJsonSchema", "normalizedSchema"]);
  }

  /** Reordering the keys of the IR or of the report never changes the verdict. */
  lemma AcceptedUpToOrder(h: Hash, ir: Json, report: Json, ir': Json, report': Json, required: seq<Json>,
                          forbidden: seq<Json>, requireComplete: bool)
    requires WellFormed(ir) && WellFormed(report) && WellFormed(ir') && WellFormed(report')
    requires Equiv(ir, ir') && Equiv(report, report')
    requires Accepted(h, ir, report, required, forbidden, requireComplete)
    ensures Accepted(h, ir', report', required, forbidden, requireComplete)
  {
    hide IrHeader, ReportHeader, Bound, Inventories, Declaration, SameReads, Equiv, WellFormed, Same, ArrayAt, ItemsAt;
    ReadsAgree(ir, ir');
    ReadsAgree(report, report');
    HeaderIsObject(ir);
    IrHeaderUpToOrder(ir, ir');
    ReportHeaderUpToOrder(report, report');
    BoundUpToOrder(h, ir, ir', report, report');
    InventoriesUpToOrder(ir, ir', report, report', required, forbidden, requireComplete);
    ArraysUpToOrder(ir, ir', "declarations");
    forall i | 0 <= i < |ItemsAt(ir', "declarations")|
      ensures Declaration(h, ItemsAt(ir', "declarations")[i])
    {
      DeclarationUpToOrder(h, ItemsAt(ir, "declarations")[i], ItemsAt(ir', "declarations")[i]);
    }
  }

  /** So the canonical copy that admission verifies is accepted exactly when the original is. */
  lemma CanonicalCopyAccepted(h: Hash, ir: Json, report: Json, required: seq<Json>, forbidden: seq<Json>,
                              requireComplete: bool)
    requires WellFormed(ir) && WellFormed(report)
    ensures Accepted(h, Canon(ir), Canon(report), required, forbidden, requireComplete)
            <==> Accepted(h, ir, report, required, forbidden, requireComplete)
  {
    hide Accepted;
    CanonKeepsForm(ir);
    CanonKeepsForm(report);
    CanonIdempotent(ir);
    CanonIdempotent(report);
    SameSymmetric(Some(Canon(ir)), Some(ir));
    SameSymmetric(Some(Canon(report)), Some(report));
    if Accepted(h, ir, report, required, forbidden, requireComplete) {
      AcceptedUpToOrder(h, ir, report, Canon(ir), Canon(report), required, forbidden, requireComplete);
    }
    if Accepted(h, Canon(ir), Canon(report), required, forbidden, requireComplete) {
      AcceptedUpToOrder(h, Canon(ir), Canon(report), ir, report, required, forbidden, requireComplete);
    }
  }
}
