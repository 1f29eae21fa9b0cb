/**
 A contract envelope that is accepted, for every hash that gives 64 hexadecimal digits: the conditions of
 the theorems on admission can be met.
 */
module AdmissionSample {
  import opened Bytes
  import opened Ordering
  import opened JsonValue
  import opened JsonCanonical
  import opened JsonObject
  import opened ContractAdmission

  // ----- Objects with string keys -----

  function S(s: string): Json { Str(T(s)) }

  /** The same value under every key. */
  function Each(names: seq<string>, v: Json): Json { O(Map((n: string) => (n, Some(v)), names)) }

  lemma {:induction false} FindEach(names: seq<string>, v: Json, name: string)
    ensures name in names ==> Get(Each(names, v), T(name)) == Some(v)
    ensures name !in names ==> Get(Each(names, v), T(name)) == None
  {
    hide T;
    if names != [] {
      KeysAreStrings(names[0], name);
      FindEach(names[1..], v, name);
    }
  }

  /** Reading on below field `i`. */
  lemma Below(fields: seq<Slot>, i: nat, path: seq<string>)
    requires i < |fields| && FirstAt(fields, i) && fields[i].1.Some? && path != [] && path[0] == fields[i].0
    ensures Read(Some(O(fields)), path) == Read(fields[i].1, path[1..])
  {
    hide T, Map;
    SlotFound(fields, i);
  }

  lemma BelowEach(names: seq<string>, v: Json, path: seq<string>)
    requires path != [] && path[0] in names
    ensures Read(Some(Each(names, v)), path) == Read(Some(v), path[1..])
  {
    hide T, Map, Each;
    FindEach(names, v, path[0]);
    EachIsObject(names, v);
  }

  lemma EachIsObject(names: seq<string>, v: Json)
    ensures Each(names, v).Obj?
  {}

  lemma Here(v: Json)
    ensures Read(Some(v), []) == Some(v)
  {}

  // ----- The sample -----

  function Digest(h: Hash, v: Json): Json { Str(h(Stringify(v))) }

  function Lane(h: Hash, role: string): seq<Slot> {
    [("role", Some(S(role))), ("normalizedSchema", Some(Bool(true))), ("schemaDigest", Some(Digest(h, Bool(true))))]
  }

  function Lanes(h: Hash): seq<Slot> {
    [("typespecGeneratedJsonSchema", Some(O(Lane(h, "comparison-evidence-only")))),
     ("authoredJsonSchema", Some(O(Lane(h, "independently-authored-authority"))))]
  }

  function DeclarationFields(h: Hash): seq<Slot> {
    [("id", Some(S("x"))), ("assertionSchema", Some(Bool(true))), ("assertionDigest", Some(Digest(h, Bool(true)))),
     ("lanes", Some(O(Lanes(h))))]
  }

  function Input(h: Hash): seq<Slot> { [("digest", Some(Digest(h, Null)))] }

  function Mapping(): seq<Slot> { [("typespec", Some(S("x"))), ("generated", Some(S("x"))),
                                   ("authored", Some(S("x")))] }

  function ReportFields(h: Hash): seq<Slot> {
    [("schema", Some(S(PARITY_REPORT_SCHEMA))), ("status", Some(S("passed"))),
     ("zeroUnexplainedFindings", Some(Bool(true))), ("findings", Some(Arr([]))),
     ("runId", Some(Digest(h, Null))), ("coverage", Some(Each(COVERAGE, Bool(true)))),
       ("inputs", Some(Each(LANES, O(Input(h))))),
     ("declarationMap", Some(Arr([O(Mapping())])))]
  }

  function Authorities(): seq<Slot> {
    [("typespec", Some(S("independently-authored"))), ("jsonSchema", Some(S("independently-authored"))),
     ("generatedJsonSchema", Some(S("comparison-evidence-only"))), ("precedence", Some(S("none")))]
  }

  function ReceiptFields(h: Hash): seq<Slot> {
    [("schema", Some(S(PARITY_REPORT_SCHEMA))), ("runId", Some(Digest(h, Null))), ("status", Some(S("passed"))),
     ("zeroUnexplainedFindings", Some(Bool(true))),
     ("digest", Some(Digest(h, O(ReportFields(h)))))]
  }

  function ScopeFields(): seq<Slot> {
    [("admittedDeclarations", Some(Num(DecimalText(1)))), ("excludedDeclarations", Some(Num(DecimalText(0)))),
     ("outOfScopeDeclarations", Some(Num(DecimalText(0)))), ("complete", Some(Bool(true)))]
  }

  function AdmissionFields(h: Hash): seq<Slot> {
    [("requirements", Some(Each(REQUIREMENTS, Bool(true)))), ("receipt", Some(O(ReceiptFields(h)))),
     ("scope", Some(O(ScopeFields())))]
  }

  function BodyFields(h: Hash): seq<Slot> {
    [("schema", Some(S(CONTRACT_IR_SCHEMA))), ("status", Some(S("passed"))), ("admissible", Some(Bool(true))),
     ("role", Some(S("downstream-derived-parity-artifact"))),
     ("editableAuthority", Some(Bool(false))), ("authorities", Some(O(Authorities()))),
       ("admission", Some(O(AdmissionFields(h)))),
     ("coverage", Some(Each(COVERAGE, Bool(true)))), ("provenance", Some(Each(LANES, O(Input(h))))),
       ("declarations", Some(Arr([O(DeclarationFields(h))]))),
     ("excludedDeclarations", Some(Arr([]))), ("outOfScopeDeclarations", Some(Arr([])))]
  }

  function IrFields(h: Hash): seq<Slot> {
    BodyFields(h) + [("irId", Some(Digest(h, O(BodyFields(h)))))]
  }

  ghost predicate HexHash(h: Hash) {
    forall t :: |h(t)| == 64 && forall i :: 0 <= i < 64 ==> LowerHex(h(t)[i])
  }

  // ----- Reading it -----

  lemma IrKeys(h: Hash)
    ensures DistinctSlots(IrFields(h)) && |IrFields(h)| == 13
  {
    hide O, S, Each, Digest, CONTRACT_IR_SCHEMA;
  }

  lemma Read1(fields: seq<Slot>, i: nat)
    requires i < |fields| && FirstAt(fields, i) && fields[i].1.Some?
    ensures Read(Some(O(fields)), [fields[i].0]) == fields[i].1
  {
    Below(fields, i, [fields[i].0]);
  }

  lemma Read2(fields: seq<Slot>, i: nat, k: string)
    requires i < |fields| && FirstAt(fields, i) && fields[i].1.Some?
    ensures Read(Some(O(fields)), [fields[i].0, k]) == Read(fields[i].1, [k])
  {
    hide Read;
    Below(fields, i, [fields[i].0, k]);
    assert [fields[i].0, k][1..] == [k];
  }

  lemma Read3(fields: seq<Slot>, i: nat, k: string, l: string)
    requires i < |fields| && FirstAt(fields, i) && fields[i].1.Some?
    ensures Read(Some(O(fields)), [fields[i].0, k, l]) == Read(fields[i].1, [k, l])
  {
    hide Read;
    Below(fields, i, [fields[i].0, k, l]);
    assert [fields[i].0, k, l][1..] == [k, l];
  }

  lemma ReadEach(names: seq<string>, v: Json, name: string)
    requires name in names
    ensures Read(Some(Each(names, v)), [name]) == Some(v)
    ensures forall k :: Read(Some(Each(names, v)), [name, k]) == Read(Some(v), [k])
  {
    BelowEach(names, v, [name]);
    Here(v);
    forall k
      ensures Read(Some(Each(names, v)), [name, k]) == Read(Some(v), [k])
    {
      BelowEach(names, v, [name, k]);
      assert [name, k][1..] == [k];
    }
  }

  lemma IrTop(h: Hash)
    ensures var ir := Some(O(IrFields(h)));
            && Read(ir, ["schema"]) == Some(S(CONTRACT_IR_SCHEMA)) && Read(ir, ["status"]) == Some(S("passed"))
            && Read(ir, ["admissible"]) == Some(Bool(true))
               && Read(ir, ["role"]) == Some(S("downstream-derived-parity-artifact"))
            && Read(ir, ["editableAuthority"]) == Some(Bool(false))
            && Read(ir, ["declarations"]) == Some(Arr([O(DeclarationFields(h))]))
            && Read(ir, ["excludedDeclarations"]) == Some(Arr([]))
               && Read(ir, ["outOfScopeDeclarations"]) == Some(Arr([]))
            && Read(ir, ["irId"]) == Some(Digest(h, O(BodyFields(h))))
  {
    IrKeys(h);
    hide O, S, Each, Digest, CONTRACT_IR_SCHEMA, Read, FirstAt;
    var f := IrFields(h);
    Read1(f, 0);
    Read1(f, 1);
    Read1(f, 2);
    Read1(f, 3);
    Read1(f, 4);
    Read1(f, 9);
    Read1(f, 10);
    Read1(f, 11);
    Read1(f, 12);
  }

  lemma IrAuthorities(h: Hash)
    ensures var ir := O(IrFields(h));
            && IsText(ir, ["authorities", "typespec"], "independently-authored")
            && IsText(ir, ["authorities", "jsonSchema"], "independently-authored")
            && IsText(ir, ["authorities", "generatedJsonSchema"], "comparison-evidence-only")
            && IsText(ir, ["authorities", "precedence"], "none")
  {
    hide Read, T, O, Each, Digest, FirstAt, CONTRACT_IR_SCHEMA, AdmissionFields, Input, DeclarationFields;
    IrKeys(h);
    AuthorityKeys();
    var f, a := IrFields(h), Authorities();
    Read2(f, 5, "typespec");
    Read1(a, 0);
    Read2(f, 5, "jsonSchema");
    Read1(a, 1);
    Read2(f, 5, "generatedJsonSchema");
    Read1(a, 2);
    Read2(f, 5, "precedence");
    Read1(a, 3);
  }

  lemma AuthorityKeys()
    ensures DistinctSlots(Authorities())
  {
    hide S;
  }

  /** Reading `admission` and a key below it. */
  lemma InAdmission(h: Hash, i: nat, k: string)
    requires i < 3
    ensures |AdmissionFields(h)| == 3
    ensures Read(Some(O(IrFields(h))), ["admission", AdmissionFields(h)[i].0, k]) == Read(AdmissionFields(h)[i].1, [k])
    ensures Read(Some(O(IrFields(h))), ["admission", AdmissionFields(h)[i].0]) == AdmissionFields(h)[i].1
  {
    hide Read, T, O, S, Each, Digest, CONTRACT_IR_SCHEMA, Input, DeclarationFields, ReceiptFields, ScopeFields,
      Authorities;
    IrKeys(h);
    var f, a := IrFields(h), AdmissionFields(h);
    assert f[6] == ("admission", Some(O(a)));
    assert DistinctSlots(a);
    hide IrFields, AdmissionFields, FirstAt;
    Read2(f, 6, a[i].0);
    Read1(a, i);
    Read3(f, 6, a[i].0, k);
    Read2(a, i, k);
  }

  lemma IrFlags(h: Hash)
    ensures forall f :: f in REQUIREMENTS ==> IsTrue(O(IrFields(h)), ["admission", "requirements", f])
    ensures forall f :: f in COVERAGE ==> IsTrue(O(IrFields(h)), ["coverage", f])
  {
    hide Read, T, O, S, Each, Digest, FirstAt, CONTRACT_IR_SCHEMA, Input, DeclarationFields, ReceiptFields, ScopeFields,
      Authorities,
      REQUIREMENTS, COVERAGE;
    IrKeys(h);
    forall f | f in REQUIREMENTS
      ensures IsTrue(O(IrFields(h)), ["admission", "requirements", f])
    {
      InAdmission(h, 0, f);
      ReadEach(REQUIREMENTS, Bool(true), f);
    }
    forall f | f in COVERAGE
      ensures IsTrue(O(IrFields(h)), ["coverage", f])
    {
      Read2(IrFields(h), 7, f);
      ReadEach(COVERAGE, Bool(true), f);
    }
  }

  lemma IrReceipt(h: Hash)
    ensures var ir := Some(O(IrFields(h)));
            && Read(ir, ["admission", "receipt"]) == Some(O(ReceiptFields(h)))
            && Read(ir, ["admission", "receipt", "schema"]) == Some(S(PARITY_REPORT_SCHEMA))
            && Read(ir, ["admission", "receipt", "runId"]) == Some(Digest(h, Null))
            && Read(ir, ["admission", "receipt", "status"]) == Some(S("passed"))
            && Read(ir, ["admission", "receipt", "zeroUnexplainedFindings"]) == Some(Bool(true))
            && Read(ir, ["admission", "receipt", "digest"]) == Some(Digest(h, O(ReportFields(h))))
  {
    hide Read, T, O, S, Each, Digest, PARITY_REPORT_SCHEMA, ReportFields, IrFields, ScopeFields;
    var r := ReceiptFields(h);
    ReceiptKeys(h);
    InAdmission(h, 1, "schema");
    Read1(r, 0);
    InAdmission(h, 1, "runId");
    Read1(r, 1);
    InAdmission(h, 1, "status");
    Read1(r, 2);
    InAdmission(h, 1, "zeroUnexplainedFindings");
    Read1(r, 3);
    InAdmission(h, 1, "digest");
    Read1(r, 4);
  }

  lemma ReceiptKeys(h: Hash)
    ensures DistinctSlots(ReceiptFields(h))
  {
    hide S, O, Digest, PARITY_REPORT_SCHEMA;
  }

  lemma InScope(h: Hash, i: nat, k: string, v: Json)
    requires i < |ScopeFields()| && ScopeFields()[i] == (k, Some(v))
    ensures Read(Some(O(IrFields(h))), ["admission", "scope", k]) == Some(v)
  {
    hide Read, T, O, S, Each, Digest, IrFields, ReceiptFields, DecimalText;
    ScopeKeys();
    InAdmission(h, 2, k);
    Read1(ScopeFields(), i);
  }

  lemma IrScope(h: Hash)
    ensures Read(Some(O(IrFields(h))), ["admission", "scope", "admittedDeclarations"]) == Count(1)
    ensures Read(Some(O(IrFields(h))), ["admission", "scope", "complete"]) == Some(Bool(true))
  {
    ScopeNames();
    hide Read, T, O, S, IrFields, DecimalText, ScopeFields;
    InScope(h, 0, "admittedDeclarations", Num(DecimalText(1)));
    InScope(h, 3, "complete", Bool(true));
  }

  lemma IrExcluded(h: Hash)
    ensures Read(Some(O(IrFields(h))), ["admission", "scope", "excludedDeclarations"]) == Count(0)
  {
    ScopeNames();
    hide Read, T, O, S, IrFields, DecimalText, ScopeFields;
    InScope(h, 1, "excludedDeclarations", Num(DecimalText(0)));
  }

  lemma IrOutside(h: Hash)
    ensures Read(Some(O(IrFields(h))), ["admission", "scope", "outOfScopeDeclarations"]) == Count(0)
  {
    ScopeNames();
    hide Read, T, O, S, IrFields, DecimalText, ScopeFields;
    InScope(h, 2, "outOfScopeDeclarations", Num(DecimalText(0)));
  }

  lemma ScopeNames()
    ensures var s := ScopeFields();
            && |s| == 4 && s[0] == ("admittedDeclarations", Some(Num(DecimalText(1))))
               && s[1] == ("excludedDeclarations", Some(Num(DecimalText(0))))
            && s[2] == ("outOfScopeDeclarations", Some(Num(DecimalText(0)))) && s[3] == ("complete", Some(Bool(true)))
  {
    hide DecimalText;
  }

  lemma ScopeKeys()
    ensures DistinctSlots(ScopeFields())
  {
    hide DecimalText;
  }

  lemma ReportKeys(h: Hash)
    ensures DistinctSlots(ReportFields(h)) && |ReportFields(h)| == 8
  {
    hide O, S, Each, Digest, PARITY_REPORT_SCHEMA;
  }

  lemma ReportTop(h: Hash)
    ensures var r := Some(O(ReportFields(h)));
            && Read(r, ["schema"]) == Some(S(PARITY_REPORT_SCHEMA)) && Read(r, ["status"]) == Some(S("passed"))
            && Read(r, ["zeroUnexplainedFindings"]) == Some(Bool(true)) && Read(r, ["findings"]) == Some(Arr([]))
            && Read(r, ["runId"]) == Some(Digest(h, Null)) && Read(r, ["declarationMap"]) == Some(Arr([O(Mapping())]))
            && Read(r, ["differential", "disabled"]) == None
            && forall f :: f in COVERAGE ==> IsTrue(O(ReportFields(h)), ["coverage", f])
  {
    NoDifferential(h);
    ReportKeys(h);
    hide T, O, S, Each, Digest, Read, PARITY_REPORT_SCHEMA, Mapping, Input, FirstAt, COVERAGE;
    var f := ReportFields(h);
    Read1(f, 0);
    Read1(f, 1);
    Read1(f, 2);
    Read1(f, 3);
    Read1(f, 4);
    Read1(f, 7);
    forall k | k in COVERAGE
      ensures IsTrue(O(ReportFields(h)), ["coverage", k])
    {
      Read2(f, 5, k);
      ReadEach(COVERAGE, Bool(true), k);
    }
  }

  lemma NoDifferential(h: Hash)
    ensures Read(Some(O(ReportFields(h))), ["differential", "disabled"]) == None
  {
    hide S, Each, Digest, PARITY_REPORT_SCHEMA, Mapping, Input, T, Present;
    SlotMissing(ReportFields(h), "differential");
  }

  lemma LaneDigests(h: Hash, lane: string)
    requires lane in LANES
    ensures Read(Some(O(IrFields(h))), ["provenance", lane, "digest"]) == Some(Digest(h, Null))
    ensures Read(Some(O(ReportFields(h))), ["inputs", lane, "digest"]) == Some(Digest(h, Null))
  {
    IrKeys(h);
    ReportKeys(h);
    hide Read, T, O, S, Each, Digest, FirstAt, CONTRACT_IR_SCHEMA, PARITY_REPORT_SCHEMA, DeclarationFields,
      ReceiptFields, ScopeFields, Authorities, LANES;
    Read3(IrFields(h), 8, lane, "digest");
    Read3(ReportFields(h), 6, lane, "digest");
    ReadEach(LANES, O(Input(h)), lane);
    InputRead(h);
  }

  lemma InputRead(h: Hash)
    ensures Read(Some(O(Input(h))), ["digest"]) == Some(Digest(h, Null))
  {
    hide Read, O, Digest;
    Read1(Input(h), 0);
  }

  // ----- It is accepted -----

  lemma {:induction false} RemoveLast(fields: seq<Slot>, key: string, v: Json)
    requires forall j :: 0 <= j < |fields| ==> fields[j].0 != key
    ensures Remove(Present(fields + [(key, Some(v))]), T(key)) == Present(fields)
  {
    hide T;
    var all := fields + [(key, Some(v))];
    if fields == [] {
      assert all == [(key, Some(v))];
      assert all[1..] == [];
    } else {
      KeysAreStrings(fields[0].0, key);
      assert all[0] == fields[0] && all[1..] == fields[1..] + [(key, Some(v))];
      assert forall j :: 0 <= j < |fields| - 1 ==> fields[1..][j] == fields[j + 1];
      RemoveLast(fields[1..], key, v);
    }
  }

  lemma BodyIsBody(h: Hash)
    ensures BodyOf(O(IrFields(h))) == O(BodyFields(h))
  {
    hide T, S, Each, Digest, CONTRACT_IR_SCHEMA, Map;
    RemoveLast(BodyFields(h), "irId", Digest(h, O(BodyFields(h))));
  }

  lemma IrIsHeaded(h: Hash)
    ensures IrHeader(O(IrFields(h)))
  {
    IrTop(h);
    hide Read, T, REQUIREMENTS, COVERAGE, CONTRACT_IR_SCHEMA, IrFields, Map, Digest, DeclarationFields, BodyFields;
    IrAuthorities(h);
    IrFlags(h);
  }

  lemma ReportIsHeaded(h: Hash)
    requires HexHash(h)
    ensures ReportHeader(O(ReportFields(h)))
  {
    hide Read, T, Map, COVERAGE, PARITY_REPORT_SCHEMA, ReportFields, HexHash, IsDigest, Digest, Mapping;
    ReportTop(h);
    DigestIsHex(h, Null);
  }

  lemma DigestIsHex(h: Hash, v: Json)
    requires HexHash(h)
    ensures IsDigest(Some(Digest(h, v)))
  {
    hide Stringify;
  }

  lemma SampleReceipt(h: Hash)
    ensures Receipt(h, O(IrFields(h)), O(ReportFields(h)))
  {
    hide Read, T, Map, Stringify, PARITY_REPORT_SCHEMA, IrFields, ReportFields, ReceiptFields, Mapping, COVERAGE;
    IrReceipt(h);
    ReportTop(h);
    ReceiptParts(h, O(IrFields(h)), O(ReportFields(h)));
  }

  lemma ReceiptParts(h: Hash, ir: Json, report: Json)
    requires Read(Some(ir), ["admission", "receipt"]) == Some(O(ReceiptFields(h)))
    requires Read(Some(ir), ["admission", "receipt", "schema"]) == Read(Some(report), ["schema"])
    requires Read(Some(ir), ["admission", "receipt", "runId"]) == Read(Some(report), ["runId"])
    requires IsText(ir, ["admission", "receipt", "status"], "passed")
    requires IsTrue(ir, ["admission", "receipt", "zeroUnexplainedFindings"])
    requires Read(Some(ir), ["admission", "receipt", "digest"]) == Some(Digest(h, report))
    ensures Receipt(h, ir, report)
  {
    hide Read, T, Stringify, Map, ReceiptFields;
  }

  lemma SampleSelf(h: Hash)
    requires HexHash(h)
    ensures SelfDigest(h, O(IrFields(h)))
  {
    IrTop(h);
    BodyIsBody(h);
    DigestIsHex(h, O(BodyFields(h)));
    hide HexHash, Read, T, IsDigest, Stringify, CONTRACT_IR_SCHEMA, IrFields, BodyFields, BodyOf;
  }

  lemma SampleLanes(h: Hash)
    requires HexHash(h)
    ensures LaneBinding(O(IrFields(h)), O(ReportFields(h)))
  {
    hide HexHash, Read, T, O, IsDigest, Digest, IrFields, ReportFields, LANES;
    DigestIsHex(h, Null);
    forall lane | lane in LANES
      ensures Read(Some(O(IrFields(h))), ["provenance", lane, "digest"]) == Some(Digest(h, Null))
      ensures Read(Some(O(ReportFields(h))), ["inputs", lane, "digest"]) == Some(Digest(h, Null))
    {
      LaneDigests(h, lane);
    }
  }

  lemma LaneKeys(h: Hash, role: string)
    ensures DistinctSlots(Lane(h, role)) && DistinctSlots(Lanes(h)) && DistinctSlots(DeclarationFields(h))
  {
    hide O, S, Digest;
  }

  /** The three reads of one lane. */
  lemma LaneRead(h: Hash, i: nat, name: string, role: string)
    requires i < |Lanes(h)| && Lanes(h)[i] == (name, Some(O(Lane(h, role))))
    ensures var d := O(DeclarationFields(h));
            && IsText(d, ["lanes", name, "role"], role)
            && Read(Some(d), ["lanes", name, "normalizedSchema"]) == Some(Bool(true))
            && Read(Some(d), ["lanes", name, "schemaDigest"]) == Some(Digest(h, Bool(true)))
  {
    LaneKeys(h, role);
    hide Read, T, O, Digest, Lanes, FirstAt;
    var d, l := DeclarationFields(h), Lane(h, role);
    Read3(d, 3, name, "role");
    Read2(Lanes(h), i, "role");
    Read1(l, 0);
    Read3(d, 3, name, "normalizedSchema");
    Read2(Lanes(h), i, "normalizedSchema");
    Read1(l, 1);
    Read3(d, 3, name, "schemaDigest");
    Read2(Lanes(h), i, "schemaDigest");
    Read1(l, 2);
  }

  lemma DeclarationRead(h: Hash)
    ensures var d := Some(O(DeclarationFields(h)));
            && Get(O(DeclarationFields(h)), T("id")) == Some(S("x"))
            && Read(d, ["assertionSchema"]) == Some(Bool(true))
               && Read(d, ["assertionDigest"]) == Some(Digest(h, Bool(true)))
  {
    var f := DeclarationFields(h);
    hide Read, T, S, Digest, Lanes;
    SlotFound(f, 0);
    Read1(f, 1);
    Read1(f, 2);
  }

  lemma SampleLane(h: Hash, i: nat, name: string, role: string)
    requires HexHash(h) && i < |Lanes(h)| && Lanes(h)[i] == (name, Some(O(Lane(h, role))))
    ensures var d := O(DeclarationFields(h));
            && IsText(d, ["lanes", name, "role"], role)
            && DigestOver(h, d, ["lanes", name, "schemaDigest"], ["lanes", name, "normalizedSchema"])
  {
    hide Read, T, O, Stringify, IsDigest, HexHash, DeclarationFields, Lanes, Lane;
    LaneRead(h, i, name, role);
    DigestIsHex(h, Bool(true));
  }

  lemma SampleAssertion(h: Hash)
    requires HexHash(h)
    ensures DigestOver(h, O(DeclarationFields(h)), ["assertionDigest"], ["assertionSchema"])
  {
    hide Read, T, O, S, Stringify, IsDigest, HexHash, DeclarationFields;
    DeclarationRead(h);
    DigestIsHex(h, Bool(true));
  }

  lemma SampleLanesOfDeclaration(h: Hash)
    requires HexHash(h)
    ensures var d := O(DeclarationFields(h));
            && IsText(d, ["lanes", "typespecGeneratedJsonSchema", "role"], "comparison-evidence-only")
            && DigestOver(h, d, ["lanes", "typespecGeneratedJsonSchema", "schemaDigest"],
                          ["lanes", "typespecGeneratedJsonSchema", "normalizedSchema"])
            && IsText(d, ["lanes", "authoredJsonSchema", "role"], "independently-authored-authority")
            && DigestOver(h, d, ["lanes", "authoredJsonSchema", "schemaDigest"],
                          ["lanes", "authoredJsonSchema", "normalizedSchema"])
  {
    hide Read, IsText, DigestOver, T, O, Lane, HexHash, DeclarationFields;
    SampleLane(h, 0, "typespecGeneratedJsonSchema", "comparison-evidence-only");
    SampleLane(h, 1, "authoredJsonSchema", "independently-authored-authority");
  }

  lemma SampleDeclaration(h: Hash)
    requires HexHash(h)
    ensures Declaration(h, O(DeclarationFields(h)))
  {
    hide Read, IsText, DigestOver, T, O, HexHash, DeclarationFields;
    SampleAssertion(h);
    SampleLanesOfDeclaration(h);
  }

  lemma MappingRead()
    ensures forall k :: k in {"typespec", "generated", "authored"} ==> Get(O(Mapping()), T(k)) == Some(S("x"))
  {
    hide T, S;
    SlotFound(Mapping(), 0);
    SlotFound(Mapping(), 1);
    SlotFound(Mapping(), 2);
  }

  lemma OneIdentity()
    ensures Identities([Some(S("x"))], true) && Identity(Some(S("x")))
  {}

  lemma OneColumn(v: Json, key: string)
    requires Get(v, T(key)) == Some(S("x"))
    ensures Column([v], key) == [Some(S("x"))]
  {
    hide T, S;
    assert [v][1..] == [];
  }

  lemma SampleInventories(h: Hash, requireComplete: bool)
    ensures Inventories(O(IrFields(h)), O(ReportFields(h)), [S("x")], [], requireComplete)
  {
    OneIdentity();
    NoIdentity();
    hide Read, T, S, Digest, Get, Column, Somes, IrFields, ReportFields, BodyFields, Mapping, DeclarationFields,
      DecimalText, Identities, Map, COVERAGE,
      CONTRACT_IR_SCHEMA, PARITY_REPORT_SCHEMA;
    IrTop(h);
    IrScope(h);
    IrExcluded(h);
    IrOutside(h);
    ReportTop(h);
    DeclarationRead(h);
    MappingRead();
    OneColumn(O(DeclarationFields(h)), "id");
    OneColumn(O(Mapping()), "typespec");
    OneColumn(O(Mapping()), "generated");
    OneColumn(O(Mapping()), "authored");
  }

  lemma NoIdentity()
    ensures Identities(Somes([]), false) && Somes([S("x")]) == [Some(S("x"))]
  {
    hide S;
  }

  /**
   For every hash with hexadecimal digests, and whether or not a complete scope is asked for, the sample is
   accepted.
   */
  lemma SampleAccepted(h: Hash, requireComplete: bool)
    requires HexHash(h)
    ensures Accepted(h, O(IrFields(h)), O(ReportFields(h)), [S("x")], [], requireComplete)
  {
    hide Read, T, O, S, Each, Digest, Get, Find, Map, Present, Stringify, FirstAt, BodyOf, DecimalText, IrFields,
      BodyFields, ReportFields,
      AdmissionFields, Authorities, ReceiptFields, ScopeFields, DeclarationFields, Lanes, Lane, Mapping, Input,
        IrHeader, ReportHeader, Receipt,
      SelfDigest, LaneBinding, Inventories, Declaration, HexHash;
    IrIsHeaded(h);
    ReportIsHeaded(h);
    SampleReceipt(h);
    SampleSelf(h);
    SampleLanes(h);
    SampleInventories(h, requireComplete);
    SampleDeclaration(h);
    IrTop(h);
  }

  // ----- And it is well formed -----

  lemma EachForm(names: seq<string>, v: Json)
    requires Distinct(names) && WellFormed(v)
    ensures WellFormed(Each(names, v))
  {
    hide WellFormed, T;
    var fields := Map((n: string) => (n, Some(v)), names);
    forall i | 0 <= i < |fields|
      ensures FirstAt(fields, i)
    {
      assert forall j :: 0 <= j < i ==> names[j] != names[i];
    }
    ObjectForm(fields);
  }

  lemma DistinctNames()
    ensures Distinct(COVERAGE) && Distinct(REQUIREMENTS) && Distinct(LANES)
  {}

  lemma LeafForm(h: Hash, v: Json, s: string)
    ensures WellFormed(S(s)) && WellFormed(Digest(h, v)) && WellFormed(Bool(true)) && WellFormed(Bool(false))
  {
    hide T, Stringify;
  }

  lemma NumberForm()
    ensures WellFormed(Num(DecimalText(0))) && WellFormed(Num(DecimalText(1)))
  {}

  lemma ListForm(v: Json)
    requires WellFormed(v)
    ensures WellFormed(Arr([v])) && WellFormed(Arr([]))
  {}

  lemma DeclarationForm(h: Hash)
    ensures WellFormed(O(DeclarationFields(h)))
  {
    hide T, O, Stringify, DistinctMembers;
    LaneForm(h, "comparison-evidence-only");
    LaneForm(h, "independently-authored-authority");
    assert DistinctSlots(Lanes(h)) && DistinctSlots(DeclarationFields(h));
    hide Lane, FirstAt;
    ObjectForm(Lanes(h));
    LeafForm(h, Bool(true), "x");
    hide WellFormed, Lanes, S, Digest;
    ObjectForm(DeclarationFields(h));
  }

  lemma LaneForm(h: Hash, role: string)
    ensures WellFormed(O(Lane(h, role)))
  {
    hide T, O, Stringify, DistinctMembers;
    LeafForm(h, Bool(true), role);
    assert DistinctSlots(Lane(h, role));
    hide WellFormed, FirstAt, S, Digest;
    ObjectForm(Lane(h, role));
  }

  lemma InputForm(h: Hash)
    ensures WellFormed(O(Input(h))) && WellFormed(Each(LANES, O(Input(h)))) && WellFormed(Each(COVERAGE, Bool(true)))
      && WellFormed(Each(REQUIREMENTS, Bool(true)))
  {
    hide T, O, Each, Stringify, DistinctMembers;
    DistinctNames();
    LeafForm(h, Null, "");
    assert DistinctSlots(Input(h));
    hide WellFormed, FirstAt, Digest, Distinct, COVERAGE, REQUIREMENTS, LANES;
    ObjectForm(Input(h));
    EachForm(LANES, O(Input(h)));
    LeafForm(h, Null, "");
    EachForm(COVERAGE, Bool(true));
    EachForm(REQUIREMENTS, Bool(true));
  }

  lemma MappingForm(h: Hash)
    ensures WellFormed(O(Mapping()))
  {
    hide T, O, DistinctMembers;
    LeafForm(h, Null, "x");
    assert DistinctSlots(Mapping());
    hide WellFormed, FirstAt, S;
    ObjectForm(Mapping());
  }

  lemma ReportForm(h: Hash)
    ensures WellFormed(O(ReportFields(h)))
  {
    hide WellFormed, O, S, Each, Digest, Mapping, Input, FirstAt, PARITY_REPORT_SCHEMA;
    ReportKeys(h);
    InputForm(h);
    MappingForm(h);
    ListForm(O(Mapping()));
    LeafForm(h, Null, PARITY_REPORT_SCHEMA);
    LeafForm(h, Null, "passed");
    ObjectForm(ReportFields(h));
  }

  lemma AdmissionForm(h: Hash)
    ensures WellFormed(O(AdmissionFields(h)))
  {
    InputForm(h);
    ReceiptKeys(h);
    ScopeKeys();
    NumberForm();
    LeafForm(h, Null, PARITY_REPORT_SCHEMA);
    LeafForm(h, O(ReportFields(h)), "passed");
    hide WellFormed, O, S, Each, Digest, DecimalText, PARITY_REPORT_SCHEMA, ReportFields;
    assert DistinctSlots(AdmissionFields(h));
    hide FirstAt;
    ObjectForm(ReceiptFields(h));
    ObjectForm(ScopeFields());
    hide ReceiptFields, ScopeFields;
    ObjectForm(AdmissionFields(h));
  }

  lemma AuthoritiesForm(h: Hash)
    ensures WellFormed(O(Authorities()))
  {
    hide WellFormed, O, S, FirstAt;
    AuthorityKeys();
    LeafForm(h, Null, "independently-authored");
    LeafForm(h, Null, "comparison-evidence-only");
    LeafForm(h, Null, "none");
    ObjectForm(Authorities());
  }

  /** Both documents of the sample are well formed. */
  lemma SampleFormed(h: Hash)
    ensures WellFormed(O(IrFields(h))) && WellFormed(O(ReportFields(h)))
  {
    hide WellFormed, O, S, Each, Digest, FirstAt, CONTRACT_IR_SCHEMA, AdmissionFields, Authorities, Input,
      DeclarationFields, ReportFields;
    IrKeys(h);
    ReportForm(h);
    AdmissionForm(h);
    AuthoritiesForm(h);
    InputForm(h);
    DeclarationForm(h);
    ListForm(O(DeclarationFields(h)));
    LeafForm(h, O(BodyFields(h)), CONTRACT_IR_SCHEMA);
    LeafForm(h, Null, "passed");
    LeafForm(h, Null, "downstream-derived-parity-artifact");
    ObjectForm(IrFields(h));
  }
}
