/**
 The TypeScript client's adapter: fields are parsed into fresh values, uniqueness and coverage use
 sets, and every array is sorted. `localeCompare` is any strict total order on strings.
 */
module NixAdapterTs {
  import opened Bytes
  import opened Ordering
  import opened NixRecord
  import opened NixTokens
  import opened Patterns

  // ----- The untyped document, once its fields have the right JSON types -----

  datatype RawArtifact = RawArtifact(format: Option<string>, sha256: string, size: U64)
  datatype RawOrigin = RawOrigin(registry: string, artifact: RawArtifact, vcsTag: string, vcsCommit: string,
                                 lockSha256: Option<string>)
  datatype RawIntent = RawIntent(mode: Option<string>, attribute: Option<string>, systems: Option<seq<string>>,
                                 outputs: Option<seq<string>>)
  datatype RawRealized = RawRealized(system: string, output: string, derivationSha256: string, storePath: string,
                                     narHash: string, narSize: U64, references: Option<seq<Reference>>,
                                     signatures: Option<seq<string>>, nixVersion: string, storeInfoVersion: U32)
  datatype RawRecord = RawRecord(direction: string, schema: string, package: Package, source: RawOrigin,
                                 intent: RawIntent, flakeBundleSha256: string, outputs: seq<RawRealized>,
                                   policy: Policy)

  function Or<T>(value: Option<T>, absent: T): T {
    if value.Some? then value.value else absent
  }

  function LoadRealized(v: RawRealized): Realized {
    Realized(v.system, v.output, v.derivationSha256, v.storePath, v.narHash, v.narSize,
             Or(v.references, []), Or(v.signatures, []), v.nixVersion, v.storeInfoVersion)
  }

  /** The record an absent field stands for: absent and empty differ for three strings only (`NoEmptyText`). */
  function Load(r: RawRecord): Record {
    var a := r.source.artifact;
    Record(r.direction, r.schema, r.package,
           Origin(r.source.registry, Artifact(Or(a.format, ""), a.sha256, a.size), r.source.vcsTag, r.source.vcsCommit,
                  r.source.lockSha256),
           Intent(Or(r.intent.mode, ""), Or(r.intent.attribute, ""), Or(r.intent.systems, []),
                  Or(r.intent.outputs, [])),
           r.flakeBundleSha256, Map(LoadRealized, r.outputs), r.policy)
  }

  /** An explicit empty string is not the same as an absent field: the parser refuses it. */
  predicate NoEmptyText(r: RawRecord) {
    r.source.artifact.format != Some("") && r.intent.mode != Some("") && r.intent.attribute != Some("")
  }

  /** A parsed record as a document: empty collections are left out. */
  function Unload(r: Record): RawRecord {
    RawRecord(r.direction, r.schema, r.package,
              RawOrigin(r.source.registry, RawArtifact(Some(r.source.artifact.format), r.source.artifact.sha256,
                                                       r.source.artifact.size),
                        r.source.vcsTag, r.source.vcsCommit, r.source.lockSha256),
              RawIntent(Some(r.intent.mode), if r.intent.attribute == "" then None else Some(r.intent.attribute),
                        Some(r.intent.systems), Some(r.intent.outputs)),
              r.flakeBundleSha256, Map(UnloadRealized, r.outputs), r.policy)
  }

  function UnloadRealized(v: Realized): RawRealized {
    RawRealized(v.system, v.output, v.derivationSha256, v.storePath, v.narHash, v.narSize,
                if v.references == [] then None else Some(v.references),
                if v.signatures == [] then None else Some(v.signatures), v.nixVersion, v.storeInfoVersion)
  }

  // ----- Parsing -----

  /** The set of keys seen so far; a repeated key is an error. */
  method Unique<T>(values: seq<T>, key: T -> string) returns (ok: bool)
    ensures ok <==> DistinctKeys(key, values)
  {
    var seen: set<string> := {};
    for i := 0 to |values|
      invariant seen == set k | 0 <= k < i :: key(values[k])
      invariant DistinctKeys(key, values[..i])
    {
      var identity := key(values[i]);
      if identity in seen {
        var k :| 0 <= k < i && key(values[k]) == identity;
        return false;
      }
      seen := seen + {identity};
    }
    assert values[..|values|] == values;
    return true;
  }

  /** An array sort: some sorted permutation. */
  method SortBy<T, K(!new)>(values: seq<T>, key: T -> K, less: (K, K) -> bool) returns (sorted: seq<T>)
    requires StrictTotal(less)
    ensures IsSortOf(key, less, values, sorted)
  {
    SortSorts(key, less, values);
    sorted := Sort(key, less, values);
  }

  // ----- Tokens -----

  /** `/\s/u.test`. */
  method HasSpace(value: string) returns (found: bool)
    ensures found <==> !NoSpace(TypeScript, value)
  {
    hide Space;
    for i := 0 to |value|
      invariant forall k :: 0 <= k < i ==> !Space(TypeScript, value[k])
    {
      if Space(TypeScript, value[i]) {
        return true;
      }
    }
    return false;
  }

  /** Both `token` and `packageVersion`. */
  method Token(value: string) returns (ok: bool)
    ensures ok <==> ValidRefToken(TypeScript, value)
  {
    hide Trimmed, TrimSpace, NoSpace;
    Trims(TypeScript, value);
    var space := HasSpace(value);
    return !(value == "" || TrimSpace(TypeScript, value) != value || space);
  }

  method RegistryUrl(value: string) returns (ok: bool)
    ensures ok <==> ValidRegistry(TypeScript, value)
  {
    hide Trimmed, TrimSpace, NoSpace;
    Trims(TypeScript, value);
    var space := HasSpace(value);
    var prefixed := "https://" <= value || "http://" <= value || "file://" <= value;
    return !(TrimSpace(TypeScript, value) != value || space || !prefixed);
  }

  method NixSystem(value: string) returns (ok: bool)
    ensures ok <==> ValidSystem(value)
  {
    if value == "" || '-' !in value || "-" <= value || value[|value| - 1] == '-' {
      return false;
    }
    return Matches(SystemPattern(), value);
  }

  method PositiveSafeInteger(value: U64) returns (ok: bool)
    ensures ok <==> ValidSize(TypeScript, value)
  {
    return 0 < value <= 9007199254740991;
  }

  method ParsePackage(value: Package) returns (ok: bool)
    ensures ok <==> ValidPackage(TypeScript, value)
  {
    hide Matches, SlugPattern, TargetPattern, ValidSlug, ValidTarget, ValidRefToken;
    SlugMatches(value.org);
    SlugMatches(value.name);
    if !Matches(SlugPattern(), value.org) || !Matches(SlugPattern(), value.name) {
      return false;
    }
    var version := Token(value.version);
    if !version {
      return false;
    }
    if value.target.Some? {
      TargetMatches(value.target.value);
    }
    return value.target.None? || Matches(TargetPattern(), value.target.value);
  }

  method ParsePolicy(value: Policy) returns (ok: bool)
    ensures ok <==> ValidPolicy(TypeScript, value)
  {
    if value.profile != "strict-v1" && value.profile != "development" {
      return false;
    }
    if value.builderNetwork != "disabled" && value.builderNetwork != "preparation-only"
       && value.builderNetwork != "allowed" {
      return false;
    }
    if value.profile == "strict-v1" {
      if !value.pureEvaluation || value.importFromDerivation || !value.sandboxRequired
        || value.builderNetwork != "disabled" || value.dirtySource || !value.publishable {
        return false;
      }
    } else if value.publishable {
      return false;
    }
    return true;
  }

  method ParseReference(value: Reference) returns (ok: bool)
    ensures ok <==> ValidReference(TypeScript, value)
  {
    hide Matches, StorePathPattern, SriPattern, NixStorePath, Sha256Sri, ValidSize;
    StorePathMatches(value.storePath);
    if !Matches(StorePathPattern(), value.storePath) {
      return false;
    }
    if value.narHash.Some? {
      SriMatches(value.narHash.value);
      if !Matches(SriPattern(), value.narHash.value) {
        return false;
      }
    }
    if value.narSize.Some? {
      ok := PositiveSafeInteger(value.narSize.value);
      return;
    }
    return true;
  }

  /** `map` with a parser that throws: every element must pass. */
  method EachReference(values: seq<Reference>) returns (ok: bool)
    ensures ok <==> forall v :: v in values ==> ValidReference(TypeScript, v)
  {
    hide ValidReference;
    for i := 0 to |values|
      invariant forall k :: 0 <= k < i ==> ValidReference(TypeScript, values[k])
    {
      ok := ParseReference(values[i]);
      if !ok {
        assert values[i] in values;
        return;
      }
    }
    return true;
  }

  method EachToken(values: seq<string>) returns (ok: bool)
    ensures ok <==> forall s :: s in values ==> ValidRefToken(TypeScript, s)
  {
    hide ValidRefToken;
    for i := 0 to |values|
      invariant forall k :: 0 <= k < i ==> ValidRefToken(TypeScript, values[k])
    {
      ok := Token(values[i]);
      if !ok {
        assert values[i] in values;
        return;
      }
    }
    return true;
  }

  method EachSystem(values: seq<string>) returns (ok: bool)
    ensures ok <==> forall s :: s in values ==> ValidSystem(s)
  {
    hide ValidSystem;
    for i := 0 to |values|
      invariant forall k :: 0 <= k < i ==> ValidSystem(values[k])
    {
      ok := NixSystem(values[i]);
      if !ok {
        assert values[i] in values;
        return;
      }
    }
    return true;
  }

  method EachIdentifier(values: seq<string>) returns (ok: bool)
    ensures ok <==> forall s :: s in values ==> NixIdentifier(s)
  {
    hide NixIdentifier, Matches, IdentifierPattern;
    for i := 0 to |values|
      invariant forall k :: 0 <= k < i ==> NixIdentifier(values[k])
    {
      IdentifierMatches(values[i]);
      if !Matches(IdentifierPattern(), values[i]) {
        assert values[i] in values;
        return false;
      }
    }
    return true;
  }

  /** The scalar fields that name a realized output. */
  method ParseIdentity(v: Realized) returns (ok: bool)
    ensures ok <==> ValidSystem(v.system) && NixIdentifier(v.output) && Sha256Hex(v.derivationSha256)
                    && NixStorePath(v.storePath) && Sha256Sri(v.narHash) && ValidSize(TypeScript, v.narSize)
  {
    hide ValidSystem, NixIdentifier, Sha256Hex, NixStorePath, Sha256Sri, ValidSize, Matches, IdentifierPattern,
      HexPattern, StorePathPattern, SriPattern;
    ok := NixSystem(v.system);
    if !ok {
      return;
    }
    IdentifierMatches(v.output);
    HexMatches(v.derivationSha256);
    StorePathMatches(v.storePath);
    SriMatches(v.narHash);
    if !Matches(IdentifierPattern(), v.output) || !Matches(HexPattern(), v.derivationSha256)
       || !Matches(StorePathPattern(), v.storePath) || !Matches(SriPattern(), v.narHash) {
      return false;
    }
    ok := PositiveSafeInteger(v.narSize);
  }

  method ParseRealizedOutput(o: Orders, raw: RawRealized) returns (r: Option<Realized>)
    requires TotalOrders(o)
    ensures r.Some? <==> ValidRealized(TypeScript, LoadRealized(raw))
    ensures r.Some? ==> ViewRealized(r.value) == ViewRealized(LoadRealized(raw)) && SortedRealized(o, r.value)
  {
    hide ValidSystem, NixIdentifier, Sha256Hex, NixStorePath, Sha256Sri, ValidRefToken, Blank, ValidReference,
      ValidSize, TrimSpace;
    var loaded := LoadRealized(raw);
    var ok := EachReference(loaded.references);
    if !ok {
      return None;
    }
    ok := Unique(loaded.references, StorePathOf);
    PathKeys(loaded.references);
    if !ok {
      return None;
    }
    ok := EachToken(loaded.signatures);
    if !ok {
      return None;
    }
    ok := Unique(loaded.signatures, Itself);
    Trims(TypeScript, loaded.nixVersion);
    if !ok || TrimSpace(TypeScript, loaded.nixVersion) == "" {
      return None;
    }
    ok := ParseIdentity(loaded);
    if !ok || (loaded.storeInfoVersion != 1 && loaded.storeInfoVersion != 2 && loaded.storeInfoVersion != 3) {
      return None;
    }
    var references := SortBy(loaded.references, StorePathOf, o.path);
    var signatures := SortBy(loaded.signatures, Itself, o.text);
    return Some(loaded.(references := references, signatures := signatures));
  }

  lemma PathKeys(s: seq<Reference>)
    ensures DistinctKeys(StorePathOf, s) <==> DistinctPaths(s)
  {
    if DistinctKeys(StorePathOf, s) {
      forall i, j | 0 <= i < j < |s|
        ensures s[i].storePath != s[j].storePath
      {
        assert StorePathOf(s[i]) != StorePathOf(s[j]);
      }
    }
  }

  method ParseExportIntent(o: Orders, raw: RawIntent, packageName: string) returns (r: Option<Intent>)
    requires TotalOrders(o)
    ensures var loaded := Intent(Or(raw.mode, ""), Or(raw.attribute, ""), Or(raw.systems, []), Or(raw.outputs, []));
            && (r.Some? <==>
                  ValidIntent(TypeScript, loaded, packageName) && raw.mode != Some("") && raw.attribute != Some(""))
            && (r.Some? ==>
                  && r.value.mode == "artifact" && Or(raw.mode, "artifact") == "artifact"
                  && r.value.attribute == loaded.attribute
                  && IsSortOf(Itself, o.text, loaded.systems, r.value.systems)
                  && IsSortOf(Itself, o.text, loaded.outputs, r.value.outputs))
  {
    hide ValidSystem, NixIdentifier, Matches, IdentifierPattern;
    if raw.attribute.Some? {
      IdentifierMatches(raw.attribute.value);
      NotEmpty();
    }
    if raw.attribute.Some? && !Matches(IdentifierPattern(), raw.attribute.value) {
      return None;
    }
    var attribute := if raw.attribute.Some? then raw.attribute.value else packageName;
    if attribute == "default" {
      return None;
    }
    var systems, outputs := Or(raw.systems, []), Or(raw.outputs, []);
    var everySystem := EachSystem(systems);
    var everyOutput := EachIdentifier(outputs);
    if !everySystem || !everyOutput || |systems| == 0 || |outputs| == 0 {
      return None;
    }
    var systemsOk := Unique(systems, Itself);
    var outputsOk := Unique(outputs, Itself);
    TextKeys(systems);
    TextKeys(outputs);
    if !systemsOk || !outputsOk || (raw.mode.Some? && raw.mode.value != "artifact") {
      return None;
    }
    systems := SortBy(systems, Itself, o.text);
    outputs := SortBy(outputs, Itself, o.text);
    return Some(Intent("artifact", Or(raw.attribute, ""), systems, outputs));
  }

  lemma NotEmpty()
    ensures !NixIdentifier("")
  {}

  lemma TextKeys(s: seq<string>)
    ensures DistinctKeys(Itself, s) <==> Distinct(s)
  {
    if DistinctKeys(Itself, s) {
      forall i, j | 0 <= i < j < |s|
        ensures s[i] != s[j]
      {
        assert Itself(s[i]) != Itself(s[j]);
      }
    }
  }

  /** Every output parsed in turn; the first that fails fails the document. */
  method ParseOutputs(o: Orders, raw: seq<RawRealized>) returns (r: Option<seq<Realized>>)
    requires TotalOrders(o)
    ensures r.Some? <==> forall k :: 0 <= k < |raw| ==> ValidRealized(TypeScript, LoadRealized(raw[k]))
    ensures r.Some? ==> |r.value| == |raw| && forall k :: 0 <= k < |raw| ==>
      ViewRealized(r.value[k]) == ViewRealized(LoadRealized(raw[k])) && SortedRealized(o, r.value[k])
  {
    hide ValidRealized, ViewRealized, SortedRealized;
    var parsed: seq<Realized> := [];
    for i := 0 to |raw|
      invariant |parsed| == i
      invariant forall k :: 0 <= k < i ==> ValidRealized(TypeScript, LoadRealized(raw[k]))
                                           && ViewRealized(parsed[k]) == ViewRealized(LoadRealized(raw[k]))
                                              && SortedRealized(o, parsed[k])
    {
      var output := ParseRealizedOutput(o, raw[i]);
      if output.None? {
        return None;
      }
      parsed := parsed + [output.value];
    }
    return Some(parsed);
  }

  /** The uniqueness and coverage checks over the parsed outputs. */
  method CheckOutputs(outputs: seq<Realized>, intent: Intent) returns (ok: bool)
    requires forall k :: 0 <= k < |outputs| ==> ValidRealized(TypeScript, outputs[k])
    ensures ok <==> outputs != [] ==> ValidOutputs(TypeScript, outputs, intent.systems, intent.outputs)
  {
    hide ValidRealized;
    if outputs == [] {
      return true;
    }
    var unique := Unique(outputs, PairKeyOf);
    PairKeys(outputs);
    if !unique {
      return false;
    }
    var declaredSystems := set s | s in intent.systems;
    var declaredOutputs := set s | s in intent.outputs;
    var realizedSystems: set<string> := {};
    for i := 0 to |outputs|
      invariant forall k :: 0 <= k < i ==> outputs[k].system in intent.systems && outputs[k].output in intent.outputs
      invariant realizedSystems == set k | 0 <= k < i :: outputs[k].system
    {
      if outputs[i].system !in declaredSystems || outputs[i].output !in declaredOutputs {
        assert outputs[i] in outputs;
        return false;
      }
      realizedSystems := realizedSystems + {outputs[i].system};
    }
    RealizedAll(outputs, intent.systems, declaredSystems, realizedSystems);
    return declaredSystems <= realizedSystems;
  }

  function PairKeyOf(v: Realized): string { PairKey(v.system, v.output) }

  lemma PairKeys(s: seq<Realized>)
    requires forall k :: 0 <= k < |s| ==> ValidRealized(TypeScript, s[k])
    ensures DistinctKeys(PairKeyOf, s) <==> DistinctPairs(s)
  {
    forall i, j | 0 <= i < j < |s|
      ensures PairKeyOf(s[i]) == PairKeyOf(s[j]) <==> (s[i].system, s[i].output) == (s[j].system, s[j].output)
    {
      SamePair(TypeScript, s[i], s[j]);
    }
    if DistinctKeys(PairKeyOf, s) {
      forall i, j | 0 <= i < j < |s|
        ensures (s[i].system, s[i].output) != (s[j].system, s[j].output)
      {
        assert PairKeyOf(s[i]) != PairKeyOf(s[j]);
      }
    }
  }

  /** Accepts exactly the valid documents and returns a normal form of the filled record. */
  method ParseZedToNix(o: Orders, raw: RawRecord) returns (r: Option<Record>)
    requires TotalOrders(o)
    ensures r.Some? <==> NoEmptyText(raw) && Accepts(TypeScript, Load(raw))
    ensures r.Some? ==> IsNormalOf(o, Fill(Load(raw)), r.value)
  {
    hide ValidPackage, ValidRealized, ValidIntent, ValidOutputs, ValidRegistry, ValidRefToken, Sha256Hex, ValidPolicy,
      ValidSize, Length, Matches, HexPattern, ViewRealized, SortedRealized, PairLess;
    ghost var loaded := Load(raw);
    var packageOk := ParsePackage(raw.package);
    if !packageOk {
      return None;
    }
    var intent := ParseExportIntent(o, raw.intent, raw.package.name);
    if intent.None? || raw.outputs == [] {
      EmptyOutputs(loaded);
      return None;
    }
    var parsed := ParseOutputs(o, raw.outputs);
    if parsed.None? {
      OutputsMustBeValid(raw);
      return None;
    }
    var outputs := parsed.value;
    ghost var before := Map(LoadRealized, raw.outputs);
    assert Views(outputs) == Views(before);
    AllValid(before, outputs);
    var covered := CheckOutputs(outputs, intent.value);
    CheckedUpToOrder(before, outputs, loaded.intent, intent.value);
    if !covered {
      return None;
    }
    PairLessTotal(o.key);
    var sorted := SortBy(outputs, PairOf, PairLess(o.key));
    ReorderedOutputs(o, before, outputs, sorted);
    var source := ParseZedOrigin(raw.source);
    HexMatches(raw.flakeBundleSha256);
    if source.None? || raw.direction != "zed-to-nix" || raw.schema != "zed.nix-adapter/v1"
      || !Matches(HexPattern(), raw.flakeBundleSha256) {
      return None;
    }
    var policyOk := ParsePolicy(raw.policy);
    if !policyOk {
      return None;
    }
    var record := Record(raw.direction, raw.schema, raw.package, source.value, intent.value, raw.flakeBundleSha256,
                         sorted, raw.policy);
    AssembledIsNormal(o, Fill(loaded), record);
    return Some(record);
  }

  lemma AssembledIsNormal(o: Orders, f: Record, n: Record)
    requires n == f.(intent := n.intent, outputs := n.outputs)
    requires n.intent == f.intent.(systems := n.intent.systems, outputs := n.intent.outputs)
    requires IsSortOf(Itself, o.text, f.intent.systems, n.intent.systems)
    requires IsSortOf(Itself, o.text, f.intent.outputs, n.intent.outputs)
    requires multiset(Views(n.outputs)) == multiset(Views(f.outputs))
    requires forall i :: 0 <= i < |n.outputs| ==> SortedRealized(o, n.outputs[i])
    requires SortedBy(PairOf, PairLess(o.key), n.outputs)
    ensures IsNormalOf(o, f, n)
  {
    assert n.intent.(systems := [], outputs := []) == f.intent.(systems := [], outputs := []);
    assert View(n).rest == View(f).rest;
  }

  lemma EmptyOutputs(r: Record)
    ensures r.outputs == [] ==> !Accepts(TypeScript, r)
  {}

  lemma OutputsMustBeValid(raw: RawRecord)
    requires exists k :: 0 <= k < |raw.outputs| && !ValidRealized(TypeScript, LoadRealized(raw.outputs[k]))
    ensures !Accepts(TypeScript, Load(raw))
  {
    hide ValidRealized, ValidHeader, ValidIntent;
    var k :| 0 <= k < |raw.outputs| && !ValidRealized(TypeScript, LoadRealized(raw.outputs[k]));
    assert Load(raw).outputs[k] in Load(raw).outputs;
  }

  lemma AllValid(before: seq<Realized>, outputs: seq<Realized>)
    requires |before| == |outputs|
    requires forall k :: 0 <= k < |before| ==>
      ValidRealized(TypeScript, before[k]) && ViewRealized(outputs[k]) == ViewRealized(before[k])
    ensures forall k :: 0 <= k < |before| ==> ValidRealized(TypeScript, outputs[k])
  {
    hide ValidRealized, ViewRealized;
    forall k | 0 <= k < |before|
      ensures ValidRealized(TypeScript, outputs[k])
    {
      RealizedUpToOrder(TypeScript, before[k], outputs[k]);
    }
  }

  lemma CheckedUpToOrder(a: seq<Realized>, b: seq<Realized>, v: Intent, w: Intent)
    requires Views(a) == Views(b)
    requires multiset(v.systems) == multiset(w.systems) && multiset(v.outputs) == multiset(w.outputs)
    ensures ValidOutputs(TypeScript, a, v.systems, v.outputs) <==> ValidOutputs(TypeScript, b, w.systems, w.outputs)
  {
    hide ValidOutputs;
    if ValidOutputs(TypeScript, a, v.systems, v.outputs) {
      OutputsUpToOrder(TypeScript, a, b, v, w);
    }
    if ValidOutputs(TypeScript, b, w.systems, w.outputs) {
      OutputsUpToOrder(TypeScript, b, a, w, v);
    }
  }

  method ParseZedOrigin(raw: RawOrigin) returns (r: Option<Origin>)
    ensures var a := raw.artifact;
            var loaded := Origin(raw.registry, Artifact(Or(a.format, ""), a.sha256, a.size), raw.vcsTag, raw.vcsCommit,
                                 raw.lockSha256);
            && (r.Some? <==> a.format != Some("") && ValidOrigin(TypeScript, loaded))
            && (r.Some? ==> r.value == loaded.(artifact := loaded.artifact.(format := Or(a.format, "tar.gz"))))
  {
    hide ValidRegistry, ValidRefToken, Sha256Hex, Length, Encoded, ValidSize, Matches, HexPattern;
    LengthIsEncoded(TypeScript, raw.vcsCommit);
    var commit := Token(raw.vcsCommit);
    if !commit || |Encoded(TypeScript, raw.vcsCommit)| < 7 {
      return None;
    }
    var registry := RegistryUrl(raw.registry);
    if !registry {
      return None;
    }
    var format := Or(raw.artifact.format, "tar.gz");
    HexMatches(raw.artifact.sha256);
    var size := PositiveSafeInteger(raw.artifact.size);
    if (format != "tar.gz" && format != "zip") || !Matches(HexPattern(), raw.artifact.sha256) || !size {
      return None;
    }
    var tag := Token(raw.vcsTag);
    if !tag {
      return None;
    }
    if raw.lockSha256.Some? {
      HexMatches(raw.lockSha256.value);
      if !Matches(HexPattern(), raw.lockSha256.value) {
        return None;
      }
    }
    return Some(Origin(raw.registry, Artifact(format, raw.artifact.sha256, raw.artifact.size), raw.vcsTag,
                       raw.vcsCommit, raw.lockSha256));
  }

  // ----- Parsing is a normalisation -----

  /** A parsed record, written out again, is accepted and parses to itself. */
  lemma ReparseIsIdentity(o: Orders, raw: RawRecord, parsed: Record, again: Record)
    requires TotalOrders(o) && Accepts(TypeScript, Load(raw))
    requires IsNormalOf(o, Fill(Load(raw)), parsed)
    requires IsNormalOf(o, Fill(Load(Unload(parsed))), again)
    ensures NoEmptyText(Unload(parsed)) && Accepts(TypeScript, Load(Unload(parsed)))
    ensures again == parsed
  {
    hide Accepts, SortedRecord;
    LoadUnload(parsed);
    var filled := Fill(Load(raw));
    FillKeepsAcceptance(TypeScript, Load(raw));
    AcceptedUpToOrderOneWay(TypeScript, filled, parsed);
    FilledUpToOrder(filled, parsed);
    NormalFormUnique(TypeScript, o, filled, parsed, parsed, again);
  }

  /** Empty collections are left out of the parsed value, and no other. */
  lemma EmptyIsLeftOut(v: Realized)
    ensures UnloadRealized(v).references == None <==> v.references == []
    ensures UnloadRealized(v).signatures == None <==> v.signatures == []
    ensures UnloadRealized(v).references != Some([]) && UnloadRealized(v).signatures != Some([])
  {}

  lemma LoadUnload(r: Record)
    ensures Load(Unload(r)) == r
  {
    forall i | 0 <= i < |r.outputs|
      ensures LoadRealized(UnloadRealized(r.outputs[i])) == r.outputs[i]
    {}
    assert Load(Unload(r)).outputs == r.outputs;
  }

  lemma FilledUpToOrder(filled: Record, parsed: Record)
    requires View(parsed) == View(filled) && Fill(filled) == filled
    ensures Fill(parsed) == parsed && parsed.intent.mode != "" && parsed.source.artifact.format != ""
  {
    var v, w := View(parsed).rest, View(filled).rest;
    assert v.source == parsed.source && w.source == filled.source;
    assert v.intent.mode == parsed.intent.mode && w.intent.mode == filled.intent.mode;
  }

  /** Documents that differ only in array order, absent defaults or empty collections parse to the same record. */
  lemma ParseUpToOrder(o: Orders, x: RawRecord, y: RawRecord, n: Record, m: Record)
    requires TotalOrders(o) && Accepts(TypeScript, Load(x))
    requires IsNormalOf(o, Fill(Load(x)), n) && IsNormalOf(o, Fill(Load(y)), m)
    ensures n == m <==> View(Fill(Load(x))) == View(Fill(Load(y)))
  {
    FillKeepsAcceptance(TypeScript, Load(x));
    NormalFormUnique(TypeScript, o, Fill(Load(x)), Fill(Load(y)), n, m);
  }
}
