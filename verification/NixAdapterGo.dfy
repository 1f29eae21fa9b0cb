/**
 The Go client's adapter: validators that fill sets in loops and write defaults through the record,
 normalisers that sort in place, and the canonical-bytes verifier built from them.
 */
module NixAdapterGo {
  import opened Bytes
  import opened Ordering
  import opened NixRecord
  import opened NixTokens
  import opened Patterns
  import opened NixCanonical

  /** Go compares strings by their octets, which for UTF-8 is the order of code points. */
  function GoOrders(): Orders {
    Orders(CodePointLess(), CodePointLess(), CodePointLess())
  }

  lemma GoOrdersTotal()
    ensures TotalOrders(GoOrders())
  {
    CodePointLessTotal();
  }

  // ----- Tokens -----

  method ValidNixSystem(value: string) returns (ok: bool)
    ensures ok <==> ValidSystem(value)
  {
    if value == "" || '-' !in value || "-" <= value || value[|value| - 1] == '-' {
      return false;
    }
    for i := 0 to |value|
      invariant forall k :: 0 <= k < i ==>
        Lower(value[k]) || Digit(value[k]) || value[k] == '_' || value[k] == '-'
    {
      var character := value[i];
      if !('a' <= character <= 'z') && !('0' <= character <= '9') && character != '_' && character != '-' {
        return false;
      }
    }
    return true;
  }

  method ValidRegistryUrl(value: string) returns (ok: bool)
    ensures ok <==> ValidRegistry(Go, value)
  {
    hide Space, TrimSpace, Trimmed;
    Trims(Go, value);
    if value == "" || TrimSpace(Go, value) != value {
      return false;
    }
    for i := 0 to |value|
      invariant forall k :: 0 <= k < i ==> !Space(Go, value[k]) && !Control(value[k])
    {
      if Space(Go, value[i]) || value[i] as int < 32 || 127 <= value[i] as int < 160 {
        return false;
      }
    }
    return "https://" <= value || "http://" <= value || "file://" <= value;
  }

  method ValidToken(value: string) returns (ok: bool)
    ensures ok <==> ValidRefToken(Go, value)
  {
    hide Space, TrimSpace, Trimmed;
    Trims(Go, value);
    if value == "" || TrimSpace(Go, value) != value {
      return false;
    }
    for i := 0 to |value|
      invariant forall k :: 0 <= k < i ==> !Space(Go, value[k])
    {
      if Space(Go, value[i]) {
        return false;
      }
    }
    return true;
  }

  // ----- Validators -----

  method ValidatePackage(value: Package) returns (ok: bool)
    ensures ok <==> ValidPackage(Go, value)
  {
    hide Matches, SlugPattern, TargetPattern, Space, TrimSpace, ValidSlug, ValidTarget;
    SlugMatches(value.org);
    SlugMatches(value.name);
    if !Matches(SlugPattern(), value.org) || !Matches(SlugPattern(), value.name) {
      return false;
    }
    var version := ValidToken(value.version);
    if !version {
      return false;
    }
    if value.target.Some? {
      TargetMatches(value.target.value);
    }
    return value.target.None? || Matches(TargetPattern(), value.target.value);
  }

  /** Format defaulted, digest and size. */
  method ValidateArtifact(value: Artifact) returns (ok: bool, filled: Artifact)
    ensures ok <==> ValidArtifact(Go, value)
    ensures filled == value.(format := if value.format == "" then "tar.gz" else value.format)
  {
    hide Matches, HexPattern, Sha256Hex;
    filled := value;
    if filled.format == "" {
      filled := filled.(format := "tar.gz");
    }
    if filled.format != "tar.gz" && filled.format != "zip" {
      return false, filled;
    }
    HexMatches(filled.sha256);
    return Matches(HexPattern(), filled.sha256) && filled.size != 0, filled;
  }

  method ValidatePolicy(value: Policy) returns (ok: bool)
    ensures ok <==> ValidPolicy(Go, value)
  {
    if value.profile == "strict-v1" {
      if !value.pureEvaluation || value.importFromDerivation || !value.sandboxRequired
        || value.builderNetwork != "disabled" || value.dirtySource || !value.publishable {
        return false;
      }
    } else if value.profile == "development" {
      if value.publishable {
        return false;
      }
    } else {
      return false;
    }
    return true;
  }

  method ValidateUniqueStrings(values: seq<string>) returns (ok: bool)
    ensures ok <==> Distinct(values)
  {
    var seen: set<string> := {};
    for i := 0 to |values|
      invariant seen == set k | 0 <= k < i :: values[k]
      invariant Distinct(values[..i])
    {
      if values[i] in seen {
        var k :| 0 <= k < i && values[k] == values[i];
        return false;
      }
      seen := seen + {values[i]};
    }
    assert values[..|values|] == values;
    return true;
  }

  method ValidateRealized(value: Realized) returns (ok: bool)
    ensures ok <==> ValidRealized(Go, value)
  {
    hide ValidSystem, NixIdentifier, Sha256Hex, NixStorePath, Sha256Sri, ValidRefToken, Blank, TrimSpace,
      ValidReference,
      Matches, IdentifierPattern, HexPattern, StorePathPattern, SriPattern;
    ok := ValidNixSystem(value.system);
    IdentifierMatches(value.output);
    if !ok || !Matches(IdentifierPattern(), value.output) {
      return false;
    }
    HexMatches(value.derivationSha256);
    StorePathMatches(value.storePath);
    SriMatches(value.narHash);
    if !Matches(HexPattern(), value.derivationSha256) || !Matches(StorePathPattern(), value.storePath)
      || !Matches(SriPattern(), value.narHash) || value.narSize == 0 {
      return false;
    }
    ok := ValidateReferences(value.references);
    if !ok {
      return;
    }
    ok := ValidateUniqueStrings(value.signatures);
    if !ok {
      return;
    }
    ok := ValidateSignatures(value.signatures);
    if !ok {
      return;
    }
    Trims(Go, value.nixVersion);
    return TrimSpace(Go, value.nixVersion) != "" && value.storeInfoVersion >= 1 && value.storeInfoVersion <= 3;
  }

  method ValidateSignatures(values: seq<string>) returns (ok: bool)
    ensures ok <==> forall s :: s in values ==> ValidRefToken(Go, s)
  {
    hide ValidRefToken;
    for i := 0 to |values|
      invariant forall k :: 0 <= k < i ==> ValidRefToken(Go, values[k])
    {
      ok := ValidToken(values[i]);
      if !ok {
        assert values[i] in values;
        return;
      }
    }
    return true;
  }

  method ValidateReference(value: Reference) returns (ok: bool)
    ensures ok <==> ValidReference(Go, value)
  {
    hide Matches, StorePathPattern, SriPattern, NixStorePath, Sha256Sri;
    StorePathMatches(value.storePath);
    if !Matches(StorePathPattern(), value.storePath) {
      return false;
    }
    if value.narHash.Some? {
      SriMatches(value.narHash.value);
      if !Matches(SriPattern(), value.narHash.value) {
        return false;
      }
    }
    return !(value.narSize.Some? && value.narSize.value == 0);
  }

  method ValidateReferences(references: seq<Reference>) returns (ok: bool)
    ensures ok <==> (forall r :: r in references ==> ValidReference(Go, r)) && DistinctPaths(references)
  {
    hide ValidReference;
    var paths: set<string> := {};
    for i := 0 to |references|
      invariant paths == set k | 0 <= k < i :: references[k].storePath
      invariant forall k :: 0 <= k < i ==> ValidReference(Go, references[k])
      invariant DistinctPaths(references[..i])
    {
      assert references[i] in references;
      var valid := ValidateReference(references[i]);
      if !valid {
        return false;
      }
      if references[i].storePath in paths {
        var k :| 0 <= k < i && references[k].storePath == references[i].storePath;
        return false;
      }
      paths := paths + {references[i].storePath};
    }
    assert references[..|references|] == references;
    return true;
  }

  method ValidateIntent(value: Intent, defaultAttribute: string) returns (ok: bool, filled: Intent)
    ensures ok <==> ValidIntent(Go, value, defaultAttribute)
    ensures filled == value.(mode := if value.mode == "" then "artifact" else value.mode)
  {
    hide ValidSystem, NixIdentifier, Matches, IdentifierPattern;
    filled := value;
    if filled.mode == "" {
      filled := filled.(mode := "artifact");
    }
    if filled.mode != "artifact" {
      return false, filled;
    }
    var attribute := filled.attribute;
    if attribute == "" {
      attribute := defaultAttribute;
    }
    IdentifierMatches(attribute);
    if !Matches(IdentifierPattern(), attribute) || attribute == "default" {
      return false, filled;
    }
    if |filled.systems| == 0 || |filled.outputs| == 0 {
      return false, filled;
    }
    ok := ValidateUniqueStrings(filled.systems);
    if !ok {
      return;
    }
    ok := ValidateUniqueStrings(filled.outputs);
    if !ok {
      return;
    }
    for i := 0 to |filled.systems|
      invariant forall k :: 0 <= k < i ==> ValidSystem(filled.systems[k])
    {
      ok := ValidNixSystem(filled.systems[i]);
      if !ok {
        assert filled.systems[i] in value.systems;
        return;
      }
    }
    for i := 0 to |filled.outputs|
      invariant forall k :: 0 <= k < i ==> NixIdentifier(filled.outputs[k])
    {
      IdentifierMatches(filled.outputs[i]);
      if !Matches(IdentifierPattern(), filled.outputs[i]) {
        assert filled.outputs[i] in value.outputs;
        return false, filled;
      }
    }
    ok := true;
  }

  /** The loop over realized outputs with its sets of pairs and of realized systems. */
  method ValidateOutputs(outputs: seq<Realized>, intent: Intent) returns (ok: bool)
    ensures ok <==> ValidOutputs(Go, outputs, intent.systems, intent.outputs)
  {
    hide ValidRealized, ValidSystem, PairKey;
    if |outputs| == 0 {
      return false;
    }
    var declaredSystems := set s | s in intent.systems;
    var declaredOutputs := set s | s in intent.outputs;
    var realizedSystems: set<string> := {};
    var pairs: set<string> := {};
    for i := 0 to |outputs|
      invariant forall k :: 0 <= k < i ==>
        ValidRealized(Go, outputs[k]) && outputs[k].system in intent.systems && outputs[k].output in intent.outputs
      invariant pairs == set k | 0 <= k < i :: PairKey(outputs[k].system, outputs[k].output)
      invariant realizedSystems == set k | 0 <= k < i :: outputs[k].system
      invariant DistinctPairs(outputs[..i])
    {
      var output := outputs[i];
      var valid := ValidateRealized(output);
      if !valid || output.system !in declaredSystems || output.output !in declaredOutputs {
        return false;
      }
      var pair := PairKey(output.system, output.output);
      if pair in pairs {
        var k :| 0 <= k < i && PairKey(outputs[k].system, outputs[k].output) == pair;
        SamePair(Go, outputs[k], output);
        return false;
      }
      forall k | 0 <= k < i
        ensures (outputs[k].system, outputs[k].output) != (output.system, output.output)
      {
        assert PairKey(outputs[k].system, outputs[k].output) in pairs;
      }
      pairs := pairs + {pair};
      realizedSystems := realizedSystems + {output.system};
    }
    assert outputs[..|outputs|] == outputs;
    ok := declaredSystems <= realizedSystems;
    RealizedAll(outputs, intent.systems, declaredSystems, realizedSystems);
  }

  // ----- Sorting -----

  /** Any sorted permutation: callers may rely on nothing more. */
  method SortStrings(values: seq<string>) returns (sorted: seq<string>)
    ensures IsSortOf(Itself, CodePointLess(), values, sorted)
  {
    GoOrdersTotal();
    SortSorts(Itself, CodePointLess(), values);
    sorted := Sort(Itself, CodePointLess(), values);
  }

  method SortReferences(values: seq<Reference>) returns (sorted: seq<Reference>)
    ensures IsSortOf(StorePathOf, CodePointLess(), values, sorted)
  {
    GoOrdersTotal();
    SortSorts(StorePathOf, CodePointLess(), values);
    sorted := Sort(StorePathOf, CodePointLess(), values);
  }

  method SortOutputs(values: seq<Realized>) returns (sorted: seq<Realized>)
    ensures IsSortOf(PairOf, PairLess(CodePointLess()), values, sorted)
  {
    GoOrdersTotal();
    PairLessTotal(CodePointLess());
    SortSorts(PairOf, PairLess(CodePointLess()), values);
    sorted := Sort(PairOf, PairLess(CodePointLess()), values);
  }

  method NormalizeRealized(value: Realized) returns (r: Realized)
    ensures ViewRealized(r) == ViewRealized(value) && SortedRealized(GoOrders(), r)
  {
    var references := SortReferences(value.references);
    var signatures := SortStrings(value.signatures);
    r := value.(references := references, signatures := signatures);
  }

  // ----- The record -----

  class ZedToNixRecord {
    var direction: string
    var schema: string
    var package: Package
    var source: Origin
    var intent: Intent
    var flakeBundleSha256: string
    var outputs: seq<Realized>
    var policy: Policy

    function Value(): Record
      reads this
    {
      Record(direction, schema, package, source, intent, flakeBundleSha256, outputs, policy)
    }

    constructor (value: Record)
      ensures Value() == value
    {
      direction, schema, package, source := value.direction, value.schema, value.package, value.source;
      intent, flakeBundleSha256, outputs, policy := value.intent, value.flakeBundleSha256, value.outputs, value.policy;
    }

    /** Accepts exactly the valid records, writing the two defaults; a rejected record keeps all but those. */
    method Validate() returns (ok: bool)
      modifies this
      ensures ok <==> Accepts(Go, old(Value()))
      ensures ok ==> Value() == Fill(old(Value()))
      ensures Fill(Value()) == Fill(old(Value()))
    {
      hide ValidPackage, ValidOrigin, ValidIntent, ValidOutputs, Sha256Hex, ValidPolicy, Matches, HexPattern;
      if direction != "zed-to-nix" || schema != "zed.nix-adapter/v1" {
        return false;
      }
      var packageOk := ValidatePackage(package);
      if !packageOk {
        return false;
      }
      var originOk := ValidateOrigin();
      if !originOk {
        return false;
      }
      var intentOk, filled := ValidateIntent(intent, package.name);
      intent := filled;
      HexMatches(flakeBundleSha256);
      if !intentOk || !Matches(HexPattern(), flakeBundleSha256) {
        return false;
      }
      var outputsOk := ValidateOutputs(outputs, intent);
      if !outputsOk {
        return false;
      }
      ok := ValidatePolicy(policy);
    }

    method ValidateOrigin() returns (ok: bool)
      modifies this`source
      ensures ok <==> ValidOrigin(Go, old(source))
      ensures ok ==>
        source.artifact.format ==
        if old(source.artifact.format) == "" then "tar.gz" else old(source.artifact.format)
      ensures source == old(source)
              || (old(source.artifact.format) == ""
                  && source == old(source).(artifact := old(source.artifact).(format := "tar.gz")))
    {
      hide ValidRegistry, ValidRefToken, ValidArtifact, Sha256Hex, Length, Encoded, Matches, HexPattern;
      ok := ValidRegistryUrl(source.registry);
      if !ok {
        return false;
      }
      var artifactOk, filled := ValidateArtifact(source.artifact);
      source := source.(artifact := filled);
      if !artifactOk {
        return false;
      }
      var tag := ValidToken(source.vcsTag);
      var commit := ValidToken(source.vcsCommit);
      LengthIsEncoded(Go, source.vcsCommit);
      if !tag || |Encoded(Go, source.vcsCommit)| < 7 || !commit {
        return false;
      }
      if source.lockSha256.Some? {
        HexMatches(source.lockSha256.value);
      }
      return source.lockSha256.None? || Matches(HexPattern(), source.lockSha256.value);
    }

    /** Sorts every collection in place. */
    method Normalize()
      modifies this
      ensures IsNormalOf(GoOrders(), old(Value()), Value())
    {
      hide ViewRealized, SortedRealized, PairLess;
      var systems := SortStrings(intent.systems);
      var names := SortStrings(intent.outputs);
      intent := intent.(systems := systems, outputs := names);
      ghost var before := outputs;
      for index := 0 to |outputs|
        invariant |outputs| == |before| && outputs[index..] == before[index..]
        invariant direction == old(direction) && schema == old(schema) && package == old(package)
          && source == old(source)
        invariant intent == old(intent).(systems := systems, outputs := names)
        invariant flakeBundleSha256 == old(flakeBundleSha256) && policy == old(policy)
        invariant forall k :: 0 <= k < index ==>
          ViewRealized(outputs[k]) == ViewRealized(before[k]) && SortedRealized(GoOrders(), outputs[k])
      {
        var normal := NormalizeRealized(outputs[index]);
        outputs := outputs[index := normal];
      }
      ghost var normalized := outputs;
      outputs := SortOutputs(outputs);
      ReorderedOutputs(GoOrders(), before, normalized, outputs);
    }

    /** Validates and normalises a copy; the caller's record is not touched. */
    method CanonicalValue(codec: Codec) returns (r: Option<Record>)
      ensures r == CanonicalRecord(GoOrders(), codec, Value())
    {
      var decoded := codec.clone(codec.marshal(Value()));
      if decoded.None? {
        return None;
      }
      var copy := new ZedToNixRecord(decoded.value);
      var ok := copy.Validate();
      if !ok {
        return None;
      }
      ghost var filled := copy.Value();
      copy.Normalize();
      FillKeepsAcceptance(Go, decoded.value);
      GoOrdersTotal();
      NormalIsNormal(Go, GoOrders(), filled);
      NormalFormUnique(Go, GoOrders(), filled, filled, copy.Value(), Normal(GoOrders(), filled));
      return Some(copy.Value());
    }
  }

  // ----- Canonical bytes -----

  /** Parsing a document: decode, validate, fill, normalise. */
  method ParseRecordJson(c: Codec, data: Text) returns (record: ZedToNixRecord?)
    ensures record != null ==> fresh(record)
    ensures record == null <==> (c.decode(data).None? || !Accepts(Go, c.decode(data).value))
    ensures record != null ==> record.Value() == Normal(GoOrders(), Fill(c.decode(data).value))
  {
    hide Accepts, Normal, Fill;
    var decoded := c.decode(data);
    if decoded.None? {
      return null;
    }
    record := new ZedToNixRecord(decoded.value);
    var ok := record.Validate();
    if !ok {
      return null;
    }
    ghost var filled := record.Value();
    record.Normalize();
    FillKeepsAcceptance(Go, decoded.value);
    GoOrdersTotal();
    NormalIsNormal(Go, GoOrders(), filled);
    NormalFormUnique(Go, GoOrders(), filled, filled, record.Value(), Normal(GoOrders(), filled));
  }

  /** Accepts exactly the canonical spelling of what the bytes decode to, under the expected digest if one is given. */
  method VerifyCanonicalJson(c: Codec, data: Text, expectedSha256: string) returns (v: Verified)
    requires Lawful(c)
    ensures v == Verify(GoOrders(), c, data, expectedSha256)
  {
    hide Accepts, Normal, Sha256Hex, Fill, Matches, HexPattern;
    GoOrdersTotal();
    var record := ParseRecordJson(c, data);
    if record == null {
      return Rejected;
    }
    ParsedIsCanonical(GoOrders(), c, c.decode(data).value);
    var value := record.CanonicalValue(c);
    if value.None? {
      return Rejected;
    }
    var canonical := c.canonical(value.value);
    if data != canonical {
      return Rejected;
    }
    var digest := c.hash(canonical);
    HexMatches(expectedSha256);
    if expectedSha256 != "" && (!Matches(HexPattern(), expectedSha256) || digest != expectedSha256) {
      return Rejected;
    }
    return Verified(record.Value(), canonical, digest);
  }
}
