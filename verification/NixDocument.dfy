/**
 A record as the JSON value that the TypeScript client prints. The value determines the record, whatever
 the order of its keys.
 */
module NixDocument {
  import opened Bytes
  import opened Ordering
  import opened NixRecord
  import J = JsonText
  import opened JsonValue
  import opened JsonCanonical
  import opened JsonObject

  // ----- The value -----

  /** A string in UTF-16 units. */
  function Units(s: string): J.Text {
    if s == "" then []
    else (var n := s[0] as int;
          if n < 0x10000 then [n] else [0xD800 + (n - 0x10000) / 0x400, 0xDC00 + (n - 0x10000) % 0x400])
         + Units(s[1..])
  }

  function S(s: string): Json { Str(Units(s)) }

  function Text(s: string): Option<Json> { Some(S(s)) }

  function OptionalText(s: Option<string>): Option<Json> {
    if s.Some? then Text(s.value) else None
  }

  function Number(n: nat): Option<Json> { Some(Num(DecimalText(n))) }

  function OptionalNumber(n: Option<U64>): Option<Json> {
    if n.Some? then Number(n.value) else None
  }

  function Flag(b: bool): Option<Json> { Some(Bool(b)) }

  function List<T>(f: T -> Json, items: seq<T>): Option<Json> { Some(Arr(Map(f, items))) }

  /** An empty list is left out. */
  function OptionalList<T>(f: T -> Json, items: seq<T>): Option<Json> {
    if items == [] then None else List(f, items)
  }

  function PackageSlots(p: Package): seq<Slot> {
    [("org", Text(p.org)), ("name", Text(p.name)), ("version", Text(p.version)), ("target", OptionalText(p.target))]
  }

  function ArtifactSlots(a: Artifact): seq<Slot> {
    [("format", Text(a.format)), ("sha256", Text(a.sha256)), ("size", Number(a.size))]
  }

  function OriginSlots(o: Origin): seq<Slot> {
    [("registry", Text(o.registry)), ("artifact", Some(O(ArtifactSlots(o.artifact)))), ("vcs_tag", Text(o.vcsTag)),
     ("vcs_commit", Text(o.vcsCommit)), ("lock_sha256", OptionalText(o.lockSha256))]
  }

  function IntentSlots(v: Intent): seq<Slot> {
    [("mode", Text(v.mode)), ("systems", List(S, v.systems)), ("outputs", List(S, v.outputs)),
     ("attribute", OptionalText(if v.attribute == "" then None else Some(v.attribute)))]
  }

  function ReferenceSlots(r: Reference): seq<Slot> {
    [("store_path", Text(r.storePath)), ("nar_hash", OptionalText(r.narHash)), ("nar_size", OptionalNumber(r.narSize))]
  }

  function ReferenceJson(r: Reference): Json { O(ReferenceSlots(r)) }

  function RealizedSlots(v: Realized): seq<Slot> {
    [("system", Text(v.system)), ("output", Text(v.output)), ("derivation_json_sha256", Text(v.derivationSha256)),
     ("store_path", Text(v.storePath)), ("nar_hash", Text(v.narHash)), ("nar_size", Number(v.narSize)),
     ("nix_version", Text(v.nixVersion)), ("store_info_json_version", Number(v.storeInfoVersion)),
     ("references", OptionalList(ReferenceJson, v.references)), ("signatures", OptionalList(S, v.signatures))]
  }

  function RealizedJson(v: Realized): Json { O(RealizedSlots(v)) }

  function PolicySlots(p: Policy): seq<Slot> {
    [("profile", Text(p.profile)), ("pure_evaluation", Flag(p.pureEvaluation)),
     ("import_from_derivation", Flag(p.importFromDerivation)), ("sandbox_required", Flag(p.sandboxRequired)),
     ("builder_network", Text(p.builderNetwork)), ("dirty_source", Flag(p.dirtySource)),
     ("publishable", Flag(p.publishable))]
  }

  function DocumentSlots(r: Record): seq<Slot> {
    [("direction", Text(r.direction)), ("schema", Text(r.schema)), ("package", Some(O(PackageSlots(r.package)))),
     ("source", Some(O(OriginSlots(r.source)))), ("intent", Some(O(IntentSlots(r.intent)))),
     ("flake_bundle_sha256", Text(r.flakeBundleSha256)), ("outputs", List(RealizedJson, r.outputs)),
     ("policy", Some(O(PolicySlots(r.policy))))]
  }

  function Document(r: Record): Json { O(DocumentSlots(r)) }

  // ----- Scalars determine what they spell -----

  lemma {:induction false} UnitsInjective(s: string, t: string)
    requires Units(s) == Units(t)
    ensures s == t
  {
    if s != "" && t != "" {
      var m, n := s[0] as int, t[0] as int;
      assert Units(s)[0] == Units(t)[0];
      assert (m < 0x10000) == (n < 0x10000);
      if m < 0x10000 {
        assert Units(s)[1..] == Units(s[1..]) && Units(t)[1..] == Units(t[1..]);
      } else {
        assert Units(s)[1] == Units(t)[1];
        assert m == n;
        assert Units(s)[2..] == Units(s[1..]) && Units(t)[2..] == Units(t[1..]);
      }
      UnitsInjective(s[1..], t[1..]);
      assert s == [s[0]] + s[1..] && t == [t[0]] + t[1..];
    }
  }

  lemma DecimalInjective(m: nat, n: nat)
    requires DecimalText(m) == DecimalText(n)
    ensures m == n
  {
    DecimalBack(m);
    DecimalBack(n);
  }

  lemma TextsAgree(s: string, t: string)
    ensures Formed(Text(s)) && Formed(Text(t)) && (Same(Text(s), Text(t)) ==> s == t)
  {
    if Same(Text(s), Text(t)) {
      SameScalar(Text(s), Text(t));
      UnitsInjective(s, t);
    }
  }

  lemma OptionalTextsAgree(s: Option<string>, t: Option<string>)
    ensures Formed(OptionalText(s)) && Formed(OptionalText(t))
    ensures Same(OptionalText(s), OptionalText(t)) ==> s == t
  {
    if s.Some? && t.Some? {
      TextsAgree(s.value, t.value);
    }
  }

  lemma NumbersAgree(m: nat, n: nat)
    ensures Formed(Number(m)) && Formed(Number(n)) && (Same(Number(m), Number(n)) ==> m == n)
  {
    DecimalToken(m);
    DecimalToken(n);
    if Same(Number(m), Number(n)) {
      SameScalar(Number(m), Number(n));
      DecimalInjective(m, n);
    }
  }

  lemma OptionalNumbersAgree(m: Option<U64>, n: Option<U64>)
    ensures Formed(OptionalNumber(m)) && Formed(OptionalNumber(n))
    ensures Same(OptionalNumber(m), OptionalNumber(n)) ==> m == n
  {
    hide DecimalText;
    if m.Some? {
      NumbersAgree(m.value, if n.Some? then n.value else 0);
    }
    if n.Some? {
      NumbersAgree(n.value, n.value);
    }
    SameNone(OptionalNumber(m), OptionalNumber(n));
  }

  lemma FlagsAgree(a: bool, b: bool)
    ensures Formed(Flag(a)) && Formed(Flag(b)) && (Same(Flag(a), Flag(b)) ==> a == b)
  {}

  // ----- Lists -----

  /** `f` writes well-formed values that determine what they were written from. */
  ghost predicate Writer<T(!new)>(f: T -> Json) {
    forall a, b :: WellFormed(f(a)) && (Equiv(f(a), f(b)) ==> a == b)
  }

  lemma ListsAgree<T(!new)>(f: T -> Json, a: seq<T>, b: seq<T>)
    requires Writer(f)
    ensures Formed(List(f, a)) && Formed(List(f, b)) && (Same(List(f, a), List(f, b)) ==> a == b)
  {
    hide Map;
    if Same(List(f, a), List(f, b)) {
      assert |Map(f, a)| == |Map(f, b)|;
      forall i | 0 <= i < |a|
        ensures a[i] == b[i]
      {
        assert Equiv(Map(f, a)[i], Map(f, b)[i]);
      }
    }
  }

  lemma OptionalListsAgree<T(!new)>(f: T -> Json, a: seq<T>, b: seq<T>)
    requires Writer(f)
    ensures Formed(OptionalList(f, a)) && Formed(OptionalList(f, b))
    ensures Same(OptionalList(f, a), OptionalList(f, b)) ==> a == b
  {
    hide Map, Writer, Same;
    ListsAgree(f, a, b);
    SameNone(OptionalList(f, a), OptionalList(f, b));
  }

  lemma SameNone(x: Option<Json>, y: Option<Json>)
    ensures Same(x, y) ==> (x.None? <==> y.None?)
  {}

  lemma TextWriter()
    ensures Writer(S)
  {
    forall a, b
      ensures WellFormed(S(a)) && (Equiv(S(a), S(b)) ==> a == b)
    {
      TextsAgree(a, b);
    }
  }

  // ----- Objects -----

  /** The same keys, in the same order, each once. */
  predicate SameKeys(a: seq<Slot>, b: seq<Slot>) {
    |a| == |b| && (forall i :: 0 <= i < |a| ==> a[i].0 == b[i].0) && DistinctSlots(a) && DistinctSlots(b)
  }

  ghost predicate SameSlots(a: seq<Slot>, b: seq<Slot>)
    requires |a| == |b|
  {
    forall i :: 0 <= i < |a| ==> Same(a[i].1, b[i].1)
  }

  /** Both objects are well formed, and if they are the same up to key order, then so it is. */
  ghost predicate ObjectsSay(a: seq<Slot>, b: seq<Slot>, fact: bool) {
    WellFormed(O(a)) && WellFormed(O(b)) && (Equiv(O(a), O(b)) ==> fact)
  }

  lemma Inside(a: seq<Slot>, b: seq<Slot>, fact: bool)
    requires ObjectsSay(a, b, fact)
    ensures Formed(Some(O(a))) && Formed(Some(O(b))) && (Same(Some(O(a)), Some(O(b))) ==> fact)
  {
    hide O;
  }

  lemma KeysSuffice(a: seq<Slot>, b: seq<Slot>)
    requires |a| == |b| && (forall i :: 0 <= i < |a| ==> a[i].0 == b[i].0) && DistinctSlots(a)
    ensures SameKeys(a, b)
  {
    forall i | 0 <= i < |b|
      ensures FirstAt(b, i)
    {
      assert FirstAt(a, i);
    }
  }

  lemma ObjectsAgree(a: seq<Slot>, b: seq<Slot>)
    requires SameKeys(a, b) && FormedSlots(a) && FormedSlots(b)
    ensures ObjectsSay(a, b, SameSlots(a, b))
  {
    hide WellFormed, Equiv, Same, O;
    ObjectForm(a);
    ObjectForm(b);
    if Equiv(O(a), O(b)) {
      SlotsAgree(a, b);
    }
  }

  lemma PackageKeys(v: Package, w: Package)
    ensures SameKeys(PackageSlots(v), PackageSlots(w))
  {
    hide Text, OptionalText, Number, OptionalNumber, Flag, List, OptionalList, O;
    assert DistinctSlots(PackageSlots(v));
    hide FirstAt;
    KeysSuffice(PackageSlots(v), PackageSlots(w));
  }

  lemma PackageSlotsAgree(v: Package, w: Package)
    ensures FormedSlots(PackageSlots(v)) && FormedSlots(PackageSlots(w))
    ensures SameSlots(PackageSlots(v), PackageSlots(w)) ==> v == w
  {
    hide Text, OptionalText, Number, OptionalNumber, Flag, List, OptionalList, O, Same, Formed;
    TextsAgree(v.org, w.org);
    TextsAgree(v.name, w.name);
    TextsAgree(v.version, w.version);
    OptionalTextsAgree(v.target, w.target);
    var a, b := PackageSlots(v), PackageSlots(w);
    if SameSlots(a, b) {
      assert Same(a[0].1, b[0].1) && Same(a[1].1, b[1].1) && Same(a[2].1, b[2].1) && Same(a[3].1, b[3].1);
    }
  }

  lemma PackageAgrees(v: Package, w: Package)
    ensures ObjectsSay(PackageSlots(v), PackageSlots(w), v == w)
  {
    hide PackageSlots, SameKeys, FormedSlots, SameSlots, WellFormed, Equiv, O;
    PackageKeys(v, w);
    PackageSlotsAgree(v, w);
    ObjectsAgree(PackageSlots(v), PackageSlots(w));
  }

  lemma ArtifactKeys(v: Artifact, w: Artifact)
    ensures SameKeys(ArtifactSlots(v), ArtifactSlots(w))
  {
    hide Text, OptionalText, Number, OptionalNumber, Flag, List, OptionalList, O;
    assert DistinctSlots(ArtifactSlots(v));
    hide FirstAt;
    KeysSuffice(ArtifactSlots(v), ArtifactSlots(w));
  }

  lemma ArtifactSlotsAgree(v: Artifact, w: Artifact)
    ensures FormedSlots(ArtifactSlots(v)) && FormedSlots(ArtifactSlots(w))
    ensures SameSlots(ArtifactSlots(v), ArtifactSlots(w)) ==> v == w
  {
    hide Text, OptionalText, Number, OptionalNumber, Flag, List, OptionalList, O, Same, Formed;
    TextsAgree(v.format, w.format);
    TextsAgree(v.sha256, w.sha256);
    NumbersAgree(v.size, w.size);
    var a, b := ArtifactSlots(v), ArtifactSlots(w);
    if SameSlots(a, b) {
      assert Same(a[0].1, b[0].1) && Same(a[1].1, b[1].1) && Same(a[2].1, b[2].1);
    }
  }

  lemma ArtifactAgrees(v: Artifact, w: Artifact)
    ensures ObjectsSay(ArtifactSlots(v), ArtifactSlots(w), v == w)
  {
    hide ArtifactSlots, SameKeys, FormedSlots, SameSlots, WellFormed, Equiv, O;
    ArtifactKeys(v, w);
    ArtifactSlotsAgree(v, w);
    ObjectsAgree(ArtifactSlots(v), ArtifactSlots(w));
  }

  lemma OriginKeys(v: Origin, w: Origin)
    ensures SameKeys(OriginSlots(v), OriginSlots(w))
  {
    hide Text, OptionalText, Number, OptionalNumber, Flag, List, OptionalList, O;
    assert DistinctSlots(OriginSlots(v));
    hide FirstAt;
    KeysSuffice(OriginSlots(v), OriginSlots(w));
  }

  lemma OriginSlotsAgree(v: Origin, w: Origin)
    ensures FormedSlots(OriginSlots(v)) && FormedSlots(OriginSlots(w))
    ensures SameSlots(OriginSlots(v), OriginSlots(w)) ==> v == w
  {
    hide Text, OptionalText, Number, OptionalNumber, Flag, List, OptionalList, O, Same, Formed;
    TextsAgree(v.registry, w.registry);
    ArtifactAgrees(v.artifact, w.artifact);
    Inside(ArtifactSlots(v.artifact), ArtifactSlots(w.artifact), v.artifact == w.artifact);
    TextsAgree(v.vcsTag, w.vcsTag);
    TextsAgree(v.vcsCommit, w.vcsCommit);
    OptionalTextsAgree(v.lockSha256, w.lockSha256);
    var a, b := OriginSlots(v), OriginSlots(w);
    if SameSlots(a, b) {
      assert Same(a[0].1, b[0].1) && Same(a[1].1, b[1].1) && Same(a[2].1, b[2].1) && Same(a[3].1, b[3].1)
        && Same(a[4].1, b[4].1);
    }
  }

  lemma OriginAgrees(v: Origin, w: Origin)
    ensures ObjectsSay(OriginSlots(v), OriginSlots(w), v == w)
  {
    hide OriginSlots, SameKeys, FormedSlots, SameSlots, WellFormed, Equiv, O;
    OriginKeys(v, w);
    OriginSlotsAgree(v, w);
    ObjectsAgree(OriginSlots(v), OriginSlots(w));
  }

  lemma AttributesAgree(s: string, t: string)
    ensures var x, y := if s == "" then None else Some(s), if t == "" then None else Some(t);
            && Formed(OptionalText(x)) && Formed(OptionalText(y)) && (Same(OptionalText(x), OptionalText(y)) ==> s == t)
  {
    hide Formed, Same, OptionalText;
    OptionalTextsAgree(if s == "" then None else Some(s), if t == "" then None else Some(t));
  }

  lemma IntentKeys(v: Intent, w: Intent)
    ensures SameKeys(IntentSlots(v), IntentSlots(w))
  {
    hide Text, OptionalText, Number, OptionalNumber, Flag, List, OptionalList, O;
    assert DistinctSlots(IntentSlots(v));
    hide FirstAt;
    KeysSuffice(IntentSlots(v), IntentSlots(w));
  }

  lemma IntentSlotsAgree(v: Intent, w: Intent)
    ensures FormedSlots(IntentSlots(v)) && FormedSlots(IntentSlots(w))
    ensures SameSlots(IntentSlots(v), IntentSlots(w)) ==> v == w
  {
    hide Text, OptionalText, Number, OptionalNumber, Flag, List, OptionalList, O, Same, Formed;
    TextWriter();
    TextsAgree(v.mode, w.mode);
    ListsAgree(S, v.systems, w.systems);
    ListsAgree(S, v.outputs, w.outputs);
    AttributesAgree(v.attribute, w.attribute);
    var a, b := IntentSlots(v), IntentSlots(w);
    if SameSlots(a, b) {
      assert Same(a[0].1, b[0].1) && Same(a[1].1, b[1].1) && Same(a[2].1, b[2].1) && Same(a[3].1, b[3].1);
    }
  }

  lemma IntentAgrees(v: Intent, w: Intent)
    ensures ObjectsSay(IntentSlots(v), IntentSlots(w), v == w)
  {
    hide IntentSlots, SameKeys, FormedSlots, SameSlots, WellFormed, Equiv, O;
    IntentKeys(v, w);
    IntentSlotsAgree(v, w);
    ObjectsAgree(IntentSlots(v), IntentSlots(w));
  }

  lemma ReferenceKeys(v: Reference, w: Reference)
    ensures SameKeys(ReferenceSlots(v), ReferenceSlots(w))
  {
    hide Text, OptionalText, Number, OptionalNumber, Flag, List, OptionalList, O;
    assert DistinctSlots(ReferenceSlots(v));
    hide FirstAt;
    KeysSuffice(ReferenceSlots(v), ReferenceSlots(w));
  }

  lemma ReferenceSlotsAgree(v: Reference, w: Reference)
    ensures FormedSlots(ReferenceSlots(v)) && FormedSlots(ReferenceSlots(w))
    ensures SameSlots(ReferenceSlots(v), ReferenceSlots(w)) ==> v == w
  {
    hide Text, OptionalText, Number, OptionalNumber, Flag, List, OptionalList, O, Same, Formed;
    TextsAgree(v.storePath, w.storePath);
    OptionalTextsAgree(v.narHash, w.narHash);
    OptionalNumbersAgree(v.narSize, w.narSize);
    var a, b := ReferenceSlots(v), ReferenceSlots(w);
    if SameSlots(a, b) {
      assert Same(a[0].1, b[0].1) && Same(a[1].1, b[1].1) && Same(a[2].1, b[2].1);
    }
  }

  lemma ReferenceAgrees(v: Reference, w: Reference)
    ensures ObjectsSay(ReferenceSlots(v), ReferenceSlots(w), v == w)
  {
    hide ReferenceSlots, SameKeys, FormedSlots, SameSlots, WellFormed, Equiv, O;
    ReferenceKeys(v, w);
    ReferenceSlotsAgree(v, w);
    ObjectsAgree(ReferenceSlots(v), ReferenceSlots(w));
  }

  lemma ReferenceWriter()
    ensures Writer(ReferenceJson)
  {
    hide WellFormed, Equiv, O, ReferenceSlots;
    forall a, b
      ensures WellFormed(ReferenceJson(a)) && (Equiv(ReferenceJson(a), ReferenceJson(b)) ==> a == b)
    {
      ReferenceAgrees(a, b);
    }
  }

  lemma RealizedKeys(v: Realized, w: Realized)
    ensures SameKeys(RealizedSlots(v), RealizedSlots(w))
  {
    hide Text, OptionalText, Number, OptionalNumber, Flag, List, OptionalList, O;
    assert DistinctSlots(RealizedSlots(v));
    hide FirstAt;
    KeysSuffice(RealizedSlots(v), RealizedSlots(w));
  }

  /** The values, slot by slot. */
  lemma RealizedValues(v: Realized)
    ensures var a := RealizedSlots(v);
            && |a| == 10
            && a[0].1 == Text(v.system) && a[1].1 == Text(v.output) && a[2].1 == Text(v.derivationSha256)
            && a[3].1 == Text(v.storePath) && a[4].1 == Text(v.narHash) && a[5].1 == Number(v.narSize)
            && a[6].1 == Text(v.nixVersion) && a[7].1 == Number(v.storeInfoVersion)
            && a[8].1 == OptionalList(ReferenceJson, v.references) && a[9].1 == OptionalList(S, v.signatures)
  {
    hide Text, OptionalText, Number, OptionalNumber, Flag, List, OptionalList, O;
  }

  lemma RealizedForm(v: Realized)
    ensures FormedSlots(RealizedSlots(v))
  {
    RealizedValues(v);
    hide RealizedSlots, Text, OptionalText, Number, OptionalNumber, Flag, List, OptionalList, O, Formed;
    TextWriter();
    ReferenceWriter();
    TextsAgree(v.system, v.system);
    TextsAgree(v.output, v.output);
    TextsAgree(v.derivationSha256, v.derivationSha256);
    TextsAgree(v.storePath, v.storePath);
    TextsAgree(v.narHash, v.narHash);
    NumbersAgree(v.narSize, v.narSize);
    TextsAgree(v.nixVersion, v.nixVersion);
    NumbersAgree(v.storeInfoVersion, v.storeInfoVersion);
    OptionalListsAgree(ReferenceJson, v.references, v.references);
    OptionalListsAgree(S, v.signatures, v.signatures);
  }

  lemma RealizedSlotsAgree(v: Realized, w: Realized)
    ensures |RealizedSlots(v)| == |RealizedSlots(w)|
    ensures SameSlots(RealizedSlots(v), RealizedSlots(w)) ==> v == w
  {
    RealizedValues(v);
    RealizedValues(w);
    hide RealizedSlots, Text, OptionalText, Number, OptionalNumber, Flag, List, OptionalList, O, Same, Formed;
    TextWriter();
    ReferenceWriter();
    TextsAgree(v.system, w.system);
    TextsAgree(v.output, w.output);
    TextsAgree(v.derivationSha256, w.derivationSha256);
    TextsAgree(v.storePath, w.storePath);
    TextsAgree(v.narHash, w.narHash);
    NumbersAgree(v.narSize, w.narSize);
    TextsAgree(v.nixVersion, w.nixVersion);
    NumbersAgree(v.storeInfoVersion, w.storeInfoVersion);
    OptionalListsAgree(ReferenceJson, v.references, w.references);
    OptionalListsAgree(S, v.signatures, w.signatures);
    var a, b := RealizedSlots(v), RealizedSlots(w);
    if SameSlots(a, b) {
      assert Same(a[0].1, b[0].1) && Same(a[1].1, b[1].1) && Same(a[2].1, b[2].1) && Same(a[3].1, b[3].1)
        && Same(a[4].1, b[4].1) && Same(a[5].1, b[5].1) && Same(a[6].1, b[6].1) && Same(a[7].1, b[7].1)
        && Same(a[8].1, b[8].1) && Same(a[9].1, b[9].1);
    }
  }

  lemma RealizedAgrees(v: Realized, w: Realized)
    ensures ObjectsSay(RealizedSlots(v), RealizedSlots(w), v == w)
  {
    hide RealizedSlots, SameKeys, FormedSlots, SameSlots, WellFormed, Equiv, O;
    RealizedKeys(v, w);
    RealizedForm(v);
    RealizedForm(w);
    RealizedSlotsAgree(v, w);
    ObjectsAgree(RealizedSlots(v), RealizedSlots(w));
  }

  lemma RealizedWriter()
    ensures Writer(RealizedJson)
  {
    hide WellFormed, Equiv, O, RealizedSlots;
    forall a, b
      ensures WellFormed(RealizedJson(a)) && (Equiv(RealizedJson(a), RealizedJson(b)) ==> a == b)
    {
      RealizedAgrees(a, b);
    }
  }

  lemma PolicyKeys(v: Policy, w: Policy)
    ensures SameKeys(PolicySlots(v), PolicySlots(w))
  {
    hide Text, OptionalText, Number, OptionalNumber, Flag, List, OptionalList, O;
    assert DistinctSlots(PolicySlots(v));
    hide FirstAt;
    KeysSuffice(PolicySlots(v), PolicySlots(w));
  }

  /** The values, slot by slot. */
  lemma PolicyValues(v: Policy)
    ensures var a := PolicySlots(v);
            && |a| == 7
            && a[0].1 == Text(v.profile) && a[1].1 == Flag(v.pureEvaluation)
            && a[2].1 == Flag(v.importFromDerivation) && a[3].1 == Flag(v.sandboxRequired)
            && a[4].1 == Text(v.builderNetwork) && a[5].1 == Flag(v.dirtySource) && a[6].1 == Flag(v.publishable)
  {
    hide Text, OptionalText, Number, OptionalNumber, Flag, List, OptionalList, O;
  }

  lemma PolicyForm(v: Policy)
    ensures FormedSlots(PolicySlots(v))
  {
    PolicyValues(v);
    hide PolicySlots, Text, OptionalText, Number, OptionalNumber, Flag, List, OptionalList, O, Formed;
    TextsAgree(v.profile, v.profile);
    FlagsAgree(v.pureEvaluation, v.pureEvaluation);
    FlagsAgree(v.importFromDerivation, v.importFromDerivation);
    FlagsAgree(v.sandboxRequired, v.sandboxRequired);
    TextsAgree(v.builderNetwork, v.builderNetwork);
    FlagsAgree(v.dirtySource, v.dirtySource);
    FlagsAgree(v.publishable, v.publishable);
  }

  lemma PolicySlotsAgree(v: Policy, w: Policy)
    ensures |PolicySlots(v)| == |PolicySlots(w)|
    ensures SameSlots(PolicySlots(v), PolicySlots(w)) ==> v == w
  {
    PolicyValues(v);
    PolicyValues(w);
    hide PolicySlots, Text, OptionalText, Number, OptionalNumber, Flag, List, OptionalList, O, Same, Formed;
    TextsAgree(v.profile, w.profile);
    FlagsAgree(v.pureEvaluation, w.pureEvaluation);
    FlagsAgree(v.importFromDerivation, w.importFromDerivation);
    FlagsAgree(v.sandboxRequired, w.sandboxRequired);
    TextsAgree(v.builderNetwork, w.builderNetwork);
    FlagsAgree(v.dirtySource, w.dirtySource);
    FlagsAgree(v.publishable, w.publishable);
    var a, b := PolicySlots(v), PolicySlots(w);
    if SameSlots(a, b) {
      assert Same(a[0].1, b[0].1) && Same(a[1].1, b[1].1) && Same(a[2].1, b[2].1) && Same(a[3].1, b[3].1)
        && Same(a[4].1, b[4].1) && Same(a[5].1, b[5].1) && Same(a[6].1, b[6].1);
    }
  }

  lemma PolicyAgrees(v: Policy, w: Policy)
    ensures ObjectsSay(PolicySlots(v), PolicySlots(w), v == w)
  {
    hide PolicySlots, SameKeys, FormedSlots, SameSlots, WellFormed, Equiv, O;
    PolicyKeys(v, w);
    PolicyForm(v);
    PolicyForm(w);
    PolicySlotsAgree(v, w);
    ObjectsAgree(PolicySlots(v), PolicySlots(w));
  }

  lemma DocumentKeys(v: Record, w: Record)
    ensures SameKeys(DocumentSlots(v), DocumentSlots(w))
  {
    hide Text, OptionalText, Number, OptionalNumber, Flag, List, OptionalList, O;
    assert DistinctSlots(DocumentSlots(v));
    hide FirstAt;
    KeysSuffice(DocumentSlots(v), DocumentSlots(w));
  }

  /** The values, slot by slot. */
  lemma DocumentValues(v: Record)
    ensures var a := DocumentSlots(v);
            && |a| == 8
            && a[0].1 == Text(v.direction) && a[1].1 == Text(v.schema) && a[2].1 == Some(O(PackageSlots(v.package)))
            && a[3].1 == Some(O(OriginSlots(v.source))) && a[4].1 == Some(O(IntentSlots(v.intent)))
            && a[5].1 == Text(v.flakeBundleSha256) && a[6].1 == List(RealizedJson, v.outputs)
            && a[7].1 == Some(O(PolicySlots(v.policy)))
  {
    hide Text, OptionalText, Number, OptionalNumber, Flag, List, OptionalList, O;
  }

  lemma DocumentForm(v: Record)
    ensures FormedSlots(DocumentSlots(v))
  {
    DocumentValues(v);
    hide DocumentSlots, Text, OptionalText, Number, OptionalNumber, Flag, List, OptionalList, O, Formed;
    RealizedWriter();
    TextsAgree(v.direction, v.direction);
    TextsAgree(v.schema, v.schema);
    PackageAgrees(v.package, v.package);
    Inside(PackageSlots(v.package), PackageSlots(v.package), v.package == v.package);
    OriginAgrees(v.source, v.source);
    Inside(OriginSlots(v.source), OriginSlots(v.source), v.source == v.source);
    IntentAgrees(v.intent, v.intent);
    Inside(IntentSlots(v.intent), IntentSlots(v.intent), v.intent == v.intent);
    TextsAgree(v.flakeBundleSha256, v.flakeBundleSha256);
    ListsAgree(RealizedJson, v.outputs, v.outputs);
    PolicyAgrees(v.policy, v.policy);
    Inside(PolicySlots(v.policy), PolicySlots(v.policy), v.policy == v.policy);
  }

  lemma DocumentSlotsAgree(v: Record, w: Record)
    ensures |DocumentSlots(v)| == |DocumentSlots(w)|
    ensures SameSlots(DocumentSlots(v), DocumentSlots(w)) ==> v == w
  {
    DocumentValues(v);
    DocumentValues(w);
    hide DocumentSlots, Text, OptionalText, Number, OptionalNumber, Flag, List, OptionalList, O, Same, Formed;
    RealizedWriter();
    TextsAgree(v.direction, w.direction);
    TextsAgree(v.schema, w.schema);
    PackageAgrees(v.package, w.package);
    Inside(PackageSlots(v.package), PackageSlots(w.package), v.package == w.package);
    OriginAgrees(v.source, w.source);
    Inside(OriginSlots(v.source), OriginSlots(w.source), v.source == w.source);
    IntentAgrees(v.intent, w.intent);
    Inside(IntentSlots(v.intent), IntentSlots(w.intent), v.intent == w.intent);
    TextsAgree(v.flakeBundleSha256, w.flakeBundleSha256);
    ListsAgree(RealizedJson, v.outputs, w.outputs);
    PolicyAgrees(v.policy, w.policy);
    Inside(PolicySlots(v.policy), PolicySlots(w.policy), v.policy == w.policy);
    var a, b := DocumentSlots(v), DocumentSlots(w);
    if SameSlots(a, b) {
      assert Same(a[0].1, b[0].1) && Same(a[1].1, b[1].1) && Same(a[2].1, b[2].1) && Same(a[3].1, b[3].1)
        && Same(a[4].1, b[4].1) && Same(a[5].1, b[5].1) && Same(a[6].1, b[6].1) && Same(a[7].1, b[7].1);
    }
  }

  lemma DocumentAgrees(v: Record, w: Record)
    ensures ObjectsSay(DocumentSlots(v), DocumentSlots(w), v == w)
  {
    hide DocumentSlots, SameKeys, FormedSlots, SameSlots, WellFormed, Equiv, O;
    DocumentKeys(v, w);
    DocumentForm(v);
    DocumentForm(w);
    DocumentSlotsAgree(v, w);
    ObjectsAgree(DocumentSlots(v), DocumentSlots(w));
  }
}
