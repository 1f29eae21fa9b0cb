/**
 zed-to-nix adapter records: the values, the acceptance rules of the Go and the TypeScript client, and
 the normal form. The two clients share every rule but the few that take a `Dialect`; the orders the
 sorts use are a parameter, so what is proved here holds for any of them.
 */
module NixRecord {
  import opened Bytes
  import opened Ordering

  type U64 = x: int | 0 <= x < 0x1_0000_0000_0000_0000
  type U32 = x: int | 0 <= x < 0x1_0000_0000

  datatype Package = Package(org: string, name: string, version: string, target: Option<string>)
  datatype Artifact = Artifact(format: string, sha256: string, size: U64)
  datatype Policy = Policy(profile: string, pureEvaluation: bool, importFromDerivation: bool, sandboxRequired: bool,
                           builderNetwork: string, dirtySource: bool, publishable: bool)
  datatype Intent = Intent(mode: string, attribute: string, systems: seq<string>, outputs: seq<string>)
  datatype Origin = Origin(registry: string, artifact: Artifact, vcsTag: string, vcsCommit: string,
                           lockSha256: Option<string>)
  datatype Reference = Reference(storePath: string, narHash: Option<string>, narSize: Option<U64>)
  datatype Realized = Realized(system: string, output: string, derivationSha256: string, storePath: string,
                               narHash: string, narSize: U64, references: seq<Reference>, signatures: seq<string>,
                               nixVersion: string, storeInfoVersion: U32)
  datatype Record = Record(direction: string, schema: string, package: Package, source: Origin, intent: Intent,
                           flakeBundleSha256: string, outputs: seq<Realized>, policy: Policy)

  // ----- Tokens -----

  datatype Dialect = Go | TypeScript

  predicate Lower(c: char) { 'a' <= c <= 'z' }
  predicate Upper(c: char) { 'A' <= c <= 'Z' }
  predicate Digit(c: char) { '0' <= c <= '9' }
  predicate LowerHex(c: char) { Digit(c) || 'a' <= c <= 'f' }

  /** White space: of Unicode in Go, of ECMAScript (no next-line, but the byte-order mark) in TypeScript. */
  predicate Space(d: Dialect, c: char) {
    var n := c as int;
    9 <= n <= 13 || n == 0x20 || (if d.Go? then n == 0x85 else n == 0xFEFF) || n == 0xA0 || n == 0x1680
      || 0x2000 <= n <= 0x200A
    || n == 0x2028 || n == 0x2029 || n == 0x202F || n == 0x205F || n == 0x3000
  }

  predicate Control(c: char) {
    c as int < 0x20 || 0x7F <= c as int <= 0x9F
  }

  predicate All(p: char -> bool, s: string) {
    forall i :: 0 <= i < |s| ==> p(s[i])
  }

  predicate Trimmed(d: Dialect, s: string) {
    s == "" || (!Space(d, s[0]) && !Space(d, s[|s| - 1]))
  }

  predicate NoSpace(d: Dialect, s: string) { All(c => !Space(d, c), s) }

  predicate Blank(d: Dialect, s: string) { All(c => Space(d, c), s) }

  predicate ValidSlug(s: string) {
    1 <= |s| <= 128 && (Lower(s[0]) || Digit(s[0])) && (Lower(s[|s| - 1]) || Digit(s[|s| - 1]))
    && All(c => Lower(c) || Digit(c) || c == '.' || c == '_' || c == '-', s)
  }

  predicate ValidTarget(s: string) {
    1 <= |s| <= 128 && (Lower(s[0]) || Digit(s[0])) && (Lower(s[|s| - 1]) || Digit(s[|s| - 1]))
    && All(c => Lower(c) || Digit(c) || c == '.' || c == '_' || c == '+' || c == '-', s)
  }

  predicate NixIdentifier(s: string) {
    s != "" && (Lower(s[0]) || Upper(s[0]) || s[0] == '_')
    && All(c => Lower(c) || Upper(c) || Digit(c) || c == '_' || c == '\'' || c == '-', s)
  }

  predicate NixBase32(c: char) {
    Digit(c) || (Lower(c) && c != 'e' && c != 'o' && c != 't' && c != 'u')
  }

  predicate StoreNameChar(c: char) {
    Lower(c) || Upper(c) || Digit(c) || c == '+' || c == '.' || c == '_' || c == '?' || c == '-'
  }

  const STORE_PREFIX := "/nix/store/"

  predicate NixStorePath(s: string) {
    |s| > 44 && s[..11] == STORE_PREFIX && All(NixBase32, s[11..43]) && s[43] == '-'
    && All(StoreNameChar, s[44..])
  }

  predicate Sha256Hex(s: string) { |s| == 64 && All(LowerHex, s) }

  predicate Sha256Sri(s: string) {
    |s| == 51 && s[..7] == "sha256-" && s[50] == '='
    && All(c => Lower(c) || Upper(c) || Digit(c) || c == '+' || c == '/', s[7..50])
  }

  predicate ValidSystem(s: string) {
    s != "" && '-' in s && s[0] != '-' && s[|s| - 1] != '-'
    && All(c => Lower(c) || Digit(c) || c == '_' || c == '-', s)
  }

  predicate ValidRegistry(d: Dialect, s: string) {
    s != "" && Trimmed(d, s) && NoSpace(d, s) && (d.Go? ==> All(c => !Control(c), s))
    && ("https://" <= s || "http://" <= s || "file://" <= s)
  }

  predicate ValidRefToken(d: Dialect, s: string) { s != "" && Trimmed(d, s) && NoSpace(d, s) }

  /** The length of a string: UTF-8 octets in Go, UTF-16 units in TypeScript. */
  function Length(d: Dialect, s: string): nat {
    if s == "" then 0
    else (var n := s[0] as int;
          if d.Go? then (if n < 0x80 then 1 else if n < 0x800 then 2 else if n < 0x10000 then 3 else 4)
          else (if n < 0x10000 then 1 else 2))
         + Length(d, s[1..])
  }

  const MAX_SAFE_INTEGER: int := 0x1F_FFFF_FFFF_FFFF

  /** A positive size: any 64-bit one in Go, a safe integer in TypeScript. */
  predicate ValidSize(d: Dialect, n: U64) {
    n != 0 && (d.TypeScript? ==> n <= MAX_SAFE_INTEGER)
  }

  // ----- Acceptance -----

  predicate ValidPackage(d: Dialect, p: Package) {
    ValidSlug(p.org) && ValidSlug(p.name) && ValidRefToken(d, p.version)
    && (p.target.Some? ==> ValidTarget(p.target.value))
  }

  predicate ValidArtifact(d: Dialect, a: Artifact) {
    (a.format == "" || a.format == "tar.gz" || a.format == "zip") && Sha256Hex(a.sha256) && ValidSize(d, a.size)
  }

  predicate ValidOrigin(d: Dialect, o: Origin) {
    ValidRegistry(d, o.registry) && ValidArtifact(d, o.artifact) && ValidRefToken(d, o.vcsTag)
    && Length(d, o.vcsCommit) >= 7 && ValidRefToken(d, o.vcsCommit)
    && (o.lockSha256.Some? ==> Sha256Hex(o.lockSha256.value))
  }

  predicate ValidPolicy(d: Dialect, p: Policy) {
    (d.TypeScript? ==> p.builderNetwork in {"disabled", "preparation-only", "allowed"}) &&
    if p.profile == "strict-v1" then
      p.pureEvaluation && !p.importFromDerivation && p.sandboxRequired && p.builderNetwork == "disabled"
      && !p.dirtySource && p.publishable
    else
      p.profile == "development" && !p.publishable
  }

  /** Only Go asks the package name, when it stands in for the attribute, to be a Nix identifier. */
  predicate ValidIntent(d: Dialect, v: Intent, defaultAttribute: string) {
    var attribute := if v.attribute == "" then defaultAttribute else v.attribute;
    && (v.mode == "" || v.mode == "artifact")
    && (d.Go? || v.attribute != "" ==> NixIdentifier(attribute)) && attribute != "default"
    && v.systems != [] && v.outputs != []
    && Distinct(v.systems) && Distinct(v.outputs)
    && (forall s :: s in v.systems ==> ValidSystem(s))
    && (forall s :: s in v.outputs ==> NixIdentifier(s))
  }

  predicate ValidReference(d: Dialect, r: Reference) {
    NixStorePath(r.storePath) && (r.narHash.Some? ==> Sha256Sri(r.narHash.value))
    && (r.narSize.Some? ==> ValidSize(d, r.narSize.value))
  }

  predicate DistinctPaths(s: seq<Reference>) {
    forall i, j :: 0 <= i < j < |s| ==> s[i].storePath != s[j].storePath
  }

  predicate ValidRealized(d: Dialect, v: Realized) {
    && ValidSystem(v.system) && NixIdentifier(v.output)
    && Sha256Hex(v.derivationSha256) && NixStorePath(v.storePath) && Sha256Sri(v.narHash) && ValidSize(d, v.narSize)
    && (forall r :: r in v.references ==> ValidReference(d, r)) && DistinctPaths(v.references)
    && Distinct(v.signatures) && (forall s :: s in v.signatures ==> ValidRefToken(d, s))
    && !Blank(d, v.nixVersion)
    && 1 <= v.storeInfoVersion <= 3
  }

  predicate DistinctPairs(s: seq<Realized>) {
    forall i, j :: 0 <= i < j < |s| ==> (s[i].system, s[i].output) != (s[j].system, s[j].output)
  }

  /** Everything but the intent and the realized outputs. */
  predicate ValidHeader(d: Dialect, r: Record) {
    r.direction == "zed-to-nix" && r.schema == "zed.nix-adapter/v1" && ValidPackage(d, r.package)
    && ValidOrigin(d, r.source) && Sha256Hex(r.flakeBundleSha256) && ValidPolicy(d, r.policy)
  }

  /** Valid realized outputs inside the declared intent, one for a pair, and one at least for every declared system. */
  ghost predicate ValidOutputs(d: Dialect, outputs: seq<Realized>, systems: seq<string>, names: seq<string>) {
    && outputs != []
    && (forall o :: o in outputs ==> ValidRealized(d, o) && o.system in systems && o.output in names)
    && DistinctPairs(outputs)
    && (forall s :: s in systems ==> exists o :: o in outputs && o.system == s)
  }

  /** What the client accepts, before the two defaults are filled. */
  ghost predicate Accepts(d: Dialect, r: Record) {
    ValidHeader(d, r) && ValidIntent(d, r.intent, r.package.name)
    && ValidOutputs(d, r.outputs, r.intent.systems, r.intent.outputs)
  }

  /** The two defaults that validation writes into the record. */
  function Fill(r: Record): Record {
    r.(source := r.source.(artifact := r.source.artifact.(
         format := if r.source.artifact.format == "" then "tar.gz" else r.source.artifact.format)),
       intent := r.intent.(mode := if r.intent.mode == "" then "artifact" else r.intent.mode))
  }

  /** The set key of a system/output pair: the two joined by NUL. */
  function PairKey(system: string, output: string): string {
    system + "\U{0}" + output
  }

  /** A valid system holds no NUL, so the joined key tells pairs apart. */
  lemma PairKeyInjective(s: string, o: string, t: string, p: string)
    requires ValidSystem(s) && ValidSystem(t)
    ensures PairKey(s, o) == PairKey(t, p) <==> s == t && o == p
  {
    var x, y := PairKey(s, o), PairKey(t, p);
    if x == y {
      assert x[|s|] == '\U{0}' && y[|t|] == '\U{0}';
      assert forall i :: 0 <= i < |s| ==> x[i] == s[i] != '\U{0}';
      assert forall i :: 0 <= i < |t| ==> y[i] == t[i] != '\U{0}';
      assert |s| == |t|;
      assert s == x[..|s|] && t == y[..|t|];
      assert o == x[|s| + 1..] && p == y[|t| + 1..];
    }
  }

  lemma SamePair(d: Dialect, v: Realized, w: Realized)
    requires ValidRealized(d, v) && ValidRealized(d, w)
    ensures PairKey(v.system, v.output) == PairKey(w.system, w.output) <==> v.system == w.system && v.output == w.output
  {
    PairKeyInjective(v.system, v.output, w.system, w.output);
  }

  lemma RealizedAll(outputs: seq<Realized>, systems: seq<string>, declared: set<string>, realized: set<string>)
    requires declared == set s | s in systems
    requires realized == set k | 0 <= k < |outputs| :: outputs[k].system
    ensures declared <= realized <==> forall s :: s in systems ==> exists o :: o in outputs && o.system == s
  {
    if declared <= realized {
      forall s | s in systems
        ensures exists o :: o in outputs && o.system == s
      {
        assert s in realized;
        var k :| 0 <= k < |outputs| && outputs[k].system == s;
        assert outputs[k] in outputs;
      }
    }
    if forall s :: s in systems ==> exists o :: o in outputs && o.system == s {
      forall s | s in declared
        ensures s in realized
      {
        var o :| o in outputs && o.system == s;
        var k :| 0 <= k < |outputs| && outputs[k] == o;
      }
    }
  }

  // ----- Records up to order -----

  datatype RealizedView = RealizedView(rest: Realized, references: multiset<Reference>, signatures: multiset<string>)
  datatype RecordView = RecordView(rest: Record, systems: multiset<string>, outputs: multiset<string>,
                                   realized: multiset<RealizedView>)

  /** A realized output without the order of its references and signatures. */
  function ViewRealized(v: Realized): RealizedView {
    RealizedView(v.(references := [], signatures := []), multiset(v.references), multiset(v.signatures))
  }

  function Views(s: seq<Realized>): seq<RealizedView> {
    Map(ViewRealized, s)
  }

  /** A record without the order of its systems, outputs, realized outputs, references and signatures. */
  function View(r: Record): RecordView {
    RecordView(r.(intent := r.intent.(systems := [], outputs := []), outputs := []),
               multiset(r.intent.systems), multiset(r.intent.outputs), multiset(Views(r.outputs)))
  }

  // ----- Normal form -----

  /** The strict orders behind the sorts: of plain text, of the system/output key, of store paths. */
  datatype Orders = Orders(text: (string, string) -> bool, key: (string, string) -> bool,
                           path: (string, string) -> bool)

  ghost predicate TotalOrders(o: Orders) {
    StrictTotal(o.text) && StrictTotal(o.key) && StrictTotal(o.path)
  }

  function StorePathOf(r: Reference): string { r.storePath }
  function PairOf(v: Realized): (string, string) { (v.system, v.output) }
  function PairOfView(v: RealizedView): (string, string) { PairOf(v.rest) }

  function PairLess(less: (string, string) -> bool): (((string, string), (string, string)) -> bool) {
    (x: (string, string), y: (string, string)) => if x.0 == y.0 then less(x.1, y.1) else less(x.0, y.0)
  }

  lemma PairLessTotal(less: (string, string) -> bool)
    requires StrictTotal(less)
    ensures StrictTotal(PairLess(less))
  {
    var pairs := PairLess(less);
    forall x, y, z | pairs(x, y) && pairs(y, z)
      ensures pairs(x, z)
    {
      assert x.0 == y.0 || less(x.0, y.0);
      assert y.0 == z.0 || less(y.0, z.0);
    }
    forall x, y
      ensures x != y ==> pairs(x, y) || pairs(y, x)
    {
      assert x == (x.0, x.1) && y == (y.0, y.1);
    }
  }

  ghost predicate SortedRealized(o: Orders, v: Realized) {
    SortedBy(StorePathOf, o.path, v.references) && SortedBy(Itself, o.text, v.signatures)
  }

  ghost predicate SortedRecord(o: Orders, r: Record) {
    && SortedBy(Itself, o.text, r.intent.systems) && SortedBy(Itself, o.text, r.intent.outputs)
    && (forall i :: 0 <= i < |r.outputs| ==> SortedRealized(o, r.outputs[i]))
    && SortedBy(PairOf, PairLess(o.key), r.outputs)
  }

  /** `n` comes from `r` by some sorted permutation of every collection the normaliser sorts. */
  ghost predicate IsNormalOf(o: Orders, r: Record, n: Record) {
    View(n) == View(r) && SortedRecord(o, n)
  }

  function NormalRealized(o: Orders, v: Realized): Realized {
    v.(references := Sort(StorePathOf, o.path, v.references), signatures := Sort(Itself, o.text, v.signatures))
  }

  function Normal(o: Orders, r: Record): Record {
    r.(intent := r.intent.(systems := Sort(Itself, o.text, r.intent.systems),
                           outputs := Sort(Itself, o.text, r.intent.outputs)),
       outputs := Sort(PairOf, PairLess(o.key), Map((v: Realized) => NormalRealized(o, v), r.outputs)))
  }

  // ----- Acceptance depends on neither order nor default filling -----

  lemma RealizedUpToOrder(d: Dialect, v: Realized, w: Realized)
    requires ViewRealized(v) == ViewRealized(w)
    ensures ValidRealized(d, v) ==> ValidRealized(d, w)
  {
    if ValidRealized(d, v) {
      assert v.(references := [], signatures := []) == w.(references := [], signatures := []);
      SameMembers(v.references, w.references);
      SameMembers(v.signatures, w.signatures);
      assert DistinctKeys(StorePathOf, v.references);
      DistinctKeysReordered(StorePathOf, v.references, w.references);
      assert DistinctPaths(w.references) by {
        forall i, j | 0 <= i < j < |w.references|
          ensures w.references[i].storePath != w.references[j].storePath
        {
          assert StorePathOf(w.references[i]) != StorePathOf(w.references[j]);
        }
      }
    }
  }

  /** Equal views of a list of realized outputs pair its members off by equal view. */
  lemma PairedByView(a: seq<Realized>, b: seq<Realized>, w: Realized) returns (v: Realized)
    requires multiset(Views(a)) == multiset(Views(b)) && w in b
    ensures v in a && ViewRealized(v) == ViewRealized(w)
  {
    MembersOf(Views(a), Views(b));
    var j :| 0 <= j < |b| && b[j] == w;
    assert Views(b)[j] in Views(b);
    assert Views(b)[j] in Views(a);
    var i :| 0 <= i < |a| && Views(a)[i] == Views(b)[j];
    v := a[i];
  }

  lemma AcceptedUpToOrderOneWay(d: Dialect, r: Record, q: Record)
    requires View(r) == View(q) && Accepts(d, r)
    ensures Accepts(d, q)
  {
    hide ValidHeader, ValidIntent, ValidOutputs;
    var v, w := View(r).rest, View(q).rest;
    HeaderUpToOrder(d, r, v);
    HeaderUpToOrder(d, q, w);
    assert r.package == v.package && q.package == w.package;
    assert r.intent.(systems := [], outputs := []) == v.intent == q.intent.(systems := [], outputs := []);
    IntentUpToOrder(d, r.intent, q.intent, r.package.name);
    OutputsUpToOrder(d, r.outputs, q.outputs, r.intent, q.intent);
  }

  lemma HeaderUpToOrder(d: Dialect, r: Record, v: Record)
    requires v == r.(intent := v.intent, outputs := v.outputs)
    ensures ValidHeader(d, r) <==> ValidHeader(d, v)
  {}

  lemma OutputsUpToOrder(d: Dialect, a: seq<Realized>, b: seq<Realized>, v: Intent, w: Intent)
    requires multiset(Views(a)) == multiset(Views(b))
    requires multiset(v.systems) == multiset(w.systems) && multiset(v.outputs) == multiset(w.outputs)
    requires ValidOutputs(d, a, v.systems, v.outputs)
    ensures ValidOutputs(d, b, w.systems, w.outputs)
  {
    hide ValidRealized;
    MembersOf(v.systems, w.systems);
    MembersOf(v.outputs, w.outputs);
    MembersOf(Views(a), Views(b));
    forall o | o in b
      ensures ValidRealized(d, o) && o.system in w.systems && o.output in w.outputs
    {
      var x := PairedByView(a, b, o);
      RealizedUpToOrder(d, x, o);
      SameScalars(x, o);
    }
    forall s | s in w.systems
      ensures exists o :: o in b && o.system == s
    {
      var x :| x in a && x.system == s;
      var o := PairedByView(b, a, x);
      SameScalars(x, o);
      assert o in b && o.system == s;
    }
    PairsUpToOrder(a, b);
  }

  lemma SameScalars(v: Realized, w: Realized)
    requires ViewRealized(v) == ViewRealized(w)
    ensures v.system == w.system && v.output == w.output
  {
    assert v.system == ViewRealized(v).rest.system && w.system == ViewRealized(w).rest.system;
    assert v.output == ViewRealized(v).rest.output && w.output == ViewRealized(w).rest.output;
  }

  lemma IntentUpToOrder(d: Dialect, v: Intent, w: Intent, name: string)
    requires v.(systems := [], outputs := []) == w.(systems := [], outputs := [])
    requires multiset(v.systems) == multiset(w.systems) && multiset(v.outputs) == multiset(w.outputs)
    requires ValidIntent(d, v, name)
    ensures ValidIntent(d, w, name)
  {
    assert v.mode == w.mode && v.attribute == w.attribute;
    SameMembers(v.systems, w.systems);
    SameMembers(v.outputs, w.outputs);
    MembersOf(v.systems, w.systems);
    MembersOf(v.outputs, w.outputs);
  }

  lemma PairsUpToOrder(a: seq<Realized>, b: seq<Realized>)
    requires multiset(Views(a)) == multiset(Views(b)) && DistinctPairs(a)
    ensures DistinctPairs(b)
  {
    ViewKeys(a);
    DistinctKeysReordered(PairOfView, Views(a), Views(b));
    forall i, j | 0 <= i < j < |b|
      ensures (b[i].system, b[i].output) != (b[j].system, b[j].output)
    {
      assert PairOfView(Views(b)[i]) != PairOfView(Views(b)[j]);
    }
  }

  lemma ViewKeys(a: seq<Realized>)
    ensures forall i :: 0 <= i < |a| ==> PairOfView(Views(a)[i]) == PairOf(a[i])
    ensures DistinctPairs(a) ==> DistinctKeys(PairOf, a) && DistinctKeys(PairOfView, Views(a))
  {}

  /** Whether a record is accepted depends neither on the order of its collections nor on the defaults. */
  lemma AcceptanceUpToOrder(d: Dialect, r: Record, q: Record)
    requires View(Fill(r)) == View(Fill(q))
    ensures Accepts(d, r) <==> Accepts(d, q)
    ensures Accepts(d, Fill(r)) <==> Accepts(d, r)
    ensures Fill(Fill(r)) == Fill(r)
  {
    FillKeepsAcceptance(d, r);
    FillKeepsAcceptance(d, q);
    if Accepts(d, r) {
      AcceptedUpToOrderOneWay(d, Fill(r), Fill(q));
    }
    if Accepts(d, q) {
      AcceptedUpToOrderOneWay(d, Fill(q), Fill(r));
    }
  }

  lemma FillKeepsAcceptance(d: Dialect, r: Record)
    ensures Accepts(d, Fill(r)) <==> Accepts(d, r)
  {
    var f := Fill(r);
    assert ValidOrigin(d, f.source) <==> ValidOrigin(d, r.source);
    assert ValidIntent(d, f.intent, f.package.name) <==> ValidIntent(d, r.intent, r.package.name);
  }

  // ----- The normal form is unique -----

  lemma RealizedAgree(d: Dialect, o: Orders, v: Realized, w: Realized)
    requires TotalOrders(o) && ValidRealized(d, v) && ViewRealized(v) == ViewRealized(w)
    requires SortedRealized(o, v) && SortedRealized(o, w)
    ensures v == w
  {
    assert v.(references := [], signatures := []) == w.(references := [], signatures := []);
    SortUnique(StorePathOf, o.path, v.references, w.references, v.references, w.references);
    SortUnique(Itself, o.text, v.signatures, w.signatures, v.signatures, w.signatures);
    assert v == v.(references := [], signatures := []).(references := v.references, signatures := v.signatures);
  }

  lemma OutputsAgree(d: Dialect, o: Orders, a: seq<Realized>, b: seq<Realized>)
    requires TotalOrders(o) && multiset(Views(a)) == multiset(Views(b)) && DistinctPairs(a)
    requires forall i :: 0 <= i < |a| ==> ValidRealized(d, a[i]) && SortedRealized(o, a[i])
    requires forall i :: 0 <= i < |b| ==> SortedRealized(o, b[i])
    requires SortedBy(PairOf, PairLess(o.key), a) && SortedBy(PairOf, PairLess(o.key), b)
    ensures a == b
  {
    PairLessTotal(o.key);
    ViewKeys(a);
    ViewKeys(b);
    SortUnique(PairOfView, PairLess(o.key), Views(a), Views(b), Views(a), Views(b));
    assert |a| == |Views(a)| == |Views(b)| == |b|;
    forall i | 0 <= i < |a|
      ensures a[i] == b[i]
    {
      assert Views(a)[i] == Views(b)[i];
      RealizedAgree(d, o, a[i], b[i]);
    }
  }

  /**
   Accepted records that differ only in order have one normal form, whatever unstable sorts produce
   it; and records with the same normal form differ only in order.
   */
  lemma NormalFormUnique(d: Dialect, o: Orders, r: Record, q: Record, n: Record, m: Record)
    requires TotalOrders(o) && Accepts(d, r)
    requires IsNormalOf(o, r, n) && IsNormalOf(o, q, m)
    ensures n == m <==> View(r) == View(q)
  {
    hide ValidHeader, ValidIntent, ValidOutputs;
    if View(r) == View(q) {
      AcceptedUpToOrderOneWay(d, r, n);
      DistinctParts(d, n);
      SortUnique(Itself, o.text, n.intent.systems, m.intent.systems, n.intent.systems, m.intent.systems);
      SortUnique(Itself, o.text, n.intent.outputs, m.intent.outputs, n.intent.outputs, m.intent.outputs);
      OutputsAgree(d, o, n.outputs, m.outputs);
      Reassemble(n, m);
    }
  }

  lemma DistinctParts(d: Dialect, n: Record)
    requires Accepts(d, n)
    ensures DistinctKeys(Itself, n.intent.systems) && DistinctKeys(Itself, n.intent.outputs)
    ensures DistinctPairs(n.outputs) && forall i :: 0 <= i < |n.outputs| ==> ValidRealized(d, n.outputs[i])
  {
    hide ValidHeader, ValidRealized, ValidSystem, NixIdentifier;
    forall i | 0 <= i < |n.outputs|
      ensures ValidRealized(d, n.outputs[i])
    {
      assert n.outputs[i] in n.outputs;
    }
  }

  lemma Reassemble(n: Record, m: Record)
    requires View(n).rest == View(m).rest && n.outputs == m.outputs
    requires n.intent.systems == m.intent.systems && n.intent.outputs == m.intent.outputs
    ensures n == m
  {
    var v, w := View(n).rest, View(m).rest;
    assert n.intent == v.intent.(systems := n.intent.systems, outputs := n.intent.outputs);
    assert m.intent == w.intent.(systems := m.intent.systems, outputs := m.intent.outputs);
    assert n == v.(intent := n.intent, outputs := n.outputs);
    assert m == w.(intent := m.intent, outputs := m.outputs);
  }

  /** `Normal` is a normal form, so for accepted records it is the normal form, and it is idempotent. */
  lemma NormalIsNormal(d: Dialect, o: Orders, r: Record)
    requires TotalOrders(o)
    ensures IsNormalOf(o, r, Normal(o, r))
    ensures Accepts(d, Normal(o, r)) <==> Accepts(d, r)
    ensures Accepts(d, r) ==> Normal(o, Normal(o, r)) == Normal(o, r)
  {
    NormalSorts(o, r);
    hide Accepts, SortedRecord;
    var n := Normal(o, r);
    if Accepts(d, r) {
      AcceptedUpToOrderOneWay(d, r, n);
      NormalSorts(o, n);
      NormalFormUnique(d, o, r, n, n, Normal(o, n));
    }
    if Accepts(d, n) {
      AcceptedUpToOrderOneWay(d, n, r);
    }
  }

  lemma NormalSorts(o: Orders, r: Record)
    requires TotalOrders(o)
    ensures IsNormalOf(o, r, Normal(o, r))
  {
    var n := Normal(o, r);
    SortSorts(Itself, o.text, r.intent.systems);
    SortSorts(Itself, o.text, r.intent.outputs);
    NormalOutputs(o, r.outputs);
    assert View(n).rest == View(r).rest;
  }

  lemma NormalOutputs(o: Orders, a: seq<Realized>)
    requires TotalOrders(o)
    ensures var b := Sort(PairOf, PairLess(o.key), Map((v: Realized) => NormalRealized(o, v), a));
            && multiset(Views(b)) == multiset(Views(a))
            && (forall i :: 0 <= i < |b| ==> SortedRealized(o, b[i]))
            && SortedBy(PairOf, PairLess(o.key), b)
  {
    hide SortedRealized, NormalRealized, PairLess, ViewRealized;
    var m := Map((v: Realized) => NormalRealized(o, v), a);
    var b := Sort(PairOf, PairLess(o.key), m);
    PairLessTotal(o.key);
    SortSorts(PairOf, PairLess(o.key), m);
    forall i | 0 <= i < |a|
      ensures ViewRealized(m[i]) == ViewRealized(a[i]) && SortedRealized(o, m[i])
    {
      NormalRealizedIsSorted(o, a[i]);
    }
    ReorderedOutputs(o, a, m, b);
  }

  /** Sorting the members of each output, then the outputs, keeps the views and leaves every member sorted. */
  lemma ReorderedOutputs(o: Orders, before: seq<Realized>, normalized: seq<Realized>, sorted: seq<Realized>)
    requires |normalized| == |before| && multiset(sorted) == multiset(normalized)
    requires forall k :: 0 <= k < |before| ==>
      ViewRealized(normalized[k]) == ViewRealized(before[k]) && SortedRealized(o, normalized[k])
    ensures multiset(Views(sorted)) == multiset(Views(before))
    ensures forall k :: 0 <= k < |sorted| ==> SortedRealized(o, sorted[k])
  {
    hide ViewRealized, SortedRealized;
    assert Views(normalized) == Views(before);
    MapReordered(ViewRealized, normalized, sorted);
    MembersOf(normalized, sorted);
    forall k | 0 <= k < |sorted|
      ensures SortedRealized(o, sorted[k])
    {
      assert sorted[k] in normalized;
      var i :| 0 <= i < |normalized| && normalized[i] == sorted[k];
    }
  }

  lemma NormalRealizedIsSorted(o: Orders, v: Realized)
    requires TotalOrders(o)
    ensures ViewRealized(NormalRealized(o, v)) == ViewRealized(v) && SortedRealized(o, NormalRealized(o, v))
  {
    SortSorts(StorePathOf, o.path, v.references);
    SortSorts(Itself, o.text, v.signatures);
  }

  // ----- What acceptance says about coverage -----

  /** What validation and normalisation leave is accepted, and normalising it again changes nothing. */
  lemma NormalIsStable(d: Dialect, o: Orders, r: Record)
    requires TotalOrders(o) && Accepts(d, r)
    ensures var n := Normal(o, Fill(r)); Accepts(d, n) && Fill(n) == n && Normal(o, n) == n
  {
    hide Accepts, Normal, Fill;
    FillKeepsAcceptance(d, r);
    NormalIsNormal(d, o, Fill(r));
    NormalKeepsFill(o, r);
  }

  lemma NormalKeepsFill(o: Orders, r: Record)
    ensures Fill(Normal(o, Fill(r))) == Normal(o, Fill(r))
  {}

  /** Accepted records have one normal form exactly when they agree up to order and defaults. */
  lemma SameNormal(d: Dialect, o: Orders, r: Record, q: Record)
    requires TotalOrders(o) && Accepts(d, r) && Accepts(d, q)
    ensures Normal(o, Fill(r)) == Normal(o, Fill(q)) <==> View(Fill(r)) == View(Fill(q))
  {
    hide Accepts, SortedRecord, View, Normal, Fill;
    FillKeepsAcceptance(d, r);
    FillKeepsAcceptance(d, q);
    NormalIsNormal(d, o, Fill(r));
    NormalIsNormal(d, o, Fill(q));
    NormalFormUnique(d, o, Fill(r), Fill(q), Normal(o, Fill(r)), Normal(o, Fill(q)));
  }

  /** Every declared system is realized, and realized outputs form part of systems times outputs. */
  lemma Coverage(d: Dialect, r: Record)
    requires Accepts(d, r)
    ensures forall s :: s in r.intent.systems ==> exists o :: o in r.outputs && o.system == s
    ensures |r.intent.systems| <= |r.outputs| <= |r.intent.systems| * |r.intent.outputs|
  {
    hide ValidHeader, ValidRealized, ValidSystem, NixIdentifier;
    SystemsRealized(r.outputs, r.intent.systems);
    var pairs := Map(PairOf, r.outputs);
    var product := Product(r.intent.systems, r.intent.outputs);
    forall p | p in pairs
      ensures p in product
    {
      var i :| 0 <= i < |pairs| && pairs[i] == p;
      assert r.outputs[i] in r.outputs;
      InProduct(r.intent.systems, r.intent.outputs, p);
    }
    ViewKeys(r.outputs);
    SubsetLength(pairs, product);
  }

  lemma SystemsRealized(outputs: seq<Realized>, systems: seq<string>)
    requires Distinct(systems) && forall s :: s in systems ==> exists o :: o in outputs && o.system == s
    ensures |systems| <= |outputs|
  {
    var realized := Map((v: Realized) => v.system, outputs);
    forall s | s in systems
      ensures s in realized
    {
      var o :| o in outputs && o.system == s;
      var i :| 0 <= i < |outputs| && outputs[i] == o;
      assert realized[i] == s;
    }
    SubsetLength(systems, realized);
  }

  function Product(a: seq<string>, b: seq<string>): (r: seq<(string, string)>)
    ensures |r| == |a| * |b|
  {
    if a == [] then [] else Map((y: string) => (a[0], y), b) + Product(a[1..], b)
  }

  lemma {:induction false} InProduct(a: seq<string>, b: seq<string>, p: (string, string))
    ensures p in Product(a, b) <==> p.0 in a && p.1 in b
  {
    if a != [] {
      InProduct(a[1..], b, p);
      var row := Map((y: string) => (a[0], y), b);
      if p.0 == a[0] && p.1 in b {
        var j :| 0 <= j < |b| && b[j] == p.1;
        assert row[j] == p;
      }
      assert p in Product(a, b) <==> p in row || p in Product(a[1..], b);
      assert a == [a[0]] + a[1..];
    }
  }

  // ----- A record that is accepted -----

  function Times(n: nat, c: char): (r: string)
    ensures |r| == n && forall i :: 0 <= i < n ==> r[i] == c
  {
    seq(n, i => c)
  }

  function SampleHash(): string { Times(64, 'a') }

  function SamplePath(): string { STORE_PREFIX + Times(32, '0') + "-x" }

  function SampleSri(): string { "sha256-" + Times(43, 'A') + "=" }

  function SampleOutput(output: string): Realized {
    Realized("a-b", output, SampleHash(), SamplePath(), SampleSri(), 1, [], [], "2", 1)
  }

  /** A development record with two outputs, not in order, and both defaults left out. */
  function Sample(): Record {
    Record("zed-to-nix", "zed.nix-adapter/v1", Package("o", "n", "1", None),
           Origin("https://r", Artifact("", SampleHash(), 1), "t", Times(7, 'c'), None),
           Intent("", "", ["a-b"], ["out", "dev"]), SampleHash(), [SampleOutput("out"), SampleOutput("dev")],
           Policy("development", true, false, true, "disabled", false, false))
  }

  lemma SampleTokens()
    ensures Sha256Hex(SampleHash()) && NixStorePath(SamplePath()) && Sha256Sri(SampleSri())
    ensures ValidSystem("a-b") && NixIdentifier("out") && NixIdentifier("dev") && NixIdentifier("n")
  {
    var p, s := SamplePath(), SampleSri();
    assert p[11..43] == Times(32, '0') && p[44..] == "x" && p[..11] == STORE_PREFIX;
    assert s[7..50] == Times(43, 'A');
  }

  lemma {:induction false} AsciiLength(d: Dialect, s: string)
    requires forall i :: 0 <= i < |s| ==> s[i] as int < 0x80
    ensures Length(d, s) == |s|
  {
    if s != "" {
      AsciiLength(d, s[1..]);
    }
  }

  lemma NotBlank(d: Dialect)
    ensures !Blank(d, "2")
  {
    assert !Space(d, "2"[0]);
  }

  lemma SampleHeader(d: Dialect)
    ensures ValidHeader(d, Sample())
  {
    SampleTokens();
    SamplePackage(d);
    SampleOrigin(d);
    hide Sha256Hex, NixStorePath, Sha256Sri, SampleHash, ValidSystem, NixIdentifier, ValidPackage, ValidOrigin;
  }

  lemma SamplePackage(d: Dialect)
    ensures ValidPackage(d, Sample().package)
  {}

  lemma SampleRegistry(d: Dialect)
    ensures ValidRegistry(d, "https://r")
  {}

  lemma SampleRefs(d: Dialect)
    ensures ValidRefToken(d, "t") && ValidRefToken(d, Times(7, 'c'))
  {}

  lemma SampleOrigin(d: Dialect)
    ensures ValidOrigin(d, Sample().source)
  {
    SampleTokens();
    SampleRegistry(d);
    SampleRefs(d);
    hide ValidRegistry, ValidRefToken;
    AsciiLength(d, Times(7, 'c'));
    hide Sha256Hex, NixStorePath, Sha256Sri, SampleHash, ValidSystem, NixIdentifier, Length;
  }

  /** The rules can be met: both clients accept the sample. */
  lemma SampleAccepted(d: Dialect)
    ensures Accepts(d, Sample())
  {
    SampleHeader(d);
    SampleTokens();
    hide ValidHeader, Sha256Hex, NixStorePath, Sha256Sri, SampleHash, SamplePath, SampleSri, ValidSystem, NixIdentifier;
    NotBlank(d);
    assert ValidIntent(d, Sample().intent, "n");
    assert ValidRealized(d, SampleOutput("out")) && ValidRealized(d, SampleOutput("dev"));
    assert Sample().outputs[0].system == "a-b";
  }
}
