/**
 The checks on a surface: names, references, required declarations, consistent metadata, and distinct
 documentation identifiers. Enrichment changes the verdict of no check but the last. That one holds
 afterwards if and only if the identifiers and the lineages of the surface are `Separate`; a `Tidy` surface
 is, while one that merely has no identifiers need not be.
 */
module SurfaceChecks {
  import opened Bytes
  import opened DocumentationId
  import opened SurfaceMetadata

  // ----- Checks on every object, at every depth -----

  predicate Everywhere(n: Node, own: Fields -> bool) {
    match n
    case Object(f) => own(f) && forall k :: k in f ==> Everywhere(f[k], own)
    case List(items) => forall i :: 0 <= i < |items| ==> Everywhere(items[i], own)
    case _ => true
  }

  /** A check that enrichment of an object does not touch. */
  ghost predicate Stable(own: Fields -> bool) {
    own(AUTH.fields) && forall f, path :: own(Enrich(Object(f), path).fields) <==> own(f)
  }

  /** Such a check gives the same verdict before and after. */
  lemma {:induction false} EverywhereKept(n: Node, path: seq<string>, own: Fields -> bool)
    requires Stable(own)
    ensures Everywhere(Enrich(n, path), own) <==> Everywhere(n, own)
    decreases n
  {
    hide WithDefaults, Stable;
    match n {
      case Object(f) =>
        OwnKept(f, path, own);
        DefaultsKeep(f, path);
        forall k | k in f
          ensures Everywhere(Field(n, path, k), own) <==> Everywhere(f[k], own)
        {
          if k !in SKIPPED {
            EverywhereKept(f[k], path + [k], own);
          }
        }
        forall k | k in WithDefaults(f, path) && k !in f
          ensures Everywhere(Field(n, path, k), own)
        {
          AuthEverywhere(own);
        }
        FieldsDecide(n, path, own);
      case List(items) =>
        forall i | 0 <= i < |items|
          ensures Everywhere(Enrich(items[i], path + [Digits(i)]), own) <==> Everywhere(items[i], own)
        {
          EverywhereKept(items[i], path + [Digits(i)], own);
        }
        ItemsDecide(n, path, own);
      case _ =>
    }
  }

  lemma OwnKept(f: Fields, path: seq<string>, own: Fields -> bool)
    requires Stable(own)
    ensures own(Enrich(Object(f), path).fields) <==> own(f)
  {
    hide Enrich;
  }

  lemma AuthEverywhere(own: Fields -> bool)
    requires Stable(own)
    ensures Everywhere(AUTH, own)
  {}

  lemma FieldsDecide(n: Node, path: seq<string>, own: Fields -> bool)
    requires n.Object? && n.fields.Keys <= WithDefaults(n.fields, path).Keys
    requires own(Enrich(n, path).fields) <==> own(n.fields)
    requires forall k :: k in n.fields ==> (Everywhere(Field(n, path, k), own) <==> Everywhere(n.fields[k], own))
    requires forall k :: k in WithDefaults(n.fields, path) && k !in n.fields ==> Everywhere(Field(n, path, k), own)
    ensures Everywhere(Enrich(n, path), own) <==> Everywhere(n, own)
  {
    hide WithDefaults, Field;
    var g := Enrich(n, path).fields;
    assert forall k :: k in g ==> g[k] == Field(n, path, k);
  }

  lemma ItemsDecide(n: Node, path: seq<string>, own: Fields -> bool)
    requires n.List?
    requires forall i :: 0 <= i < |n.items| ==>
      (Everywhere(Enrich(n.items[i], path + [Digits(i)]), own) <==> Everywhere(n.items[i], own))
    ensures Everywhere(Enrich(n, path), own) <==> Everywhere(n, own)
  {
    var r := Enrich(n, path);
    assert |r.items| == |n.items| && forall i :: 0 <= i < |n.items| ==>
      r.items[i] == Enrich(n.items[i], path + [Digits(i)]);
    hide Enrich;
  }

  // ----- References and metadata -----

  function Resolves(declared: set<string>): Fields -> bool {
    (f: Fields) => Is(f, "kind", "named") ==> HasText(f, "name") && f["name"].text in declared
  }

  /** The declared behaviour agrees with the flag, and a deprecated declaration says why. */
  predicate Consistent(f: Fields) {
    && (CallShape(f) && Is(f, "behavior", "sync") ==> !f["async"].flag)
    && (CallShape(f) && (Is(f, "behavior", "async") || Is(f, "behavior", "streaming")) ==> f["async"].flag)
    && (Is(f, "stability", "deprecated") ==> "deprecation" in f && f["deprecation"] != Null)
  }

  function Consistently(): Fields -> bool {
    (f: Fields) => Consistent(f)
  }

  lemma ResolvesIsStable(declared: set<string>)
    ensures Stable(Resolves(declared))
  {
    forall f: Fields, path
      ensures Resolves(declared)(Enrich(Object(f), path).fields) <==> Resolves(declared)(f)
    {
      hide Enrich;
      EnrichedShape(f, path);
      assert "kind" !in ADDED && "name" !in ADDED;
    }
  }

  /** The values the defaults give. */
  lemma AddedValues(f: Fields, path: seq<string>)
    ensures var g := WithDefaults(f, path);
            && ("behavior" in g && "behavior" !in f ==> CallShape(f) && g["behavior"] == Behavior(f))
            && ("stability" in g && "stability" !in f ==> g["stability"] == Text("stable"))
            && ("deprecation" in g && "deprecation" !in f ==> g["deprecation"] == Null)
  {
    hide Documentable, FieldShape, Identifier, Lineage, AUTH;
  }

  lemma ConsistentIsStable()
    ensures Stable(Consistently())
  {
    forall f: Fields, path
      ensures Consistent(Enrich(Object(f), path).fields) <==> Consistent(f)
    {
      ConsistentKept(f, path);
    }
  }

  /** The defaults are consistent, and leave what was there. */
  predicate AgreeingDefaults(f: Fields, g: Fields) {
    && (if "behavior" in f then "behavior" in g
        && (f["behavior"].Text? || g["behavior"].Text? ==> g["behavior"] == f["behavior"])
        else "behavior" in g ==> CallShape(f) && g["behavior"] == Behavior(f))
    && (if "stability" in f then "stability" in g
        && (f["stability"].Text? || g["stability"].Text? ==> g["stability"] == f["stability"])
        else "stability" in g ==> g["stability"] == Text("stable"))
    && (if "deprecation" in f then "deprecation" in g && g["deprecation"] == f["deprecation"]
        else "deprecation" in g ==> g["deprecation"] == Null)
  }

  lemma AgreeingIsConsistent(f: Fields, g: Fields)
    requires AgreeingDefaults(f, g) && CallShape(f) == CallShape(g) && (CallShape(f) ==> g["async"] == f["async"])
    ensures Consistent(g) <==> Consistent(f)
  {
    hide CallShape;
  }

  lemma DefaultsAgree(f: Fields, path: seq<string>)
    ensures AgreeingDefaults(f, Enrich(Object(f), path).fields)
  {
    EnrichedShape(f, path);
    DefaultsKeep(f, path);
    AddedValues(f, path);
    MetadataFields(f, path);
    hide Enrich, WithDefaults, Field, CallShape;
  }

  lemma ConsistentKept(f: Fields, path: seq<string>)
    ensures Consistent(Enrich(Object(f), path).fields) <==> Consistent(f)
  {
    hide Enrich, Consistent, AgreeingDefaults;
    ObjectKept(Object(f), path);
    EnrichedShape(f, path);
    DefaultsAgree(f, path);
    AgreeingIsConsistent(f, Enrich(Object(f), path).fields);
  }

  /** The metadata fields afterwards. */
  lemma MetadataFields(f: Fields, path: seq<string>)
    ensures var g, d := Enrich(Object(f), path).fields, WithDefaults(f, path);
            && g.Keys == d.Keys
            && ("behavior" in g && "behavior" !in f ==> g["behavior"] == d["behavior"])
            && ("stability" in g && "stability" !in f ==> g["stability"] == d["stability"])
            && ("deprecation" in g ==> g["deprecation"] == d["deprecation"])
  {
    hide WithDefaults;
  }

  // ----- The symbols -----

  function Symbols(surface: Node): seq<Node> {
    if surface.Object? && "symbols" in surface.fields && surface.fields["symbols"].List?
    then surface.fields["symbols"].items else []
  }

  /** The name of a symbol, as text; `show` writes a name that is not text, and None for a missing one. */
  function Shown(f: Fields, show: Option<Node> -> string): string {
    if HasText(f, "name") then f["name"].text else show(if "name" in f then Some(f["name"]) else None)
  }

  predicate DistinctNames(symbols: seq<Node>, show: Option<Node> -> string) {
    forall i, j :: 0 <= i < j < |symbols| && symbols[i].Object? && symbols[j].Object? ==>
      Shown(symbols[i].fields, show) != Shown(symbols[j].fields, show)
  }

  function Declared(symbols: seq<Node>, show: Option<Node> -> string): set<string> {
    set i | 0 <= i < |symbols| && symbols[i].Object? :: Shown(symbols[i].fields, show)
  }

  predicate Declares(symbol: Node, kind: string, visibility: string) {
    symbol.Object? && Is(symbol.fields, "kind", kind) && Is(symbol.fields, "visibility", visibility)
  }

  predicate HasKind(symbols: seq<Node>, kind: string, visibility: string) {
    exists i :: 0 <= i < |symbols| && Declares(symbols[i], kind, visibility)
  }

  function Methods(symbol: Node): seq<Node> {
    if symbol.Object? && "methods" in symbol.fields && symbol.fields["methods"].List?
    then symbol.fields["methods"].items else []
  }

  predicate HasMethodIn(symbol: Node, visibility: string) {
    exists j :: 0 <= j < |Methods(symbol)| && Methods(symbol)[j].Object?
      && Is(Methods(symbol)[j].fields, "visibility", visibility)
  }

  predicate HasMethod(symbols: seq<Node>, visibility: string) {
    exists i :: 0 <= i < |symbols| && HasMethodIn(symbols[i], visibility)
  }

  const KINDS: set<string> := {"class", "interface", "type", "function"}
  const VISIBILITIES: set<string> := {"public", "private"}

  /** No finding, the identifiers aside. */
  predicate Sound(surface: Node, show: Option<Node> -> string) {
    var symbols := Symbols(surface);
    && DistinctNames(symbols, show)
    && Everywhere(surface, Resolves(Declared(symbols, show)))
    && (forall kind, visibility :: kind in KINDS && visibility in VISIBILITIES ==> HasKind(symbols, kind, visibility))
    && (forall visibility :: visibility in VISIBILITIES ==> HasMethod(symbols, visibility))
    && Everywhere(surface, Consistently())
  }

  predicate Container(n: Node) {
    n.Object? || n.List?
  }

  /** A name, where there is one, is no list and no object. */
  predicate ScalarName(f: Fields) {
    "name" in f ==> !Container(f["name"])
  }

  predicate ScalarNames(symbols: seq<Node>) {
    forall i :: 0 <= i < |symbols| && symbols[i].Object? ==> ScalarName(symbols[i].fields)
  }

  /** What the checks look at in a symbol is the same. */
  ghost predicate SameSymbol(a: Node, b: Node) {
    && (a.Object? <==> b.Object?)
    && (a.Object? && ScalarName(a.fields) ==>
          ("name" in b.fields <==> "name" in a.fields) && ("name" in a.fields ==> b.fields["name"] == a.fields["name"]))
    && (forall kind, visibility :: kind in KINDS ==> (Declares(a, kind, visibility) <==> Declares(b, kind, visibility)))
    && forall visibility :: HasMethodIn(a, visibility) <==> HasMethodIn(b, visibility)
  }

  lemma ObjectKept(n: Node, path: seq<string>)
    ensures n.Object? <==> Enrich(n, path).Object?
    ensures n.Object? ==> SameShape(n.fields, Enrich(n, path).fields)
  {
    hide WithDefaults, SameShape;
    if n.Object? {
      EnrichedShape(n.fields, path);
    }
  }

  lemma FieldOf(n: Node, path: seq<string>, k: string)
    requires n.Object? && k !in ADDED
    ensures k in Enrich(n, path).fields <==> k in n.fields
    ensures k in n.fields ==> Enrich(n, path).fields[k] == Enrich(n.fields[k], path + [k])
  {
    hide WithDefaults;
    DefaultsKeep(n.fields, path);
  }

  lemma ItemOf(n: Node, path: seq<string>)
    requires n.List?
    ensures Enrich(n, path).List? && |Enrich(n, path).items| == |n.items|
    ensures forall i :: 0 <= i < |n.items| ==> Enrich(n, path).items[i] == Enrich(n.items[i], path + [Digits(i)])
  {}

  lemma MethodsKept(n: Node, path: seq<string>)
    ensures |Methods(Enrich(n, path))| == |Methods(n)|
    ensures forall j :: 0 <= j < |Methods(n)| ==>
      Methods(Enrich(n, path))[j] == Enrich(Methods(n)[j], path + ["methods"] + [Digits(j)])
  {
    ObjectKept(n, path);
    if n.Object? {
      FieldOf(n, path, "methods");
      if "methods" in n.fields {
        EnrichKeepsLeaves(n.fields["methods"], path + ["methods"]);
        if n.fields["methods"].List? {
          ItemOf(n.fields["methods"], path + ["methods"]);
        }
      }
    }
    hide Enrich;
  }

  lemma IsKept(f: Fields, g: Fields, k: string, text: string)
    requires SameShape(f, g) && k !in ADDED
    ensures Is(f, k, text) <==> Is(g, k, text)
  {}

  lemma MethodInKept(n: Node, path: seq<string>, visibility: string)
    ensures HasMethodIn(n, visibility) <==> HasMethodIn(Enrich(n, path), visibility)
  {
    hide Enrich, Methods, SameShape, Is;
    MethodsKept(n, path);
    forall j | 0 <= j < |Methods(n)|
      ensures Methods(n)[j].Object? && Is(Methods(n)[j].fields, "visibility", visibility) <==>
              Methods(Enrich(n, path))[j].Object? && Is(Methods(Enrich(n, path))[j].fields, "visibility", visibility)
    {
      var m, p := Methods(n)[j], path + ["methods"] + [Digits(j)];
      ObjectKept(m, p);
      if m.Object? {
        IsKept(m.fields, Enrich(m, p).fields, "visibility", visibility);
      }
    }
  }

  lemma NameKept(n: Node, path: seq<string>)
    requires n.Object? ==> Enrich(n, path).Object?
    ensures n.Object? && ScalarName(n.fields) ==>
      var f, g := n.fields, Enrich(n, path).fields;
      ("name" in g <==> "name" in f) && ("name" in f ==> g["name"] == f["name"])
  {
    if n.Object? {
      FieldOf(n, path, "name");
      if "name" in n.fields {
        EnrichKeepsLeaves(n.fields["name"], path + ["name"]);
      }
    }
    hide Enrich;
  }

  lemma SymbolKept(n: Node, path: seq<string>)
    ensures SameSymbol(n, Enrich(n, path))
  {
    hide Enrich, HasMethodIn, Is;
    ObjectKept(n, path);
    NameKept(n, path);
    forall visibility
      ensures HasMethodIn(n, visibility) <==> HasMethodIn(Enrich(n, path), visibility)
    {
      MethodInKept(n, path, visibility);
    }
    forall kind, visibility | kind in KINDS
      ensures Declares(n, kind, visibility) <==> Declares(Enrich(n, path), kind, visibility)
    {
      if n.Object? {
        IsKept(n.fields, Enrich(n, path).fields, "kind", kind);
        IsKept(n.fields, Enrich(n, path).fields, "visibility", visibility);
      }
    }
  }

  /** The symbols afterwards: each one enriched at its index. */
  lemma SymbolsAfter(surface: Node)
    ensures var a, b := Symbols(surface), Symbols(Enrich(surface, []));
            |a| == |b| && forall i :: 0 <= i < |a| ==> b[i] == Enrich(a[i], ["symbols", Digits(i)])
  {
    ObjectKept(surface, []);
    if surface.Object? {
      FieldOf(surface, [], "symbols");
      if "symbols" in surface.fields {
        var n := surface.fields["symbols"];
        EnrichKeepsLeaves(n, [] + ["symbols"]);
        if n.List? {
          ItemOf(n, [] + ["symbols"]);
          assert forall i :: [] + ["symbols"] + [Digits(i)] == ["symbols", Digits(i)];
        }
      }
    }
    hide Enrich;
  }

  lemma SymbolsKept(surface: Node)
    ensures var a, b := Symbols(surface), Symbols(Enrich(surface, []));
            |a| == |b| && forall i :: 0 <= i < |a| ==> SameSymbol(a[i], b[i])
  {
    hide Enrich, SameSymbol, Symbols;
    SymbolsAfter(surface);
    var a := Symbols(surface);
    forall i | 0 <= i < |a|
      ensures SameSymbol(a[i], Enrich(a[i], ["symbols", Digits(i)]))
    {
      SymbolKept(a[i], ["symbols", Digits(i)]);
    }
  }

  lemma SameFindings(a: seq<Node>, b: seq<Node>, show: Option<Node> -> string)
    requires ScalarNames(a) && |a| == |b| && forall i :: 0 <= i < |a| ==> SameSymbol(a[i], b[i])
    ensures DistinctNames(a, show) <==> DistinctNames(b, show)
    ensures Declared(a, show) == Declared(b, show)
    ensures forall kind, visibility :: kind in KINDS ==>
      (HasKind(a, kind, visibility) <==> HasKind(b, kind, visibility))
    ensures forall visibility :: HasMethod(a, visibility) <==> HasMethod(b, visibility)
  {
    hide HasMethodIn, Declares;
    forall i | 0 <= i < |a| && a[i].Object?
      ensures b[i].Object? && Shown(b[i].fields, show) == Shown(a[i].fields, show)
    {
      assert SameSymbol(a[i], b[i]);
    }
    forall i | 0 <= i < |a|
      ensures a[i].Object? <==> b[i].Object?
    {
      assert SameSymbol(a[i], b[i]);
    }
    hide SameSymbol, Shown;
    assert Declared(a, show) == Declared(b, show);
  }

  /** Enrichment neither adds nor removes a finding of these checks. */
  lemma EnrichKeepsFindings(surface: Node, show: Option<Node> -> string)
    requires ScalarNames(Symbols(surface))
    ensures Sound(Enrich(surface, []), show) <==> Sound(surface, show)
  {
    SymbolsKept(surface);
    hide Enrich, Symbols, SameSymbol, DistinctNames, HasKind, HasMethod, Declared, Everywhere, Stable, Resolves,
      Consistent, ScalarNames;
    var a, b := Symbols(surface), Symbols(Enrich(surface, []));
    SameFindings(a, b, show);
    ResolvesIsStable(Declared(a, show));
    EverywhereKept(surface, [], Resolves(Declared(a, show)));
    ConsistentIsStable();
    EverywhereKept(surface, [], Consistently());
  }

  // ----- Identifiers -----

  datatype Step = Key(key: string) | Index(index: nat)

  /** The value at a place. */
  function At(n: Node, place: seq<Step>): Option<Node> {
    if place == [] then Some(n)
    else
      match (n, place[0])
      case (Object(f), Key(k)) => if k in f then At(f[k], place[1..]) else None
      case (List(items), Index(i)) => if i < |items| then At(items[i], place[1..]) else None
      case _ => None
  }

  function IdAt(n: Node, place: seq<Step>): Option<string> {
    match At(n, place)
    case Some(Object(f)) => if HasText(f, "documentationId") then Some(f["documentationId"].text) else None
    case _ => None
  }

  ghost predicate DistinctIds(n: Node) {
    forall p, q :: IdAt(n, p).Some? && IdAt(n, p) == IdAt(n, q) ==> p == q
  }

  function StepText(s: Step): string {
    match s
    case Key(k) => k
    case Index(i) => Digits(i)
  }

  function Texts(place: seq<Step>): (r: seq<string>)
    ensures |r| == |place|
  {
    if place == [] then [] else [StepText(place[0])] + Texts(place[1..])
  }

  // ----- What the pass gives -----

  /** The lineage of the identifier that the pass gives at a place, if it gives one there. */
  function NewAt(n: Node, path: seq<string>, place: seq<Step>): Option<seq<string>>
    decreases |place|
  {
    if place == [] then
      if n.Object? && Described(n.fields) && "documentationId" !in n.fields then Some(Lineage(n.fields, path)) else None
    else
      match (n, place[0])
      case (Object(f), Key(k)) => if k in f && k !in SKIPPED then NewAt(f[k], path + [k], place[1..]) else None
      case (List(items), Index(i)) => if i < |items| then NewAt(items[i], path + [Digits(i)], place[1..]) else None
      case _ => None
  }

  /** The identifier given at a place, or else the one that is there. */
  function Given(n: Node, path: seq<string>, place: seq<Step>): Option<string> {
    match NewAt(n, path, place)
    case Some(l) => Some(Identifier(l))
    case None => IdAt(n, place)
  }

  /** No identifiers, at any depth. */
  predicate NoIds(n: Node) {
    match n
    case Object(f) => "documentationId" !in f && forall k :: k in f ==> NoIds(f[k])
    case List(items) => forall i :: 0 <= i < |items| ==> NoIds(items[i])
    case _ => true
  }

  lemma {:induction false} NoIdsAt(n: Node, place: seq<Step>)
    requires NoIds(n)
    ensures IdAt(n, place) == None
    decreases |place|
  {
    if place != [] {
      match (n, place[0]) {
        case (Object(f), Key(k)) => if k in f { NoIdsAt(f[k], place[1..]); }
        case (List(items), Index(i)) => if i < |items| { NoIdsAt(items[i], place[1..]); }
        case _ =>
      }
    }
  }

  lemma AuthHasNoIds()
    ensures NoIds(AUTH)
  {}

  lemma IdBelowItem(n: Node, i: nat, rest: seq<Step>)
    requires n.List? && i < |n.items|
    ensures IdAt(n, [Index(i)] + rest) == IdAt(n.items[i], rest)
  {
    assert ([Index(i)] + rest)[1..] == rest;
  }

  lemma IdBelowField(n: Node, k: string, rest: seq<Step>)
    requires n.Object? && k in n.fields
    ensures IdAt(n, [Key(k)] + rest) == IdAt(n.fields[k], rest)
  {
    assert ([Key(k)] + rest)[1..] == rest;
  }

  lemma NewBelowItem(n: Node, path: seq<string>, i: nat, rest: seq<Step>)
    requires n.List? && i < |n.items|
    ensures NewAt(n, path, [Index(i)] + rest) == NewAt(n.items[i], path + [Digits(i)], rest)
  {
    assert ([Index(i)] + rest)[1..] == rest;
  }

  lemma NewBelowField(n: Node, path: seq<string>, k: string, rest: seq<Step>)
    requires n.Object? && k in n.fields
    ensures NewAt(n, path, [Key(k)] + rest) == if k in SKIPPED then None else NewAt(n.fields[k], path + [k], rest)
  {
    assert ([Key(k)] + rest)[1..] == rest;
  }

  lemma NoSuchPlace(n: Node, place: seq<Step>)
    requires place != []
    ensures n.Object? && !(place[0].Key? && place[0].key in n.fields) ==>
      IdAt(n, place) == None && forall path :: NewAt(n, path, place) == None
    ensures n.List? && !(place[0].Index? && place[0].index < |n.items|) ==>
      IdAt(n, place) == None && forall path :: NewAt(n, path, place) == None
    ensures !Container(n) ==> IdAt(n, place) == None && forall path :: NewAt(n, path, place) == None
  {}

  lemma DescribedGetsId(f: Fields, path: seq<string>)
    ensures "documentationId" in f ==> "documentationId" in WithDefaults(f, path)
    ensures "documentationId" !in f ==> ("documentationId" in WithDefaults(f, path) <==> Described(f))
    ensures "documentationId" !in f && Described(f) ==>
      WithDefaults(f, path)["documentationId"] == Text(Identifier(Lineage(f, path)))
  {
    hide Documentable, FieldShape, Callable, Identifier, Lineage, AUTH;
  }

  /** At the place itself: the identifier that was there, or the one a described object without one is given. */
  lemma OwnIdAfter(f: Fields, path: seq<string>)
    ensures IdAt(Enrich(Object(f), path), []) == Given(Object(f), path, [])
  {
    DescribedGetsId(f, path);
    DefaultsKeep(f, path);
    hide WithDefaults, Identifier, Described, Lineage, AUTH;
    var g := Enrich(Object(f), path).fields;
    assert "documentationId" in SKIPPED;
    assert "documentationId" in g <==> "documentationId" in WithDefaults(f, path);
    assert "documentationId" in g ==> g["documentationId"] == Field(Object(f), path, "documentationId");
  }

  /** Every identifier afterwards: the one given at the place, or else the one that was there. */
  lemma {:induction false} IdAfter(n: Node, path: seq<string>, place: seq<Step>)
    ensures IdAt(Enrich(n, path), place) == Given(n, path, place)
    decreases |place|
  {
    hide Identifier, Digits, IdAt, NewAt;
    var e := Enrich(n, path);
    ObjectKept(n, path);
    if place == [] {
      if n.Object? {
        OwnIdAfter(n.fields, path);
      } else {
        NotAnObject(n, path);
        NotAnObject(e, path);
      }
    } else {
      var rest := place[1..];
      assert place == [place[0]] + rest;
      EnrichKeepsLeaves(n, path);
      NoSuchPlace(n, place);
      NoSuchPlace(e, place);
      if n.Object? && place[0].Key? {
        FieldIdAfter(n, path, place[0].key, rest);
        var k := place[0].key;
        if k in n.fields && k !in SKIPPED {
          IdAfter(n.fields[k], path + [k], rest);
        }
      } else if n.List? {
        ItemOf(n, path);
        if place[0].Index? && place[0].index < |n.items| {
          var i := place[0].index;
          IdBelowItem(n, i, rest);
          IdBelowItem(e, i, rest);
          NewBelowItem(n, path, i, rest);
          IdAfter(n.items[i], path + [Digits(i)], rest);
        }
      }
    }
  }

  lemma NotAnObject(n: Node, path: seq<string>)
    requires !n.Object?
    ensures IdAt(n, []) == None && NewAt(n, path, []) == None
  {}

  /** Below one key: a visited field is enriched, a skipped one stays, and an added one holds no identifier. */
  lemma FieldIdAfter(n: Node, path: seq<string>, k: string, rest: seq<Step>)
    requires n.Object?
    ensures var e := Enrich(n, path);
            && e.Object?
            && (k in n.fields && k !in SKIPPED ==>
                  && IdAt(e, [Key(k)] + rest) == IdAt(Enrich(n.fields[k], path + [k]), rest)
                  && NewAt(n, path, [Key(k)] + rest) == NewAt(n.fields[k], path + [k], rest)
                  && IdAt(n, [Key(k)] + rest) == IdAt(n.fields[k], rest))
            && (!(k in n.fields && k !in SKIPPED) ==>
                  IdAt(e, [Key(k)] + rest) == IdAt(n, [Key(k)] + rest) && NewAt(n, path, [Key(k)] + rest) == None)
  {
    var e, place := Enrich(n, path), [Key(k)] + rest;
    DefaultsKeep(n.fields, path);
    AuthHasNoIds();
    NoSuchPlace(n, place);
    NoSuchPlace(e, place);
    hide WithDefaults, IdAt, NewAt, NoIds;
    if k in n.fields {
      IdBelowField(n, k, rest);
      IdBelowField(e, k, rest);
      NewBelowField(n, path, k, rest);
    } else if k in e.fields {
      assert e.fields[k] == Field(n, path, k);
      IdBelowField(e, k, rest);
      AddedHasNoIds(e.fields[k], k, rest);
    }
  }

  lemma AddedHasNoIds(v: Node, k: string, rest: seq<Step>)
    requires Metadata(k, v)
    ensures IdAt(v, rest) == None
  {
    AuthHasNoIds();
    hide IdAt;
    NoIdsAt(v, rest);
  }

  // ----- When identifiers are distinct -----

  /** Identifiers are equal exactly when the lineages agree part by part. */
  lemma IdentifierDecides(a: seq<string>, b: seq<string>)
    ensures Identifier(a) == Identifier(b) <==> Parts(a) == Parts(b)
  {
    hide Dotted, Part;
    if Identifier(a) == Identifier(b) {
      IdentifierDetermines(a, b);
    }
    if Parts(a) == Parts(b) {
      assert Parts(["api"] + a) == [Part("api")] + Parts(a);
      assert Parts(["api"] + b) == [Part("api")] + Parts(b);
    }
  }

  /**
   The identifiers already there and the lineages of the places that still need one are pairwise distinct,
   lineages up to the characters an identifier does not keep.
   */
  ghost predicate Separate(n: Node) {
    && DistinctIds(n)
    && (forall p, q :: NewAt(n, [], p).Some? && NewAt(n, [], q).Some? && p != q ==>
          Parts(NewAt(n, [], p).value) != Parts(NewAt(n, [], q).value))
    && forall p, q :: IdAt(n, p).Some? && NewAt(n, [], q).Some? ==>
       IdAt(n, p).value != Identifier(NewAt(n, [], q).value)
  }

  lemma {:induction false} NewHadNone(n: Node, path: seq<string>, place: seq<Step>)
    ensures NewAt(n, path, place).Some? ==> IdAt(n, place) == None
    decreases |place|
  {
    if place != [] {
      match (n, place[0]) {
        case (Object(f), Key(k)) => if k in f { NewHadNone(f[k], path + [k], place[1..]); }
        case (List(items), Index(i)) => if i < |items| { NewHadNone(items[i], path + [Digits(i)], place[1..]); }
        case _ =>
      }
    }
  }

  /** Over every surface, enrichment leaves distinct identifiers exactly when these were separate before. */
  lemma EnrichedIdsDiffer(n: Node)
    ensures DistinctIds(Enrich(n, [])) <==> Separate(n)
  {
    hide Enrich, Identifier, IdAt, NewAt, Parts, Given;
    var e := Enrich(n, []);
    forall p
      ensures IdAt(e, p) == Given(n, [], p)
      ensures NewAt(n, [], p).Some? ==> IdAt(n, p) == None
    {
      IdAfter(n, [], p);
      NewHadNone(n, [], p);
    }
    forall a, b
      ensures Identifier(a) == Identifier(b) <==> Parts(a) == Parts(b)
    {
      IdentifierDecides(a, b);
    }
    assert HoldsBoth(n, e);
    if DistinctIds(e) {
      FromDistinct(n, e);
    }
    if Separate(n) {
      FromSeparate(n, e);
    }
  }

  /** `e` holds the identifiers of `n` and those given to it. */
  ghost predicate HoldsBoth(n: Node, e: Node) {
    && (forall p :: IdAt(e, p) == Given(n, [], p))
    && (forall p :: NewAt(n, [], p).Some? ==> IdAt(n, p) == None)
    && forall a, b :: Identifier(a) == Identifier(b) <==> Parts(a) == Parts(b)
  }

  lemma FromDistinct(n: Node, e: Node)
    requires HoldsBoth(n, e) && DistinctIds(e)
    ensures Separate(n)
  {
    hide Identifier, IdAt, NewAt, Parts;
    forall p, q | IdAt(n, p).Some? && IdAt(n, p) == IdAt(n, q)
      ensures p == q
    {
      assert IdAt(e, p) == IdAt(n, p) && IdAt(e, q) == IdAt(n, q);
    }
    forall p, q | NewAt(n, [], p).Some? && NewAt(n, [], q).Some? && p != q
      ensures Parts(NewAt(n, [], p).value) != Parts(NewAt(n, [], q).value)
    {
      assert IdAt(e, p) == Some(Identifier(NewAt(n, [], p).value))
        && IdAt(e, q) == Some(Identifier(NewAt(n, [], q).value));
    }
    forall p, q | IdAt(n, p).Some? && NewAt(n, [], q).Some?
      ensures IdAt(n, p).value != Identifier(NewAt(n, [], q).value)
    {
      assert IdAt(e, p) == IdAt(n, p) && IdAt(e, q) == Some(Identifier(NewAt(n, [], q).value)) && p != q;
    }
  }

  lemma FromSeparate(n: Node, e: Node)
    requires HoldsBoth(n, e) && Separate(n)
    ensures DistinctIds(e)
  {
    hide Identifier, IdAt, NewAt, Parts;
    forall p, q | IdAt(e, p).Some? && IdAt(e, p) == IdAt(e, q)
      ensures p == q
    {
      assert NewAt(n, [], p).Some? || IdAt(e, p) == IdAt(n, p);
      assert NewAt(n, [], q).Some? || IdAt(e, q) == IdAt(n, q);
    }
  }

  // ----- Surfaces without identifiers -----

  /** No identifier yet, names where they are used, and clean keys above every object. */
  predicate Tidy(n: Node) {
    match n
    case Object(f) =>
      && "documentationId" !in f && (Described(f) ==> f["name"].text != "")
      && forall k :: k in f ==> Tidy(f[k]) && (Container(f[k]) ==> Clean(k))
    case List(items) => forall i :: 0 <= i < |items| ==> Tidy(items[i])
    case _ => true
  }

  lemma {:induction false} TidyHasNoIds(n: Node)
    requires Tidy(n)
    ensures NoIds(n)
  {
    match n {
      case Object(f) =>
        forall k | k in f
          ensures NoIds(f[k])
        {
          TidyHasNoIds(f[k]);
        }
      case List(items) =>
        forall i | 0 <= i < |items|
          ensures NoIds(items[i])
        {
          TidyHasNoIds(items[i]);
        }
      case _ =>
    }
  }

  predicate CleanSteps(place: seq<Step>) {
    forall i :: 0 <= i < |place| ==> Clean(StepText(place[i]))
  }

  lemma CleanStep(place: seq<Step>)
    requires place != [] && Clean(StepText(place[0])) && CleanSteps(place[1..])
    ensures CleanSteps(place)
  {
    assert forall i :: 0 < i < |place| ==> place[i] == place[1..][i - 1];
  }

  /** The lineage spells the place and ends in a name. */
  ghost predicate Spells(lineage: seq<string>, path: seq<string>, place: seq<Step>) {
    exists name :: lineage == path + Texts(place) + [name]
  }

  lemma SpellsBelow(lineage: seq<string>, path: seq<string>, place: seq<Step>)
    requires place != [] && Spells(lineage, path + [StepText(place[0])], place[1..])
    ensures Spells(lineage, path, place)
  {
    hide StepText;
    var name :| lineage == path + [StepText(place[0])] + Texts(place[1..]) + [name];
    assert lineage == path + Texts(place) + [name];
  }

  lemma OwnSpells(f: Fields, path: seq<string>)
    requires Described(f) && f["name"].text != ""
    ensures Spells(Lineage(f, path), path, [])
  {
    assert Lineage(f, path) == path + Texts([]) + [f["name"].text];
  }

  /** On a tidy surface every new lineage spells its place, step by clean step. */
  lemma {:induction false} NewSpellsPlace(n: Node, path: seq<string>, place: seq<Step>)
    requires Tidy(n)
    ensures NewAt(n, path, place).Some? ==>
      Container(n) && At(n, place).Some? && CleanSteps(place) && Spells(NewAt(n, path, place).value, path, place)
    decreases |place|
  {
    hide Spells, Clean, CleanSteps, Described, Lineage;
    if NewAt(n, path, place).Some? {
      if place == [] {
        OwnSpells(n.fields, path);
        CleanNothing();
      } else if n.Object? {
        var k := place[0].key;
        NewSpellsPlace(n.fields[k], path + [k], place[1..]);
        CleanStep(place);
        SpellsBelow(NewAt(n, path, place).value, path, place);
      } else {
        var i := place[0].index;
        NewSpellsPlace(n.items[i], path + [Digits(i)], place[1..]);
        DigitsAreClean(i);
        CleanStep(place);
        SpellsBelow(NewAt(n, path, place).value, path, place);
      }
    }
  }

  lemma CleanNothing()
    ensures CleanSteps([])
  {}

  lemma {:induction false} TextsAt(place: seq<Step>, i: nat)
    requires i < |place|
    ensures Texts(place)[i] == StepText(place[i])
  {
    if i > 0 {
      TextsAt(place[1..], i - 1);
    }
  }

  lemma PlaceExists(n: Node, place: seq<Step>)
    requires place != [] && At(n, place).Some?
    ensures if n.Object? then place[0].Key? && place[0].key in n.fields
      else n.List? && place[0].Index? && place[0].index < |n.items|
  {}

  /** Places of one tree with the same texts are the same place. */
  lemma {:induction false} SameTexts(n: Node, p: seq<Step>, q: seq<Step>)
    requires At(n, p).Some? && At(n, q).Some? && Texts(p) == Texts(q)
    ensures p == q
    decreases |p|
  {
    hide Digits;
    if p != [] {
      assert |p| == |q|;
      assert StepText(p[0]) == Texts(p)[0] == Texts(q)[0] == StepText(q[0]);
      assert Texts(p[1..]) == Texts(p)[1..] == Texts(q)[1..] == Texts(q[1..]);
      PlaceExists(n, p);
      PlaceExists(n, q);
      if n.Object? {
        SameTexts(n.fields[p[0].key], p[1..], q[1..]);
      } else {
        DigitsInjective(p[0].index, q[0].index);
        SameTexts(n.items[p[0].index], p[1..], q[1..]);
      }
      assert p == [p[0]] + p[1..] && q == [q[0]] + q[1..];
    }
  }

  lemma SpellingsDiffer(n: Node, p: seq<Step>, q: seq<Step>, a: string, b: string)
    requires At(n, p).Some? && At(n, q).Some? && CleanSteps(p) && CleanSteps(q)
    requires Parts(Texts(p) + [a]) == Parts(Texts(q) + [b])
    ensures p == q
  {
    hide Part, Clean, At, StepText;
    var x, y := Texts(p) + [a], Texts(q) + [b];
    assert |x| == |y|;
    forall i | 0 <= i < |p|
      ensures Texts(p)[i] == Texts(q)[i]
    {
      TextsAt(p, i);
      TextsAt(q, i);
      CleanStays(StepText(p[i]));
      CleanStays(StepText(q[i]));
      assert x[i] == Texts(p)[i] && y[i] == Texts(q)[i];
      assert Parts(x)[i] == Parts(y)[i];
    }
    assert Texts(p) == Texts(q);
    SameTexts(n, p, q);
  }

  /** So a tidy surface always comes out with distinct identifiers. */
  lemma TidyIdsDiffer(surface: Node)
    requires Tidy(surface)
    ensures DistinctIds(Enrich(surface, []))
  {
    hide Enrich, IdAt, NewAt, At, CleanSteps, Parts, Tidy, Identifier;
    forall p
      ensures IdAt(surface, p) == None
    {
      TidyHasNoIds(surface);
      NoIdsAt(surface, p);
    }
    forall p, q | NewAt(surface, [], p).Some? && NewAt(surface, [], q).Some?
      && Parts(NewAt(surface, [], p).value) == Parts(NewAt(surface, [], q).value)
      ensures p == q
    {
      NewSpellsPlace(surface, [], p);
      NewSpellsPlace(surface, [], q);
      var a :| NewAt(surface, [], p).value == [] + Texts(p) + [a];
      var b :| NewAt(surface, [], q).value == [] + Texts(q) + [b];
      assert [] + Texts(p) == Texts(p) && [] + Texts(q) == Texts(q);
      SpellingsDiffer(surface, p, q, a, b);
    }
    EnrichedIdsDiffer(surface);
  }

  /** A surface without identifiers whose two keys an identifier does not tell apart. */
  function Unclean(): Node {
    Object(map["a!" := SmallClass(), "a?" := SmallClass()])
  }

  function SmallClass(): Node {
    Object(map["kind" := Text("class"), "name" := Text("x"), "visibility" := Text("public")])
  }

  lemma SmallClassLineage(path: seq<string>)
    ensures NewAt(SmallClass(), path, []) == Some(path + ["x"])
  {}

  /** Having no identifiers yet is not enough. */
  lemma UncleanKeysCollide()
    ensures NoIds(Unclean()) && !DistinctIds(Enrich(Unclean(), []))
  {
    UncleanHasNoIds();
    var n := Unclean();
    var p, q := [Key("a!")] + [], [Key("a?")] + [];
    assert p[0] == Key("a!") && q[0] == Key("a?") && "a!"[1] != "a?"[1];
    hide NoIds, Enrich, SmallClass, Dotted, NewAt, IdAt, Part, Squeeze;
    NewBelowField(n, [], "a!", []);
    NewBelowField(n, [], "a?", []);
    SmallClassLineage([] + ["a!"]);
    SmallClassLineage([] + ["a?"]);
    SameLineageParts();
    EnrichedIdsDiffer(n);
  }

  lemma UncleanHasNoIds()
    ensures NoIds(Unclean())
  {
    assert NoIds(SmallClass());
    hide SmallClass;
  }

  lemma SameLineageParts()
    ensures Parts(([] + ["a!"]) + ["x"]) == Parts(([] + ["a?"]) + ["x"])
  {
    assert Squeeze("a!", false) == "a-" == Squeeze("a?", false);
    assert Part("a!") == Part("a?");
    hide Squeeze, Part;
  }

  // ----- Surfaces that were enriched before -----

  /**
   A symbol enriched at one index and then moved to another, as when an earlier symbol is deleted, keeps
   identifiers that spell the old index; a new symbol there is given the same ones.
   */
  lemma MovedSymbolCollides(surface: Node, i: nat, j: nat, moved: Node, rest: seq<Step>)
    requires i != j && i < |Symbols(surface)| && j < |Symbols(surface)|
    requires Symbols(surface)[i] == Enrich(moved, ["symbols", Digits(j)])
    requires NewAt(moved, ["symbols", Digits(j)], rest).Some?
    requires NewAt(Symbols(surface)[j], ["symbols", Digits(j)], rest) == NewAt(moved, ["symbols", Digits(j)], rest)
    ensures !DistinctIds(Enrich(surface, []))
  {
    hide Enrich, Identifier, Parts, IdAt, NewAt, Digits;
    var list := surface.fields["symbols"];
    var p, q := [Key("symbols")] + ([Index(i)] + rest), [Key("symbols")] + ([Index(j)] + rest);
    IdBelowField(surface, "symbols", [Index(i)] + rest);
    IdBelowItem(list, i, rest);
    IdAfter(moved, ["symbols", Digits(j)], rest);
    NewBelowField(surface, [], "symbols", [Index(j)] + rest);
    NewBelowItem(list, [] + ["symbols"], j, rest);
    assert [] + ["symbols"] + [Digits(j)] == ["symbols", Digits(j)];
    assert IdAt(surface, p).value == Identifier(NewAt(surface, [], q).value);
    EnrichedIdsDiffer(surface);
  }
}
