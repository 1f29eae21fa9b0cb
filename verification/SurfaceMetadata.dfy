/**
 The API surface and the pass that gives its declarations behaviour, authentication, lifecycle and
 documentation metadata. The pass only adds keys and is idempotent; what it does to the findings of the
 surface checks, and when it leaves identifiers distinct, is in `SurfaceChecks`.
 */
module SurfaceMetadata {
  import opened Bytes
  import opened DocumentationId

  datatype Node =
    | Null
    | Bool(flag: bool)
    | Num(number: string)
    | Text(text: string)
    | List(items: seq<Node>)
    | Object(fields: Fields)

  type Fields = map<string, Node>

  predicate HasText(f: Fields, k: string) {
    k in f && f[k].Text?
  }

  predicate HasBool(f: Fields, k: string) {
    k in f && f[k].Bool?
  }

  predicate Is(f: Fields, k: string, text: string) {
    k in f && f[k] == Text(text)
  }

  // ----- Enrichment -----

  predicate Documentable(f: Fields) {
    && HasText(f, "name") && HasText(f, "visibility")
    && (Is(f, "kind", "class") || Is(f, "kind", "interface") || Is(f, "kind", "function") || Is(f, "kind", "type"))
  }

  predicate CallShape(f: Fields) {
    "parameters" in f && "returns" in f && HasBool(f, "async")
  }

  predicate Callable(f: Fields) {
    HasText(f, "name") && CallShape(f)
  }

  predicate FieldShape(f: Fields) {
    HasText(f, "name") && HasText(f, "visibility") && "type" in f && !Callable(f) && !Documentable(f)
  }

  predicate Described(f: Fields) {
    Documentable(f) || Callable(f) || FieldShape(f)
  }

  function Lineage(f: Fields, path: seq<string>): seq<string> {
    if HasText(f, "name") && f["name"].text != "" then path + [f["name"].text] else path
  }

  function WithDefault(f: Fields, k: string, v: Node): Fields {
    if k in f then f else f[k := v]
  }

  const AUTH: Node := Object(map["mode" := Text("none"), "schemes" := List([]), "scopes" := List([])])

  /** Keys below which nothing is visited, and keys that may be added. */
  const SKIPPED: set<string> := {"documentationId", "deprecation", "auth"}
  const ADDED: set<string> := {"documentationId", "stability", "deprecation", "behavior", "auth"}

  function Documented(f: Fields, path: seq<string>): Fields {
    if Described(f)
    then
      var named := WithDefault(f, "documentationId", Text(Identifier(Lineage(f, path))));
      WithDefault(WithDefault(named, "stability", Text("stable")), "deprecation", Null)
    else f
  }

  function Behavior(f: Fields): Node
    requires HasBool(f, "async")
  {
    Text(if f["async"].flag then "async" else "sync")
  }

  function WithDefaults(f: Fields, path: seq<string>): Fields {
    var g := Documented(f, path);
    if Callable(f)
    then WithDefault(WithDefault(g, "behavior", Behavior(f)), "auth", AUTH)
    else g
  }

  function Enrich(n: Node, path: seq<string>): Node
    decreases n, 1
  {
    match n
    case Object(f) => Object(map k | k in WithDefaults(f, path) :: Field(n, path, k))
    case List(items) => List(seq(|items|, i requires 0 <= i < |items| => Enrich(items[i], path + [Digits(i)])))
    case _ => n
  }

  /** A field afterwards: visited if it was there before, and otherwise a default. */
  function Field(n: Node, path: seq<string>, k: string): Node
    requires n.Object? && k in WithDefaults(n.fields, path)
    decreases n, 0
  {
    if k in n.fields && k !in SKIPPED then Enrich(n.fields[k], path + [k]) else WithDefaults(n.fields, path)[k]
  }

  predicate Metadata(k: string, v: Node) {
    k in ADDED && (v.Text? || (k in SKIPPED && (v == Null || v == AUTH)))
  }

  /** Every field of `f` stays in `g`, and what else is there is metadata. */
  predicate Kept(f: Fields, g: Fields) {
    && (forall k :: k in f ==> k in g && g[k] == f[k])
    && (forall k :: k in g && k !in f ==> Metadata(k, g[k]))
  }

  lemma KeptSelf(f: Fields)
    ensures Kept(f, f)
  {}

  lemma DefaultKept(f: Fields, g: Fields, k: string, v: Node)
    requires Kept(f, g) && Metadata(k, v)
    ensures Kept(f, WithDefault(g, k, v))
  {
    hide Metadata;
  }

  /** The defaults leave every field as it was and add only the metadata keys. */
  lemma DefaultsKeep(f: Fields, path: seq<string>)
    ensures var g := WithDefaults(f, path);
            Kept(f, g)
  {
    hide Described, Lineage, Identifier, Kept, HasText, WithDefault, Digits, AUTH;
    KeptSelf(f);
    if Described(f) {
      var a := WithDefault(f, "documentationId", Text(Identifier(Lineage(f, path))));
      var b := WithDefault(a, "stability", Text("stable"));
      DefaultKept(f, f, "documentationId", Text(Identifier(Lineage(f, path))));
      DefaultKept(f, a, "stability", Text("stable"));
      DefaultKept(f, b, "deprecation", Null);
    }
    if Callable(f) {
      var g := Documented(f, path);
      var v := Behavior(f);
      DefaultKept(f, g, "behavior", v);
      DefaultKept(f, WithDefault(g, "behavior", v), "auth", AUTH);
    }
  }

  method SetDefault(f: Fields, k: string, v: Node, changed: bool) returns (g: Fields, changed': bool)
    ensures g == WithDefault(f, k, v) && (changed' <==> changed || g != f)
  {
    g, changed' := f, changed;
    if k !in f {
      g, changed' := f[k := v], true;
    }
  }

  method Kinds(f: Fields) returns (documentable: bool, callable: bool, field: bool)
    ensures documentable == Documentable(f) && callable == Callable(f) && field == FieldShape(f)
  {
    var named := "name" in f && f["name"].Text?;
    var visible := "visibility" in f && f["visibility"].Text?;
    documentable := named && visible && "kind" in f
      && (f["kind"] == Text("class") || f["kind"] == Text("interface") || f["kind"] == Text("function")
          || f["kind"] == Text("type"));
    callable := named && "parameters" in f && "returns" in f && "async" in f && f["async"].Bool?;
    field := named && visible && "type" in f && !callable && !documentable;
  }

  method LineageOf(f: Fields, path: seq<string>) returns (lineage: seq<string>)
    ensures lineage == Lineage(f, path)
  {
    lineage := path;
    if "name" in f && f["name"].Text? && f["name"].text != "" {
      lineage := lineage + [f["name"].text];
    }
  }

  /** One object's own fields. */
  method Describe(f: Fields, path: seq<string>) returns (g: Fields, changed: bool)
    ensures g == WithDefaults(f, path) && (changed <==> g != f)
  {
    hide Identifier, Documentable, Callable, FieldShape, Lineage;
    DefaultsKeep(f, path);
    var documentable, callable, field := Kinds(f);
    var lineage := LineageOf(f, path);
    g, changed := f, false;
    if documentable || callable || field {
      g, changed := SetDefault(g, "documentationId", Text(Identifier(lineage)), changed);
      g, changed := SetDefault(g, "stability", Text("stable"), changed);
      g, changed := SetDefault(g, "deprecation", Null, changed);
    }
    if callable {
      AsyncFlag(f);
      g, changed := SetDefault(g, "behavior", Text(if f["async"].flag then "async" else "sync"), changed);
      var none := Object(map["mode" := Text("none"), "schemes" := List([]), "scopes" := List([])]);
      g, changed := SetDefault(g, "auth", none, changed);
    }
  }

  lemma AsyncFlag(f: Fields)
    requires Callable(f)
    ensures HasBool(f, "async")
  {}

  lemma FieldsStay(f: Fields, path: seq<string>)
    ensures forall k :: k in f ==> k in WithDefaults(f, path) && WithDefaults(f, path)[k] == f[k]
  {
    hide WithDefaults, Metadata;
    DefaultsKeep(f, path);
  }

  /** The visit: it returns the enriched tree and reports a change exactly when there is one. */
  method Visit(n: Node, path: seq<string>) returns (r: Node, changed: bool)
    ensures r == Enrich(n, path) && (changed <==> r != n)
    decreases n, 1
  {
    hide Field;
    match n {
      case Object(f) =>
        r, changed := VisitFields(n, path);
      case List(items) =>
        r, changed := VisitItems(n, path);
      case _ =>
        return n, false;
    }
  }

  method VisitFields(n: Node, path: seq<string>) returns (r: Node, changed: bool)
    requires n.Object?
    ensures r == Enrich(n, path) && (changed <==> r != n)
    decreases n, 0
  {
    hide WithDefaults;
    var f := n.fields;
    var g, described := Describe(f, path);
    FieldsStay(f, path);
    changed := described;
    var fields, rest := g, f.Keys;
    while rest != {}
      invariant rest <= f.Keys && fields.Keys == g.Keys
      invariant forall k :: k in rest ==> fields[k] == f[k]
      invariant forall k :: k in g && k !in rest ==> fields[k] == Field(n, path, k)
      invariant changed <==> fields != f
      decreases rest
    {
      var key :| key in rest;
      rest := rest - {key};
      if key != "documentationId" && key != "deprecation" && key != "auth" {
        var child, grown := Visit(f[key], path + [key]);
        StillChanged(f, fields, key, child);
        fields := fields[key := child];
        changed := changed || grown;
      }
    }
    r := Object(fields);
    assert fields == Enrich(n, path).fields;
  }

  method VisitItems(n: Node, path: seq<string>) returns (r: Node, changed: bool)
    requires n.List?
    ensures r == Enrich(n, path) && (changed <==> r != n)
    decreases n, 0
  {
    hide Field, Digits;
    var items, grown := n.items, n.items;
    changed := false;
    for i := 0 to |items|
      invariant |grown| == |items|
      invariant forall k :: 0 <= k < i ==> grown[k] == Enrich(items[k], path + [Digits(k)])
      invariant forall k :: i <= k < |items| ==> grown[k] == items[k]
      invariant changed <==> grown != items
    {
      var child, more := Visit(items[i], path + [Digits(i)]);
      StillChangedAt(items, grown, i, child);
      grown := grown[i := child];
      changed := changed || more;
    }
    r := List(grown);
    assert grown == Enrich(n, path).items;
  }

  lemma StillChangedAt(items: seq<Node>, grown: seq<Node>, i: nat, child: Node)
    requires i < |items| == |grown| && grown[i] == items[i]
    ensures grown[i := child] != items <==> grown != items || child != items[i]
  {
    assert grown[i := grown[i]] == grown;
    assert grown[i := child][i] == child;
    if grown != items {
      assert grown[i := child] != items by {
        var k :| 0 <= k < |items| && grown[k] != items[k];
        assert grown[i := child][k] != items[k];
      }
    }
  }

  lemma StillChanged(f: Fields, fields: Fields, key: string, child: Node)
    requires key in f && key in fields && fields[key] == f[key]
    ensures fields[key := child] != f <==> fields != f || child != f[key]
  {
    assert fields[key := fields[key]] == fields;
    assert fields[key := child][key] == child;
  }

  // ----- Only keys are added -----

  /** `b` is `a` with metadata keys added to its objects. */
  predicate Extends(a: Node, b: Node) {
    match a
    case Object(f) =>
      b.Object? && f.Keys <= b.fields.Keys <= f.Keys + ADDED
        && forall k :: k in f ==> k in b.fields && Extends(f[k], b.fields[k])
    case List(items) =>
      b.List? && |b.items| == |items| && forall i :: 0 <= i < |items| ==> Extends(items[i], b.items[i])
    case _ => a == b
  }

  lemma {:induction false} ExtendsSelf(n: Node)
    ensures Extends(n, n)
  {
    match n {
      case Object(f) =>
        forall k | k in f
          ensures Extends(f[k], f[k])
        {
          ExtendsSelf(f[k]);
        }
      case List(items) =>
        forall i | 0 <= i < |items|
          ensures Extends(items[i], items[i])
        {
          ExtendsSelf(items[i]);
        }
      case _ =>
    }
  }

  /** Enrichment only adds metadata keys, at every depth. */
  lemma {:induction false} OnlyAdds(n: Node, path: seq<string>)
    ensures Extends(n, Enrich(n, path))
    decreases n
  {
    hide WithDefaults, AUTH;
    match n {
      case Object(f) =>
        DefaultsKeep(f, path);
        forall k | k in f
          ensures Extends(f[k], Field(n, path, k))
        {
          if k !in SKIPPED {
            OnlyAdds(f[k], path + [k]);
          } else {
            ExtendsSelf(f[k]);
          }
        }
      case List(items) =>
        forall i | 0 <= i < |items|
          ensures Extends(items[i], Enrich(items[i], path + [Digits(i)]))
        {
          OnlyAdds(items[i], path + [Digits(i)]);
        }
      case _ =>
    }
  }

  // ----- Idempotence -----

  /** Texts, flags and presence of the fields that decide what is added are the same. */
  predicate SameShape(f: Fields, g: Fields) {
    && f.Keys <= g.Keys <= f.Keys + ADDED
    && forall k :: k in f && (f[k].Text? || f[k].Bool? || g[k].Text? || g[k].Bool?) ==> g[k] == f[k]
  }

  lemma ShapeDecides(f: Fields, g: Fields, path: seq<string>)
    requires SameShape(f, g)
    ensures Described(f) == Described(g) && Callable(f) == Callable(g) && Lineage(f, path) == Lineage(g, path)
  {
    assert forall k :: k in {"name", "visibility", "kind", "parameters", "returns", "async", "type"} ==>
      (k in f <==> k in g);
  }

  lemma EnrichKeepsLeaves(n: Node, path: seq<string>)
    ensures n.Text? || n.Bool? || n.Null? || n.Num? ==> Enrich(n, path) == n
    ensures n.Object? <==> Enrich(n, path).Object?
    ensures n.List? <==> Enrich(n, path).List?
  {}

  lemma EnrichedShape(f: Fields, path: seq<string>)
    ensures SameShape(f, Enrich(Object(f), path).fields)
  {
    hide WithDefaults, AUTH;
    DefaultsKeep(f, path);
    forall k | k in f
      ensures f[k].Text? || f[k].Bool? || Field(Object(f), path, k).Text? || Field(Object(f), path, k).Bool? ==>
        Field(Object(f), path, k) == f[k]
    {
      EnrichKeepsLeaves(f[k], path + [k]);
    }
  }

  /** What the defaults must have put in. */
  predicate Complete(f: Fields) {
    && (Described(f) ==> {"documentationId", "stability", "deprecation"} <= f.Keys)
    && (Callable(f) ==> {"behavior", "auth"} <= f.Keys)
  }

  lemma CompleteIsFixed(f: Fields, path: seq<string>)
    requires Complete(f)
    ensures WithDefaults(f, path) == f
  {
    hide Described, Callable, Identifier, Lineage;
  }

  lemma DefaultsComplete(f: Fields, path: seq<string>)
    ensures Described(f) ==> {"documentationId", "stability", "deprecation"} <= WithDefaults(f, path).Keys
    ensures Callable(f) ==> {"behavior", "auth"} <= WithDefaults(f, path).Keys
  {
    hide Described, Identifier, Lineage, HasText;
  }

  lemma EnrichedIsFixed(f: Fields, path: seq<string>)
    ensures var g := Enrich(Object(f), path).fields;
            WithDefaults(g, path) == g
  {
    var g := Enrich(Object(f), path).fields;
    EnrichedShape(f, path);
    ShapeDecides(f, g, path);
    DefaultsComplete(f, path);
    hide WithDefaults, Described, Callable, SameShape;
    CompleteIsFixed(g, path);
  }

  /** Enriching again changes nothing. */
  lemma {:induction false} EnrichIsIdempotent(n: Node, path: seq<string>)
    ensures Enrich(Enrich(n, path), path) == Enrich(n, path)
    decreases n
  {
    hide WithDefaults;
    match n {
      case Object(f) =>
        var once := Enrich(n, path);
        var g := once.fields;
        EnrichedIsFixed(f, path);
        DefaultsKeep(f, path);
        forall k | k in g
          ensures Field(once, path, k) == g[k]
        {
          if k !in SKIPPED {
            if k in f {
              EnrichIsIdempotent(f[k], path + [k]);
            } else {
              EnrichKeepsLeaves(g[k], path + [k]);
            }
          }
        }
        assert Enrich(once, path).fields == g;
      case List(items) =>
        forall i | 0 <= i < |items|
          ensures Enrich(Enrich(items[i], path + [Digits(i)]), path + [Digits(i)]) ==
            Enrich(items[i], path + [Digits(i)])
        {
          EnrichIsIdempotent(items[i], path + [Digits(i)]);
        }
        assert Enrich(Enrich(n, path), path).items == Enrich(n, path).items;
      case _ =>
    }
  }
}
