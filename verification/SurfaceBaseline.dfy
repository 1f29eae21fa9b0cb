/**
 The standard symbols of every client surface, and their merging into an existing one. Whatever the
 prefix, the generated surface passes every check once it is enriched.
 */
module SurfaceBaseline {
  import opened Bytes
  import opened DocumentationId
  import opened SurfaceMetadata
  import opened SurfaceChecks

  function Primitive(name: string): Node {
    Object(map["kind" := Text("primitive"), "name" := Text(name)])
  }

  function NamedType(name: string): Node {
    Object(map["kind" := Text("named"), "name" := Text(name)])
  }

  function Optional(item: Node): Node {
    Object(map["kind" := Text("optional"), "item" := item])
  }

  function Parameter(name: string, t: Node): Node {
    Object(map["name" := Text(name), "type" := t])
  }

  function FieldDecl(name: string, visibility: string, t: Node): Node {
    Object(map["name" := Text(name), "visibility" := Text(visibility), "type" := t, "readonly" := Bool(true)])
  }

  function Call(name: string, visibility: string, parameters: seq<Node>, result: Node, isAsync: bool, isStatic: bool,
                throws: seq<Node>): Fields {
    map["name" := Text(name), "visibility" := Text(visibility), "parameters" := List(parameters), "returns" := result,
        "async" := Bool(isAsync), "static" := Bool(isStatic), "throws" := List(throws)]
  }

  function Method(name: string, visibility: string, parameters: seq<Node>, result: Node, isAsync: bool, isStatic: bool,
                  throws: seq<Node>): Node {
    Object(Call(name, visibility, parameters, result, isAsync, isStatic, throws))
  }

  function Function(name: string, visibility: string, description: string, parameters: seq<Node>, result: Node,
                    throws: seq<Node>): (r: Node)
    ensures Headed(r, "function", name, visibility)
  {
    Object(Call(name, visibility, parameters, result, false, true, throws)
           ["kind" := Text("function")]["description" := Text(description)])
  }

  predicate Headed(n: Node, kind: string, name: string, visibility: string) {
    n.Object? && Is(n.fields, "kind", kind) && Is(n.fields, "name", name) && Is(n.fields, "visibility", visibility)
  }

  function Symbol(kind: string, name: string, visibility: string, description: string): Fields {
    map["kind" := Text(kind), "name" := Text(name), "visibility" := Text(visibility),
        "description" := Text(description)]
  }

  function ObjectType(name: string, visibility: string, description: string, fields: seq<Node>): (r: Node)
    ensures Headed(r, "type", name, visibility)
  {
    Object(Symbol("type", name, visibility, description)
           ["definition" := Object(map["kind" := Text("object"), "fields" := List(fields)])])
  }

  function EnumType(name: string, visibility: string, description: string, values: seq<Node>): (r: Node)
    ensures Headed(r, "type", name, visibility)
  {
    Object(Symbol("type", name, visibility, description)
           ["definition" := Object(map["kind" := Text("enum"), "values" := List(values)])])
  }

  function Interface(name: string, visibility: string, description: string, methods: seq<Node>): (r: Node)
    ensures Headed(r, "interface", name, visibility)
  {
    Object(Symbol("interface", name, visibility, description)["methods" := List(methods)])
  }

  function Class(name: string, visibility: string, description: string, fields: seq<Node>, constructors: seq<Node>,
                 methods: seq<Node>): (r: Node)
    ensures Headed(r, "class", name, visibility)
  {
    Object(Symbol("class", name, visibility, description)
           ["fields" := List(fields)]["constructors" := List(constructors)]
           ["methods" := List(methods)]["implements" := List([])])
  }

  const TRANSPORT := "Transport abstraction implemented by runtime adapters."
  const NORMALIZE := "Normalize a base URL without network access."

  /** The names of the standard symbols, in their order. */
  function StandardNames(cap: string): (r: seq<string>)
    ensures |r| == 9
  {
    [cap + "ClientOptions", "_" + cap + "RequestContext", cap + "Transport", "_" + cap + "TelemetrySink",
     cap + "ClientError",
     cap + "Client", "_" + cap + "RequestBuilder", "create" + cap + "Client", "_normalize" + cap + "BaseUrl"]
  }

  function Options(cap: string): Node {
    ObjectType(StandardNames(cap)[0], "public", "Portable client construction options.",
               [FieldDecl("baseUrl", "public", Primitive("string")),
                FieldDecl("bearerToken", "public", Optional(Primitive("string")))])
  }

  function RequestContext(cap: string): Node {
    ObjectType(StandardNames(cap)[1], "private", "Internal request correlation state.",
               [FieldDecl("requestId", "private", Primitive("string"))])
  }

  function Raises(cap: string): seq<Node> {
    [NamedType(StandardNames(cap)[4])]
  }

  function Transport(cap: string): Node {
    Interface(StandardNames(cap)[2], "public", TRANSPORT,
              [Method("send", "public", [Parameter("path", Primitive("string")),
                                         Parameter("body", Optional(Primitive("bytes")))],
                      Primitive("bytes"), true, false, Raises(cap))])
  }

  function Telemetry(cap: string): Node {
    Interface(StandardNames(cap)[3], "private", "Internal telemetry sink.",
              [Method("record", "private", [Parameter("event", Primitive("string"))], Primitive("void"), false, false,
                      [])])
  }

  function ClientError(cap: string): Node {
    EnumType(StandardNames(cap)[4], "public", "Stable cross-runtime error categories.",
             [Text("InvalidConfiguration"), Text("TransportFailure"), Text("Unauthorized"), Text("UnexpectedResponse")])
  }

  function Client(cap: string): Node {
    Class(StandardNames(cap)[5], "public", "Standard public client entry point.",
          [FieldDecl("options", "private", NamedType(StandardNames(cap)[0]))],
          [Method("new", "public", [Parameter("options", NamedType(StandardNames(cap)[0]))],
                  NamedType(StandardNames(cap)[5]), false, true, Raises(cap))],
          [Method("health", "public", [], Primitive("boolean"), true, false, Raises(cap)),
           Method("_request", "private", [Parameter("path", Primitive("string")),
                                          Parameter("context", NamedType(StandardNames(cap)[1]))],
                  Primitive("bytes"), true, false, Raises(cap))])
  }

  function Builder(cap: string): Node {
    Class(StandardNames(cap)[6], "private", "Internal request builder.", [],
          [Method("new", "private", [], NamedType(StandardNames(cap)[6]), false, true, [])],
          [Method("build", "private", [Parameter("path", Primitive("string"))], Primitive("bytes"), false, false, [])])
  }

  function Create(cap: string): Node {
    Function(StandardNames(cap)[7], "public", "Construct the standard client entry point.",
             [Parameter("options", NamedType(StandardNames(cap)[0]))], NamedType(StandardNames(cap)[5]), Raises(cap))
  }

  function Normalize(cap: string): Node {
    Function(StandardNames(cap)[8], "private", NORMALIZE,
             [Parameter("baseUrl", Primitive("string"))], Primitive("string"), Raises(cap))
  }

  function BaselineSymbols(cap: string): seq<Node> {
    [Options(cap), RequestContext(cap), Transport(cap), Telemetry(cap), ClientError(cap), Client(cap), Builder(cap),
     Create(cap), Normalize(cap)]
  }

  lemma NamesDiffer(cap: string)
    ensures var n := StandardNames(cap);
            |n| == 9 && forall i, j :: 0 <= i < j < 9 ==> n[i] != n[j]
  {
    var n := StandardNames(cap);
    assert n[1][|n[1]| - 1] == 't' && n[6][|n[6]| - 1] == 'r';
    assert |n[0]| == |cap| + 13 && |n[1]| == |cap| + 15 && |n[2]| == |cap| + 9 && |n[3]| == |cap| + 14
      && |n[4]| == |cap| + 11;
    assert |n[5]| == |cap| + 6 && |n[6]| == |cap| + 15 && |n[7]| == |cap| + 12 && |n[8]| == |cap| + 17;
  }

  // ----- Every part passes the checks that look at every object -----

  predicate Fit(n: Node, declared: set<string>) {
    Tidy(n) && Everywhere(n, Resolves(declared)) && Everywhere(n, Consistently())
  }

  predicate AllFit(ns: seq<Node>, declared: set<string>) {
    forall i :: 0 <= i < |ns| ==> Fit(ns[i], declared)
  }

  lemma FitLeaf(n: Node, declared: set<string>)
    ensures n.Text? || n.Bool? || n.Num? || n.Null? ==> Fit(n, declared)
  {}

  lemma FitList(ns: seq<Node>, declared: set<string>)
    requires AllFit(ns, declared)
    ensures Fit(List(ns), declared)
  {
    hide Consistent, Resolves;
    assert forall i :: 0 <= i < |ns| ==> Fit(ns[i], declared);
  }

  predicate OwnFit(f: Fields, declared: set<string>) {
    && "documentationId" !in f && (Described(f) ==> f["name"].text != "") && Consistent(f)
    && (Is(f, "kind", "named") ==> HasText(f, "name") && f["name"].text in declared)
  }

  lemma FitObject(f: Fields, declared: set<string>)
    requires OwnFit(f, declared)
    requires forall k :: k in f ==> FitField(k, f[k], declared)
    ensures Fit(Object(f), declared)
  {
    hide Consistent, Clean, Described;
    assert forall k :: k in f ==> FitField(k, f[k], declared);
  }

  predicate FitField(k: string, n: Node, declared: set<string>) {
    Fit(n, declared) && (Container(n) ==> Clean(k))
  }

  lemma FitText(k: string, text: string, declared: set<string>)
    ensures FitField(k, Text(text), declared)
  {
    FitLeaf(Text(text), declared);
  }

  lemma FitBool(k: string, flag: bool, declared: set<string>)
    ensures FitField(k, Bool(flag), declared)
  {
    FitLeaf(Bool(flag), declared);
  }

  lemma FitPart(k: string, n: Node, declared: set<string>)
    requires Fit(n, declared) && Clean(k)
    ensures FitField(k, n, declared)
  {}

  lemma FitParts(k: string, ns: seq<Node>, declared: set<string>)
    requires AllFit(ns, declared) && Clean(k)
    ensures FitField(k, List(ns), declared)
  {
    FitList(ns, declared);
  }

  lemma CleanKeys()
    ensures Clean("item") && Clean("type") && Clean("fields") && Clean("values") && Clean("methods") && Clean("throws")
    ensures Clean("parameters") && Clean("returns") && Clean("definition") && Clean("constructors")
      && Clean("implements")
    ensures Clean("symbols") && Clean("package") && Clean("interfaces")
  {
    ShortCleanKeys();
    LongCleanKeys();
    hide Clean;
  }

  lemma ShortCleanKeys()
    ensures Clean("item") && Clean("type") && Clean("fields") && Clean("values") && Clean("methods") && Clean("throws")
    ensures Clean("symbols") && Clean("package")
  {}

  lemma LongCleanKeys()
    ensures Clean("parameters") && Clean("returns") && Clean("definition") && Clean("constructors")
      && Clean("implements")
    ensures Clean("interfaces")
  {}

  lemma FitPrimitive(name: string, declared: set<string>)
    ensures Fit(Primitive(name), declared)
  {
    var f: Fields := map["kind" := Text("primitive"), "name" := Text(name)];
    FitText("kind", "primitive", declared);
    FitText("name", name, declared);
    hide Fit, FitField;
    FitObject(f, declared);
  }

  lemma FitNamed(name: string, declared: set<string>)
    requires name in declared
    ensures Fit(NamedType(name), declared)
  {
    var f: Fields := map["kind" := Text("named"), "name" := Text(name)];
    FitText("kind", "named", declared);
    FitText("name", name, declared);
    hide Fit, FitField;
    FitObject(f, declared);
  }

  lemma FitOptional(item: Node, declared: set<string>)
    requires Fit(item, declared)
    ensures Fit(Optional(item), declared)
  {
    CleanKeys();
    hide Clean;
    var f: Fields := map["kind" := Text("optional"), "item" := item];
    FitText("kind", "optional", declared);
    FitPart("item", item, declared);
    hide Fit, FitField;
    FitObject(f, declared);
  }

  lemma FitParameter(name: string, t: Node, declared: set<string>)
    requires Fit(t, declared)
    ensures Fit(Parameter(name, t), declared)
  {
    CleanKeys();
    hide Clean;
    var f: Fields := map["name" := Text(name), "type" := t];
    FitText("name", name, declared);
    FitPart("type", t, declared);
    hide Fit, FitField;
    FitObject(f, declared);
  }

  lemma FitFieldDecl(name: string, visibility: string, t: Node, declared: set<string>)
    requires Fit(t, declared) && name != ""
    ensures Fit(FieldDecl(name, visibility, t), declared)
  {
    CleanKeys();
    hide Clean;
    var f: Fields := map["name" := Text(name), "visibility" := Text(visibility), "type" := t, "readonly" := Bool(true)];
    FitText("name", name, declared);
    FitText("visibility", visibility, declared);
    FitPart("type", t, declared);
    FitBool("readonly", true, declared);
    hide Fit, FitField;
    FitObject(f, declared);
  }

  lemma CallOwn(name: string, visibility: string, parameters: seq<Node>, result: Node, isAsync: bool, isStatic: bool,
                throws: seq<Node>,
                declared: set<string>)
    requires name != ""
    ensures OwnFit(Call(name, visibility, parameters, result, isAsync, isStatic, throws), declared)
  {}

  lemma CallFields(name: string, visibility: string, parameters: seq<Node>, result: Node, isAsync: bool, isStatic: bool,
                   throws: seq<Node>,
                   declared: set<string>)
    requires AllFit(parameters, declared) && Fit(result, declared) && AllFit(throws, declared)
    ensures var f := Call(name, visibility, parameters, result, isAsync, isStatic, throws);
            forall k :: k in f ==> FitField(k, f[k], declared)
  {
    CleanKeys();
    hide Clean;
    FitText("name", name, declared);
    FitText("visibility", visibility, declared);
    FitParts("parameters", parameters, declared);
    FitPart("returns", result, declared);
    FitBool("async", isAsync, declared);
    FitBool("static", isStatic, declared);
    FitParts("throws", throws, declared);
    hide Fit, FitField, AllFit;
  }

  lemma FitMethod(name: string, visibility: string, parameters: seq<Node>, result: Node, isAsync: bool, isStatic: bool,
                  throws: seq<Node>,
                  declared: set<string>)
    requires name != "" && AllFit(parameters, declared) && Fit(result, declared) && AllFit(throws, declared)
    ensures Fit(Method(name, visibility, parameters, result, isAsync, isStatic, throws), declared)
  {
    hide Fit, FitField, AllFit, Call, OwnFit;
    CallOwn(name, visibility, parameters, result, isAsync, isStatic, throws, declared);
    CallFields(name, visibility, parameters, result, isAsync, isStatic, throws, declared);
    FitObject(Call(name, visibility, parameters, result, isAsync, isStatic, throws), declared);
  }

  lemma FitFunction(name: string, visibility: string, description: string, parameters: seq<Node>, result: Node,
                    throws: seq<Node>,
                    declared: set<string>)
    requires name != "" && AllFit(parameters, declared) && Fit(result, declared) && AllFit(throws, declared)
    ensures Fit(Function(name, visibility, description, parameters, result, throws), declared)
  {
    CallFields(name, visibility, parameters, result, false, true, throws, declared);
    FitText("kind", "function", declared);
    FitText("description", description, declared);
    FunctionOwn(name, visibility, description, parameters, result, throws, declared);
    hide Fit, FitField, AllFit, Call, OwnFit;
    FitObject(Call(name, visibility, parameters, result, false, true,
                   throws)["kind" := Text("function")]["description" := Text(description)], declared);
  }

  lemma FunctionOwn(name: string, visibility: string, description: string, parameters: seq<Node>, result: Node,
                    throws: seq<Node>,
                    declared: set<string>)
    requires name != ""
    ensures OwnFit(Function(name, visibility, description, parameters, result, throws).fields, declared)
  {}

  lemma SymbolFields(kind: string, name: string, visibility: string, description: string, declared: set<string>)
    ensures var f := Symbol(kind, name, visibility, description);
            forall k :: k in f ==> FitField(k, f[k], declared)
  {
    FitText("kind", kind, declared);
    FitText("name", name, declared);
    FitText("visibility", visibility, declared);
    FitText("description", description, declared);
    hide FitField;
  }

  lemma FitDefinition(kind: string, key: string, parts: seq<Node>, declared: set<string>)
    requires AllFit(parts, declared) && Clean(key) && key != "kind" && kind != "named" && key !in ADDED && key != "name"
    ensures Fit(Object(map["kind" := Text(kind), key := List(parts)]), declared)
  {
    hide Clean;
    var f: Fields := map["kind" := Text(kind), key := List(parts)];
    FitText("kind", kind, declared);
    FitParts(key, parts, declared);
    hide Fit, FitField, AllFit;
    assert OwnFit(f, declared);
    hide OwnFit;
    FitObject(f, declared);
  }

  /** The checks look at none of the further keys of a symbol. */
  lemma SymbolOwn(kind: string, name: string, visibility: string, description: string, key: string, v: Node,
                  declared: set<string>)
    requires name != "" && kind != "named" && key !in ADDED && key !in {"name", "kind", "visibility"}
    ensures OwnFit(Symbol(kind, name, visibility, description)[key := v], declared)
  {
    hide Described;
  }

  /** A type symbol is fit when its definition is. */
  lemma FitType(name: string, visibility: string, description: string, definition: Node, declared: set<string>)
    requires name != "" && Fit(definition, declared)
    ensures Fit(Object(Symbol("type", name, visibility, description)["definition" := definition]), declared)
  {
    CleanKeys();
    hide Clean;
    var f := Symbol("type", name, visibility, description)["definition" := definition];
    SymbolFields("type", name, visibility, description, declared);
    FitPart("definition", definition, declared);
    hide Fit, FitField, OwnFit;
    SymbolOwn("type", name, visibility, description, "definition", definition, declared);
    FitObject(f, declared);
  }

  lemma FitInterface(name: string, visibility: string, description: string, methods: seq<Node>, declared: set<string>)
    requires name != "" && AllFit(methods, declared)
    ensures Fit(Interface(name, visibility, description, methods), declared)
  {
    CleanKeys();
    hide Clean;
    var f := Symbol("interface", name, visibility, description)["methods" := List(methods)];
    SymbolFields("interface", name, visibility, description, declared);
    FitParts("methods", methods, declared);
    hide Fit, FitField, AllFit, OwnFit;
    SymbolOwn("interface", name, visibility, description, "methods", List(methods), declared);
    FitObject(f, declared);
  }

  lemma ClassOwn(name: string, visibility: string, description: string, fields: seq<Node>, constructors: seq<Node>,
                 methods: seq<Node>, declared: set<string>)
    requires name != ""
    ensures OwnFit(Class(name, visibility, description, fields, constructors, methods).fields, declared)
  {}

  lemma FitClass(name: string, visibility: string, description: string, fields: seq<Node>, constructors: seq<Node>,
                 methods: seq<Node>, declared: set<string>)
    requires name != "" && AllFit(fields, declared) && AllFit(constructors, declared) && AllFit(methods, declared)
    ensures Fit(Class(name, visibility, description, fields, constructors, methods), declared)
  {
    CleanKeys();
    hide Clean;
    var none: seq<Node> := [];
    SymbolFields("class", name, visibility, description, declared);
    FitParts("fields", fields, declared);
    FitParts("constructors", constructors, declared);
    FitParts("methods", methods, declared);
    FitParts("implements", none, declared);
    ClassOwn(name, visibility, description, fields, constructors, methods, declared);
    hide Fit, FitField, AllFit, OwnFit, Symbol;
    FitObject(Class(name, visibility, description, fields, constructors, methods).fields, declared);
  }

  // ----- The nine symbols -----

  /** Every declared name is one of these, and every reference is to one. */
  predicate Holds(cap: string, declared: set<string>) {
    forall i :: 0 <= i < 9 ==> StandardNames(cap)[i] in declared && StandardNames(cap)[i] != ""
  }

  lemma FitRaises(cap: string, declared: set<string>)
    requires Holds(cap, declared)
    ensures AllFit(Raises(cap), declared) && AllFit([], declared)
  {
    hide Fit, StandardNames;
    FitNamed(StandardNames(cap)[4], declared);
  }

  lemma FitOne(n: Node, declared: set<string>)
    requires Fit(n, declared)
    ensures AllFit([n], declared)
  {
    hide Fit;
  }

  lemma FitTwo(a: Node, b: Node, declared: set<string>)
    requires Fit(a, declared) && Fit(b, declared)
    ensures AllFit([a, b], declared)
  {
    hide Fit;
  }

  lemma FitOptions(cap: string, declared: set<string>)
    requires Holds(cap, declared)
    ensures Fit(Options(cap), declared)
  {
    hide Fit, AllFit, Primitive, Optional, FieldDecl, StandardNames, Symbol;
    var text := Primitive("string");
    FitPrimitive("string", declared);
    FitOptional(text, declared);
    FitFieldDecl("baseUrl", "public", text, declared);
    FitFieldDecl("bearerToken", "public", Optional(text), declared);
    FitTwo(FieldDecl("baseUrl", "public", text), FieldDecl("bearerToken", "public", Optional(text)), declared);
    FitObjectType(StandardNames(cap)[0], "public", "Portable client construction options.",
                  [FieldDecl("baseUrl", "public", text), FieldDecl("bearerToken", "public", Optional(text))], declared);
  }

  lemma FitObjectType(name: string, visibility: string, description: string, fields: seq<Node>, declared: set<string>)
    requires name != "" && AllFit(fields, declared)
    ensures Fit(ObjectType(name, visibility, description, fields), declared)
  {
    hide Fit, AllFit, Symbol;
    CleanKeys();
    hide Clean;
    FitDefinition("object", "fields", fields, declared);
    FitType(name, visibility, description, Object(map["kind" := Text("object"), "fields" := List(fields)]), declared);
  }

  lemma FitRequestContext(cap: string, declared: set<string>)
    requires Holds(cap, declared)
    ensures Fit(RequestContext(cap), declared)
  {
    hide Fit, AllFit, Primitive, FieldDecl, StandardNames, ObjectType;
    FitPrimitive("string", declared);
    FitFieldDecl("requestId", "private", Primitive("string"), declared);
    FitOne(FieldDecl("requestId", "private", Primitive("string")), declared);
    FitObjectType(StandardNames(cap)[1], "private", "Internal request correlation state.",
                  [FieldDecl("requestId", "private", Primitive("string"))], declared);
  }

  lemma FitTransport(cap: string, declared: set<string>)
    requires Holds(cap, declared)
    ensures Fit(Transport(cap), declared)
  {
    hide Fit, AllFit, Primitive, Optional, Parameter, Method, Raises, StandardNames, Interface, TRANSPORT;
    var text, bytes := Primitive("string"), Primitive("bytes");
    var path, body := Parameter("path", text), Parameter("body", Optional(bytes));
    FitPrimitive("string", declared);
    FitPrimitive("bytes", declared);
    FitOptional(bytes, declared);
    FitParameter("path", text, declared);
    FitParameter("body", Optional(bytes), declared);
    FitTwo(path, body, declared);
    FitRaises(cap, declared);
    FitMethod("send", "public", [path, body], bytes, true, false, Raises(cap), declared);
    FitOne(Method("send", "public", [path, body], bytes, true, false, Raises(cap)), declared);
    FitInterface(StandardNames(cap)[2], "public", TRANSPORT,
                 [Method("send", "public", [path, body], bytes, true, false, Raises(cap))], declared);
  }

  lemma FitTelemetry(cap: string, declared: set<string>)
    requires Holds(cap, declared)
    ensures Fit(Telemetry(cap), declared)
  {
    hide Fit, AllFit, Primitive, Parameter, Method, StandardNames, Interface;
    var event := Parameter("event", Primitive("string"));
    FitPrimitive("string", declared);
    FitPrimitive("void", declared);
    FitParameter("event", Primitive("string"), declared);
    FitOne(event, declared);
    FitRaises(cap, declared);
    FitMethod("record", "private", [event], Primitive("void"), false, false, [], declared);
    FitOne(Method("record", "private", [event], Primitive("void"), false, false, []), declared);
    FitInterface(StandardNames(cap)[3], "private", "Internal telemetry sink.",
                 [Method("record", "private", [event], Primitive("void"), false, false, [])], declared);
  }

  lemma FitClientError(cap: string, declared: set<string>)
    requires Holds(cap, declared)
    ensures Fit(ClientError(cap), declared)
  {
    hide Fit, StandardNames, Symbol;
    CleanKeys();
    hide Clean;
    var values := [Text("InvalidConfiguration"), Text("TransportFailure"), Text("Unauthorized"),
                   Text("UnexpectedResponse")];
    forall i | 0 <= i < 4
      ensures Fit(values[i], declared)
    {
      FitLeaf(values[i], declared);
    }
    assert AllFit(values, declared);
    FitDefinition("enum", "values", values, declared);
    FitType(StandardNames(cap)[4], "public", "Stable cross-runtime error categories.",
            Object(map["kind" := Text("enum"), "values" := List(values)]), declared);
  }

  lemma FitClient(cap: string, declared: set<string>)
    requires Holds(cap, declared)
    ensures Fit(Client(cap), declared)
  {
    hide Fit, AllFit, Primitive, NamedType, Parameter, Method, Raises, StandardNames, Class, FieldDecl;
    var options, client, request := NamedType(StandardNames(cap)[0]), NamedType(StandardNames(cap)[5]),
      NamedType(StandardNames(cap)[1]);
    FitNamed(StandardNames(cap)[0], declared);
    FitNamed(StandardNames(cap)[5], declared);
    FitNamed(StandardNames(cap)[1], declared);
    FitPrimitive("string", declared);
    FitPrimitive("boolean", declared);
    FitPrimitive("bytes", declared);
    FitRaises(cap, declared);
    FitFieldDecl("options", "private", options, declared);
    FitOne(FieldDecl("options", "private", options), declared);
    FitParameter("options", options, declared);
    FitOne(Parameter("options", options), declared);
    FitMethod("new", "public", [Parameter("options", options)], client, false, true, Raises(cap), declared);
    FitOne(Method("new", "public", [Parameter("options", options)], client, false, true, Raises(cap)), declared);
    var health := Method("health", "public", [], Primitive("boolean"), true, false, Raises(cap));
    FitMethod("health", "public", [], Primitive("boolean"), true, false, Raises(cap), declared);
    var path, context := Parameter("path", Primitive("string")), Parameter("context", request);
    FitParameter("path", Primitive("string"), declared);
    FitParameter("context", request, declared);
    FitTwo(path, context, declared);
    var send := Method("_request", "private", [path, context], Primitive("bytes"), true, false, Raises(cap));
    FitMethod("_request", "private", [path, context], Primitive("bytes"), true, false, Raises(cap), declared);
    FitTwo(health, send, declared);
    FitClass(StandardNames(cap)[5], "public", "Standard public client entry point.",
             [FieldDecl("options", "private", options)],
             [Method("new", "public", [Parameter("options", options)], client, false, true, Raises(cap))],
               [health, send], declared);
  }

  lemma FitBuilder(cap: string, declared: set<string>)
    requires Holds(cap, declared)
    ensures Fit(Builder(cap), declared)
  {
    hide Fit, AllFit, Primitive, NamedType, Parameter, Method, StandardNames, Class;
    var me, path := NamedType(StandardNames(cap)[6]), Parameter("path", Primitive("string"));
    FitNamed(StandardNames(cap)[6], declared);
    FitPrimitive("string", declared);
    FitPrimitive("bytes", declared);
    FitRaises(cap, declared);
    FitMethod("new", "private", [], me, false, true, [], declared);
    FitOne(Method("new", "private", [], me, false, true, []), declared);
    FitParameter("path", Primitive("string"), declared);
    FitOne(path, declared);
    FitMethod("build", "private", [path], Primitive("bytes"), false, false, [], declared);
    FitOne(Method("build", "private", [path], Primitive("bytes"), false, false, []), declared);
    FitClass(StandardNames(cap)[6], "private", "Internal request builder.", [],
             [Method("new", "private", [], me, false, true, [])],
             [Method("build", "private", [path], Primitive("bytes"), false, false, [])], declared);
  }

  lemma FitCreate(cap: string, declared: set<string>)
    requires Holds(cap, declared)
    ensures Fit(Create(cap), declared)
  {
    hide Fit, AllFit, NamedType, Parameter, Raises, StandardNames, Function;
    var options, client := NamedType(StandardNames(cap)[0]), NamedType(StandardNames(cap)[5]);
    FitNamed(StandardNames(cap)[0], declared);
    FitNamed(StandardNames(cap)[5], declared);
    FitRaises(cap, declared);
    FitParameter("options", options, declared);
    FitOne(Parameter("options", options), declared);
    FitFunction(StandardNames(cap)[7], "public", "Construct the standard client entry point.",
                [Parameter("options", options)], client,
                Raises(cap), declared);
  }

  lemma FitNormalize(cap: string, declared: set<string>)
    requires Holds(cap, declared)
    ensures Fit(Normalize(cap), declared)
  {
    hide Fit, AllFit, Primitive, Parameter, Raises, StandardNames, Function, NORMALIZE;
    var base := Parameter("baseUrl", Primitive("string"));
    FitPrimitive("string", declared);
    FitRaises(cap, declared);
    FitParameter("baseUrl", Primitive("string"), declared);
    FitOne(base, declared);
    FitFunction(StandardNames(cap)[8], "private", NORMALIZE, [base], Primitive("string"), Raises(cap), declared);
  }

  lemma FitSymbols(cap: string, declared: set<string>)
    requires Holds(cap, declared)
    ensures AllFit(BaselineSymbols(cap), declared)
  {
    hide Fit, Holds, Options, RequestContext, Transport, Telemetry, ClientError, Client, Builder, Create, Normalize;
    FitOptions(cap, declared);
    FitRequestContext(cap, declared);
    FitTransport(cap, declared);
    FitTelemetry(cap, declared);
    FitClientError(cap, declared);
    FitClient(cap, declared);
    FitBuilder(cap, declared);
    FitCreate(cap, declared);
    FitNormalize(cap, declared);
  }

  // ----- The generated surface -----

  /** An interface dependency: where it comes from and which versions will do. */
  datatype Source = Source(coordinate: string, requirement: string)

  const DIALECT := "https://json-schema.org/draft/2020-12/schema"

  function SourceNode(s: Source): Node {
    Object(map["coordinate" := Text(s.coordinate), "versionRequirement" := Text(s.requirement),
               "schemaDialect" := Text(DIALECT)])
  }

  function SourceNodes(sources: seq<Source>): seq<Node> {
    seq(|sources|, i requires 0 <= i < |sources| => SourceNode(sources[i]))
  }

  function Package(coordinate: string, cap: string, description: string, sources: seq<Source>): Node {
    Object(map["coordinate" := Text(coordinate), "namespace" := Text(cap), "description" := Text(description),
               "interfaces" := List(SourceNodes(sources))])
  }

  function BaselineSurface(coordinate: string, cap: string, description: string, sources: seq<Source>): Node {
    Object(map["$schema" := Text("./client-api.schema.json"), "schemaVersion" := Num("1"),
               "package" := Package(coordinate, cap, description, sources), "symbols" := List(BaselineSymbols(cap))])
  }

  lemma FitSources(sources: seq<Source>, declared: set<string>)
    ensures AllFit(SourceNodes(sources), declared)
  {
    hide Fit, DIALECT;
    forall i | 0 <= i < |sources|
      ensures Fit(SourceNode(sources[i]), declared)
    {
      FitSource(sources[i], declared);
    }
  }

  lemma FitSource(s: Source, declared: set<string>)
    ensures Fit(SourceNode(s), declared)
  {
    hide DIALECT;
    var f: Fields := SourceNode(s).fields;
    FitText("coordinate", s.coordinate, declared);
    FitText("versionRequirement", s.requirement, declared);
    FitText("schemaDialect", DIALECT, declared);
    hide Fit, FitField;
    assert OwnFit(f, declared);
    hide OwnFit;
    FitObject(f, declared);
  }

  lemma FitPackage(coordinate: string, cap: string, description: string, sources: seq<Source>, declared: set<string>)
    ensures Fit(Package(coordinate, cap, description, sources), declared)
  {
    CleanKeys();
    hide Clean, SourceNodes;
    var f: Fields := Package(coordinate, cap, description, sources).fields;
    FitText("coordinate", coordinate, declared);
    FitText("namespace", cap, declared);
    FitText("description", description, declared);
    FitSources(sources, declared);
    FitParts("interfaces", SourceNodes(sources), declared);
    hide Fit, FitField, AllFit;
    assert OwnFit(f, declared);
    hide OwnFit;
    FitObject(f, declared);
  }

  lemma FitSurface(coordinate: string, cap: string, description: string, sources: seq<Source>, declared: set<string>)
    requires Holds(cap, declared)
    ensures Fit(BaselineSurface(coordinate, cap, description, sources), declared)
  {
    CleanKeys();
    hide Clean, Package, BaselineSymbols, Holds;
    var f: Fields := BaselineSurface(coordinate, cap, description, sources).fields;
    FitText("$schema", "./client-api.schema.json", declared);
    FitLeaf(Num("1"), declared);
    assert FitField("schemaVersion", Num("1"), declared);
    FitPackage(coordinate, cap, description, sources, declared);
    FitPart("package", Package(coordinate, cap, description, sources), declared);
    FitSymbols(cap, declared);
    FitParts("symbols", BaselineSymbols(cap), declared);
    hide Fit, FitField, AllFit, OwnFit, BaselineSurface;
    SurfaceOwn(coordinate, cap, description, sources, declared);
    FitObject(f, declared);
  }

  lemma SurfaceOwn(coordinate: string, cap: string, description: string, sources: seq<Source>, declared: set<string>)
    ensures OwnFit(BaselineSurface(coordinate, cap, description, sources).fields, declared)
  {
    hide Package, BaselineSymbols;
  }

  const KIND := ["type", "type", "interface", "interface", "type", "class", "class", "function", "function"]
  const VISIBILITY := ["public", "private", "public", "private", "public", "public", "private", "public", "private"]

  /** An underscore in front marks exactly the private symbols. */
  lemma UnderscoreIsPrivate(cap: string, i: nat)
    requires cap != "" && cap[0] != '_' && i < 9
    ensures StandardNames(cap)[i][0] == '_' <==> VISIBILITY[i] == "private"
  {}

  /** Kind, name and visibility of the standard symbol at each place. */
  lemma SymbolHeads(cap: string, i: nat)
    requires i < 9
    ensures |BaselineSymbols(cap)| == 9
      && Headed(BaselineSymbols(cap)[i], KIND[i], StandardNames(cap)[i], VISIBILITY[i])
  {
    hide StandardNames, Headed, ObjectType, EnumType, Interface, Class, Function, Primitive, NamedType, Optional,
      Parameter, FieldDecl, Method, Raises,
      TRANSPORT, NORMALIZE;
    assert Headed(Options(cap), KIND[0], StandardNames(cap)[0], VISIBILITY[0]);
    assert Headed(RequestContext(cap), KIND[1], StandardNames(cap)[1], VISIBILITY[1]);
    assert Headed(Transport(cap), KIND[2], StandardNames(cap)[2], VISIBILITY[2]);
    assert Headed(Telemetry(cap), KIND[3], StandardNames(cap)[3], VISIBILITY[3]);
    assert Headed(ClientError(cap), KIND[4], StandardNames(cap)[4], VISIBILITY[4]);
    assert Headed(Client(cap), KIND[5], StandardNames(cap)[5], VISIBILITY[5]);
    assert Headed(Builder(cap), KIND[6], StandardNames(cap)[6], VISIBILITY[6]);
    assert Headed(Create(cap), KIND[7], StandardNames(cap)[7], VISIBILITY[7]);
    assert Headed(Normalize(cap), KIND[8], StandardNames(cap)[8], VISIBILITY[8]);
    hide Options, RequestContext, Transport, Telemetry, ClientError, Client, Builder, Create, Normalize;
  }

  lemma TransportMethod(cap: string)
    ensures HasMethodIn(Transport(cap), "public")
  {
    hide StandardNames, Raises, Primitive, Optional, Parameter, TRANSPORT;
    assert Methods(Transport(cap))[0].Object? && Is(Methods(Transport(cap))[0].fields, "visibility", "public");
  }

  lemma TelemetryMethod(cap: string)
    ensures HasMethodIn(Telemetry(cap), "private")
  {
    hide StandardNames, Primitive, Parameter;
    assert Methods(Telemetry(cap))[0].Object? && Is(Methods(Telemetry(cap))[0].fields, "visibility", "private");
  }

  predicate ShownAs(s: seq<Node>, names: seq<string>, show: Option<Node> -> string) {
    |s| == |names| && forall i :: 0 <= i < |s| ==> s[i].Object? && Shown(s[i].fields, show) == names[i]
  }

  lemma HeadShown(n: Node, kind: string, name: string, visibility: string, show: Option<Node> -> string)
    requires Headed(n, kind, name, visibility)
    ensures n.Object? && ScalarName(n.fields) && Shown(n.fields, show) == name
  {}

  lemma SymbolShown(cap: string, i: nat, show: Option<Node> -> string)
    requires i < 9
    ensures |BaselineSymbols(cap)| == 9
    ensures var n := BaselineSymbols(cap)[i];
            n.Object? && ScalarName(n.fields) && Shown(n.fields, show) == StandardNames(cap)[i]
  {
    hide BaselineSymbols, StandardNames, Headed, ScalarName, Shown;
    SymbolHeads(cap, i);
    HeadShown(BaselineSymbols(cap)[i], KIND[i], StandardNames(cap)[i], VISIBILITY[i], show);
  }

  lemma StandardShown(cap: string, show: Option<Node> -> string)
    ensures ShownAs(BaselineSymbols(cap), StandardNames(cap), show) && ScalarNames(BaselineSymbols(cap))
  {
    hide BaselineSymbols, StandardNames, ScalarName, Shown;
    SymbolShown(cap, 0, show);
    forall i | 0 <= i < 9
      ensures BaselineSymbols(cap)[i].Object? && ScalarName(BaselineSymbols(cap)[i].fields)
      ensures Shown(BaselineSymbols(cap)[i].fields, show) == StandardNames(cap)[i]
    {
      SymbolShown(cap, i, show);
    }
  }

  lemma StandardDeclared(cap: string, show: Option<Node> -> string)
    ensures Holds(cap, Declared(BaselineSymbols(cap), show))
    ensures DistinctNames(BaselineSymbols(cap), show) && ScalarNames(BaselineSymbols(cap))
  {
    NamesDiffer(cap);
    NamesNotEmpty(cap);
    StandardShown(cap, show);
    hide BaselineSymbols, StandardNames, ScalarNames;
    NamesAreDeclared(BaselineSymbols(cap), StandardNames(cap), show);
  }

  lemma NamesAreDeclared(s: seq<Node>, names: seq<string>, show: Option<Node> -> string)
    requires ShownAs(s, names, show) && forall i, j :: 0 <= i < j < |names| ==> names[i] != names[j]
    ensures forall i :: 0 <= i < |names| ==> names[i] in Declared(s, show)
    ensures DistinctNames(s, show)
  {
    hide Shown;
  }

  lemma NamesNotEmpty(cap: string)
    ensures forall i :: 0 <= i < 9 ==> StandardNames(cap)[i] != ""
  {}

  lemma HeadDeclares(cap: string, i: nat)
    requires i < 9
    ensures |BaselineSymbols(cap)| == 9 && HasKind(BaselineSymbols(cap), KIND[i], VISIBILITY[i])
  {
    hide BaselineSymbols, StandardNames;
    SymbolHeads(cap, i);
    assert Declares(BaselineSymbols(cap)[i], KIND[i], VISIBILITY[i]);
  }

  lemma StandardKinds(cap: string)
    ensures forall kind, visibility :: kind in KINDS && visibility in VISIBILITIES ==>
      HasKind(BaselineSymbols(cap), kind, visibility)
  {
    hide BaselineSymbols, HasKind;
    HeadDeclares(cap, 0);
    HeadDeclares(cap, 1);
    HeadDeclares(cap, 2);
    HeadDeclares(cap, 3);
    HeadDeclares(cap, 5);
    HeadDeclares(cap, 6);
    HeadDeclares(cap, 7);
    HeadDeclares(cap, 8);
  }

  lemma StandardMethods(cap: string)
    ensures forall visibility :: visibility in VISIBILITIES ==> HasMethod(BaselineSymbols(cap), visibility)
  {
    hide HasMethodIn, Options, RequestContext, Transport, Telemetry, ClientError, Client, Builder, Create, Normalize;
    TransportMethod(cap);
    TelemetryMethod(cap);
    assert BaselineSymbols(cap)[2] == Transport(cap) && BaselineSymbols(cap)[3] == Telemetry(cap);
  }

  lemma SymbolsOfBaseline(coordinate: string, cap: string, description: string, sources: seq<Source>)
    ensures Symbols(BaselineSurface(coordinate, cap, description, sources)) == BaselineSymbols(cap)
  {
    hide BaselineSymbols, Package;
  }

  /** For every prefix the generated surface, enriched, has no finding. */
  lemma BaselineHasNoFindings(coordinate: string, cap: string, description: string, sources: seq<Source>,
                              show: Option<Node> -> string)
    ensures var e := Enrich(BaselineSurface(coordinate, cap, description, sources), []);
            Sound(e, show) && DistinctIds(e)
  {
    var surface := BaselineSurface(coordinate, cap, description, sources);
    SymbolsOfBaseline(coordinate, cap, description, sources);
    hide BaselineSymbols, Package, Enrich, Symbols, HasKind, HasMethod, Resolves, Consistent, BaselineSurface,
      DistinctNames, Declared, Tidy,
      Everywhere, Holds, ScalarNames, DistinctIds;
    StandardDeclared(cap, show);
    StandardKinds(cap);
    StandardMethods(cap);
    FitSurface(coordinate, cap, description, sources, Declared(BaselineSymbols(cap), show));
    assert Sound(surface, show);
    EnrichKeepsFindings(surface, show);
    TidyIdsDiffer(surface);
  }

  // ----- Merging into an existing surface -----

  function NameOf(n: Node): Option<Node> {
    if n.Object? && "name" in n.fields then Some(n.fields["name"]) else None
  }

  function Existing(symbols: seq<Node>): set<Option<Node>> {
    set i | 0 <= i < |symbols| && symbols[i].Object? :: NameOf(symbols[i])
  }

  /** The symbols with every standard one whose name is not there yet. */
  function Appended(symbols: seq<Node>, standard: seq<Node>): seq<Node>
    decreases |standard|
  {
    if standard == [] then symbols
    else Appended(if NameOf(standard[0]) in Existing(symbols) then symbols else symbols + [standard[0]], standard[1..])
  }

  lemma ExistingSnoc(symbols: seq<Node>, n: Node)
    requires n.Object?
    ensures Existing(symbols + [n]) == Existing(symbols) + {NameOf(n)}
  {
    hide NameOf;
    var all := symbols + [n];
    forall x
      ensures x in Existing(all) <==> x in Existing(symbols) || x == NameOf(n)
    {
      if x in Existing(symbols) {
        var i :| 0 <= i < |symbols| && symbols[i].Object? && NameOf(symbols[i]) == x;
        assert all[i] == symbols[i];
      }
      if x == NameOf(n) {
        assert all[|symbols|] == n;
      }
    }
  }

  /** Only missing standard symbols are appended, and afterwards every standard name is there. */
  lemma {:induction false} AppendedOnlyMissing(symbols: seq<Node>, standard: seq<Node>)
    requires forall i :: 0 <= i < |standard| ==> standard[i].Object?
    ensures var all := Appended(symbols, standard);
            && symbols <= all && Existing(symbols) <= Existing(all)
            && (forall i :: 0 <= i < |standard| ==> NameOf(standard[i]) in Existing(all))
            && forall j :: |symbols| <= j < |all| ==> all[j] in standard && NameOf(all[j]) !in Existing(symbols)
    decreases |standard|
  {
    hide Existing, NameOf;
    if standard != [] {
      var next := if NameOf(standard[0]) in Existing(symbols) then symbols else symbols + [standard[0]];
      ExistingSnoc(symbols, standard[0]);
      AppendedOnlyMissing(next, standard[1..]);
      var all := Appended(symbols, standard);
      assert all == Appended(next, standard[1..]);
      forall i | 0 <= i < |standard|
        ensures NameOf(standard[i]) in Existing(all)
      {
        if i > 0 {
          assert standard[i] == standard[1..][i - 1];
        }
      }
    }
  }

  lemma {:induction false} NothingMissing(symbols: seq<Node>, standard: seq<Node>)
    requires forall i :: 0 <= i < |standard| ==> NameOf(standard[i]) in Existing(symbols)
    ensures Appended(symbols, standard) == symbols
    decreases |standard|
  {
    hide Existing, NameOf;
    if standard != [] {
      NothingMissing(symbols, standard[1..]);
    }
  }

  /** Merging again appends nothing. */
  lemma MergeIsIdempotent(symbols: seq<Node>, cap: string)
    ensures var once := Appended(symbols, BaselineSymbols(cap));
            Appended(once, BaselineSymbols(cap)) == once
  {
    BaselineObjects(cap);
    hide BaselineSymbols, Existing, NameOf;
    AppendedOnlyMissing(symbols, BaselineSymbols(cap));
    NothingMissing(Appended(symbols, BaselineSymbols(cap)), BaselineSymbols(cap));
  }

  lemma BaselineObjects(cap: string)
    ensures |BaselineSymbols(cap)| == 9 && forall i :: 0 <= i < 9 ==> BaselineSymbols(cap)[i].Object?
  {
    forall i | 0 <= i < 9
      ensures BaselineSymbols(cap)[i].Object?
    {
      SymbolHeads(cap, i);
    }
  }

  /** Merging keeps distinct names distinct. */
  lemma {:induction false} MergeKeepsDistinct(symbols: seq<Node>, standard: seq<Node>)
    requires DistinctNameNodes(symbols) && forall i :: 0 <= i < |standard| ==> standard[i].Object?
    ensures DistinctNameNodes(Appended(symbols, standard))
    decreases |standard|
  {
    hide NameOf;
    if standard != [] {
      MergeKeepsDistinct(if NameOf(standard[0]) in Existing(symbols) then symbols else symbols + [standard[0]],
                         standard[1..]);
    }
  }

  predicate DistinctNameNodes(symbols: seq<Node>) {
    forall i, j :: 0 <= i < j < |symbols| && symbols[i].Object? && symbols[j].Object? ==>
      NameOf(symbols[i]) != NameOf(symbols[j])
  }

  method MergeStandardSymbols(symbols: seq<Node>, cap: string) returns (merged: seq<Node>, changed: bool)
    ensures merged == Appended(symbols, BaselineSymbols(cap)) && (changed <==> merged != symbols)
  {
    BaselineObjects(cap);
    hide BaselineSymbols, NameOf, Existing;
    var standard := BaselineSymbols(cap);
    var existing := Existing(symbols);
    merged, changed := symbols, false;
    assert standard[0..] == standard;
    for i := 0 to |standard|
      invariant existing == Existing(merged) && symbols <= merged && (changed <==> |merged| > |symbols|)
      invariant Appended(symbols, standard) == Appended(merged, standard[i..])
    {
      assert standard[i..][1..] == standard[i + 1..];
      if NameOf(standard[i]) !in existing {
        ExistingSnoc(merged, standard[i]);
        merged := merged + [standard[i]];
        existing := existing + {NameOf(standard[i])};
        changed := true;
      }
    }
  }

  // ----- A second run after an edit -----

  lemma {:induction false} SkipPresent(symbols: seq<Node>, standard: seq<Node>, n: nat)
    requires n <= |standard| && forall i :: 0 <= i < n ==> NameOf(standard[i]) in Existing(symbols)
    ensures Appended(symbols, standard) == Appended(symbols, standard[n..])
    decreases n
  {
    hide Existing, NameOf;
    if n == 0 {
      assert standard[0..] == standard;
    } else {
      SkipPresent(symbols, standard[1..], n - 1);
      assert standard[1..][n - 1..] == standard[n..];
    }
  }

  /** A class whose first constructor is called `new` gets an identifier there from its place alone. */
  lemma ConstructorLineage(n: Node, path: seq<string>)
    requires n.Object? && "constructors" in n.fields && n.fields["constructors"].List?
      && n.fields["constructors"].items != []
    requires var c := n.fields["constructors"].items[0];
             c.Object? && Callable(c.fields) && Is(c.fields, "name", "new") && "documentationId" !in c.fields
    ensures NewAt(n, path, [Key("constructors"), Index(0)]) == Some(path + ["constructors"] + [Digits(0)] + ["new"])
  {
    var list := n.fields["constructors"];
    assert [Key("constructors"), Index(0)] == [Key("constructors")] + ([Index(0)] + []);
    assert "constructors" !in SKIPPED;
    NewBelowField(n, path, "constructors", [Index(0)] + []);
    NewBelowItem(list, path + ["constructors"], 0, []);
  }

  lemma ClientConstructor(cap: string, path: seq<string>)
    ensures NewAt(Client(cap), path, [Key("constructors"), Index(0)]) ==
      Some(path + ["constructors"] + [Digits(0)] + ["new"])
  {
    hide NewAt, Digits, StandardNames, Raises, Primitive, NamedType, Parameter, FieldDecl;
    ConstructorLineage(Client(cap), path);
  }

  lemma BuilderConstructor(cap: string, path: seq<string>)
    ensures NewAt(Builder(cap), path, [Key("constructors"), Index(0)]) ==
      Some(path + ["constructors"] + [Digits(0)] + ["new"])
  {
    hide NewAt, Digits, StandardNames, Primitive, NamedType, Parameter;
    ConstructorLineage(Builder(cap), path);
  }

  /** What is left of the enriched standard symbols when the client class and the two functions are deleted. */
  function WithoutClient(symbols: seq<Node>): seq<Node>
    requires |symbols| == 9
  {
    symbols[..5] + [symbols[6]]
  }

  lemma NamesAfter(cap: string, i: nat)
    requires i < 9
    ensures |BaselineSymbols(cap)| == 9 && BaselineSymbols(cap)[i].Object?
    ensures NameOf(BaselineSymbols(cap)[i]) == Some(Text(StandardNames(cap)[i]))
    ensures var n := Enrich(BaselineSymbols(cap)[i], ["symbols", Digits(i)]);
            n.Object? && NameOf(n) == Some(Text(StandardNames(cap)[i]))
  {
    SymbolHeads(cap, i);
    hide BaselineSymbols, StandardNames, Enrich, Digits;
    var n, path := BaselineSymbols(cap)[i], ["symbols", Digits(i)];
    ObjectKept(n, path);
    NameKept(n, path);
  }

  /** Merging puts the client class back behind the builder, which has moved up by one. */
  lemma ClientComesBack(cap: string, enriched: seq<Node>)
    requires |enriched| == 9 == |BaselineSymbols(cap)|
    requires forall i :: 0 <= i < 9 ==> enriched[i] == Enrich(BaselineSymbols(cap)[i], ["symbols", Digits(i)])
    ensures WithoutClient(enriched) + [Client(cap)] <= Appended(WithoutClient(enriched), BaselineSymbols(cap))
  {
    SixthAndSeventh(cap);
    NamesDiffer(cap);
    hide BaselineSymbols, StandardNames, Enrich, Digits, Existing, NameOf, Client, WithoutClient, Appended;
    var kept, standard, names := WithoutClient(enriched), BaselineSymbols(cap), StandardNames(cap);
    forall i | 0 <= i < 9
      ensures standard[i].Object? && enriched[i].Object?
      ensures NameOf(standard[i]) == Some(Text(names[i])) && NameOf(enriched[i]) == Some(Text(names[i]))
    {
      NamesAfter(cap, i);
    }
    KeptNames(kept, names, enriched);
    SkipPresent(kept, standard, 5);
    AppendNext(kept, standard, 5);
    AppendedOnlyMissing(kept + [Client(cap)], standard[6..]);
  }

  lemma AppendNext(symbols: seq<Node>, standard: seq<Node>, n: nat)
    requires n < |standard| && NameOf(standard[n]) !in Existing(symbols)
    ensures Appended(symbols, standard[n..]) == Appended(symbols + [standard[n]], standard[n + 1..])
  {
    hide Existing, NameOf;
    assert standard[n..][0] == standard[n] && standard[n..][1..] == standard[n + 1..];
  }

  lemma KeptNames(kept: seq<Node>, names: seq<string>, enriched: seq<Node>)
    requires |names| == 9 == |enriched| && kept == WithoutClient(enriched)
      && forall i, j :: 0 <= i < j < 9 ==> names[i] != names[j]
    requires forall i :: 0 <= i < 9 ==> enriched[i].Object? && NameOf(enriched[i]) == Some(Text(names[i]))
    ensures forall i :: 0 <= i < 5 ==> Some(Text(names[i])) in Existing(kept)
    ensures Some(Text(names[5])) !in Existing(kept)
  {
    hide NameOf;
    forall i | 0 <= i < 5
      ensures Some(Text(names[i])) in Existing(kept)
    {
      assert kept[i] == enriched[i];
    }
    forall i | 0 <= i < 6
      ensures NameOf(kept[i]) != Some(Text(names[5]))
    {
      assert kept[i] == enriched[if i < 5 then i else 6];
    }
  }

  /**
   Distinct identifiers do not survive an edit: delete the client class and the two functions from the
   enriched generated surface, and the next run, which merges them back and enriches again, gives the new
   class's constructor the identifier that the builder's constructor already carries.
   */
  lemma DeletionCollides(coordinate: string, cap: string, description: string, sources: seq<Source>)
    ensures var enriched := Enrich(BaselineSurface(coordinate, cap, description, sources), []);
            && enriched.Object? && |Symbols(enriched)| == 9
            && var merged := Appended(WithoutClient(Symbols(enriched)), BaselineSymbols(cap));
               !DistinctIds(Enrich(Object(enriched.fields["symbols" := List(merged)]), []))
  {
    var surface := BaselineSurface(coordinate, cap, description, sources);
    SymbolsOfBaseline(coordinate, cap, description, sources);
    ObjectKept(surface, []);
    SymbolsAfter(surface);
    SixthAndSeventh(cap);
    assert surface.Object?;
    hide Enrich, BaselineSurface, BaselineSymbols, DistinctIds, Client, Builder, Digits, Appended, Symbols,
      WithoutClient;
    EditCollides(cap, Enrich(surface, []).fields, Symbols(Enrich(surface, [])));
  }

  lemma EditCollides(cap: string, f: Fields, symbols: seq<Node>)
    requires |symbols| == 9 == |BaselineSymbols(cap)|
    requires forall i :: 0 <= i < 9 ==> symbols[i] == Enrich(BaselineSymbols(cap)[i], ["symbols", Digits(i)])
    ensures !DistinctIds(Enrich(Object(f["symbols" := List(Appended(WithoutClient(symbols), BaselineSymbols(cap)))]),
                                []))
  {
    SixthAndSeventh(cap);
    hide Enrich, BaselineSymbols, NewAt, DistinctIds, Client, Builder, Digits, Appended, Symbols;
    var merged := Appended(WithoutClient(symbols), BaselineSymbols(cap));
    ClientComesBack(cap, symbols);
    var start := WithoutClient(symbols) + [Client(cap)];
    assert start[5] == symbols[6] && start[6] == Client(cap);
    EditedSymbols(f, merged);
    ClientConstructor(cap, ["symbols", Digits(6)]);
    BuilderConstructor(cap, ["symbols", Digits(6)]);
    hide WithoutClient;
    assert merged[5] == start[5] && merged[6] == start[6];
    MovedSymbolCollides(Object(f["symbols" := List(merged)]), 5, 6, Builder(cap), [Key("constructors"), Index(0)]);
  }

  lemma SixthAndSeventh(cap: string)
    ensures |BaselineSymbols(cap)| == 9 && BaselineSymbols(cap)[5] == Client(cap)
      && BaselineSymbols(cap)[6] == Builder(cap)
  {
    hide Options, RequestContext, Transport, Telemetry, ClientError, Client, Builder, Create, Normalize;
  }

  lemma EditedSymbols(f: Fields, symbols: seq<Node>)
    ensures Symbols(Object(f["symbols" := List(symbols)])) == symbols
  {}

  // ----- A second run without an edit -----

  /** The part of a run that reads the surface back: merge the standard symbols, then enrich. */
  function Refreshed(surface: Node, cap: string): Node
    requires surface.Object?
  {
    Enrich(WithStandard(surface, cap), [])
  }

  function WithStandard(surface: Node, cap: string): Node
    requires surface.Object?
  {
    Object(surface.fields["symbols" := List(Appended(Symbols(surface), BaselineSymbols(cap)))])
  }

  /** A textual name that is there stays there when the symbols are enriched. */
  lemma NameStays(surface: Node, name: string)
    requires Some(Text(name)) in Existing(Symbols(surface))
    ensures Some(Text(name)) in Existing(Symbols(Enrich(surface, [])))
  {
    hide Enrich, Symbols;
    SymbolsAfter(surface);
    var a, b := Symbols(surface), Symbols(Enrich(surface, []));
    var i :| 0 <= i < |a| && a[i].Object? && NameOf(a[i]) == Some(Text(name));
    ObjectKept(a[i], ["symbols", Digits(i)]);
    NameKept(a[i], ["symbols", Digits(i)]);
    assert b[i].Object? && NameOf(b[i]) == Some(Text(name));
  }

  lemma AlreadyMerged(surface: Node, cap: string)
    requires surface.Object? && "symbols" in surface.fields && surface.fields["symbols"].List?
    requires Appended(Symbols(surface), BaselineSymbols(cap)) == Symbols(surface)
    ensures WithStandard(surface, cap) == surface
  {
    hide Appended, BaselineSymbols;
    assert surface.fields["symbols" := surface.fields["symbols"]] == surface.fields;
  }

  /** A refreshed surface misses no standard symbol. */
  lemma NothingMissingAfter(surface: Node, cap: string)
    requires surface.Object?
    ensures var s := Symbols(Refreshed(surface, cap)); Appended(s, BaselineSymbols(cap)) == s
  {
    var merged, standard := WithStandard(surface, cap), BaselineSymbols(cap);
    EditedSymbols(surface.fields, Appended(Symbols(surface), standard));
    BaselineObjects(cap);
    hide Enrich, Symbols, Appended, BaselineSymbols, Existing, NameOf, WithStandard;
    AppendedOnlyMissing(Symbols(surface), standard);
    forall i | 0 <= i < |standard|
      ensures NameOf(standard[i]) in Existing(Symbols(Enrich(merged, [])))
    {
      NamesAfter(cap, i);
      NameStays(merged, StandardNames(cap)[i]);
    }
    NothingMissing(Symbols(Enrich(merged, [])), standard);
  }

  /** Over every surface and for every prefix, merging and enriching again changes nothing. */
  lemma SecondRunChangesNothing(surface: Node, cap: string)
    requires surface.Object?
    ensures Refreshed(surface, cap).Object? && Refreshed(Refreshed(surface, cap), cap) == Refreshed(surface, cap)
  {
    hide BaselineSymbols, Appended, Symbols, Enrich;
    var merged, once := WithStandard(surface, cap), Refreshed(surface, cap);
    ObjectKept(merged, []);
    FieldOf(merged, [], "symbols");
    EnrichKeepsLeaves(merged.fields["symbols"], [] + ["symbols"]);
    NothingMissingAfter(surface, cap);
    AlreadyMerged(once, cap);
    EnrichIsIdempotent(merged, []);
  }
}
