/**
 `semantic_errors` as it runs: lists of names, loops over symbols and methods, and two walks over the whole tree.
 What it finds is what `SurfaceChecks` says of the surface.
 */
module SurfaceFindings {
  import opened Bytes
  import opened Ordering
  import opened SurfaceMetadata
  import opened SurfaceChecks

  datatype Finding = DuplicateNames | UnresolvedType | MissingDeclaration | MissingMethod | Metadata | DuplicateIds

  // ----- Names -----

  /** The names of the symbols that are objects, and whether one comes twice. */
  method NamesOf(symbols: seq<Node>, show: Option<Node> -> string) returns (names: set<string>, repeated: bool)
    ensures names == Declared(symbols, show)
    ensures repeated <==> !DistinctNames(symbols, show)
  {
    hide HasText;
    names, repeated := {}, false;
    for i := 0 to |symbols|
      invariant names == set k | 0 <= k < i && symbols[k].Object? :: Shown(symbols[k].fields, show)
      invariant repeated <==> exists j, k :: 0 <= j < k < i && SameName(symbols, j, k, show)
    {
      if symbols[i].Object? {
        var name := Shown(symbols[i].fields, show);
        if name in names {
          var k :| 0 <= k < i && symbols[k].Object? && Shown(symbols[k].fields, show) == name;
          assert SameName(symbols, k, i, show);
          repeated := true;
        }
        names := names + {name};
      }
    }
    Repetition(symbols, show);
  }

  lemma Repetition(symbols: seq<Node>, show: Option<Node> -> string)
    ensures DistinctNames(symbols, show) <==>
            !exists j, k :: 0 <= j < k < |symbols| && SameName(symbols, j, k, show)
  {
    hide Shown;
    if !exists j, k :: 0 <= j < k < |symbols| && SameName(symbols, j, k, show) {
      forall j, k | 0 <= j < k < |symbols| && symbols[j].Object? && symbols[k].Object?
        ensures Shown(symbols[j].fields, show) != Shown(symbols[k].fields, show)
      {
        assert !SameName(symbols, j, k, show);
      }
    }
  }

  predicate SameName(symbols: seq<Node>, j: nat, k: nat, show: Option<Node> -> string)
    requires j < |symbols| && k < |symbols|
  {
    symbols[j].Object? && symbols[k].Object? && Shown(symbols[j].fields, show) == Shown(symbols[k].fields, show)
  }

  // ----- References, through the whole tree -----

  method ReferencesResolve(n: Node, declared: set<string>) returns (ok: bool)
    ensures ok <==> Everywhere(n, Resolves(declared))
    decreases n
  {
    match n {
      case Object(f) =>
        ok := true;
        if "kind" in f && f["kind"] == Text("named") {
          ok := "name" in f && f["name"].Text? && f["name"].text in declared;
        }
        var rest := f.Keys;
        while rest != {}
          invariant rest <= f.Keys
          invariant ok <==> Resolves(declared)(f)
                            && forall k :: k in f && k !in rest ==> Everywhere(f[k], Resolves(declared))
          decreases rest
        {
          var k :| k in rest;
          var below := ReferencesResolve(f[k], declared);
          ok := ok && below;
          rest := rest - {k};
        }
      case List(items) =>
        ok := true;
        for i := 0 to |items|
          invariant ok <==> forall k :: 0 <= k < i ==> Everywhere(items[k], Resolves(declared))
        {
          var below := ReferencesResolve(items[i], declared);
          ok := ok && below;
        }
      case _ =>
        ok := true;
    }
  }

  // ----- Required declarations -----

  method FindKind(symbols: seq<Node>, kind: string, visibility: string) returns (found: bool)
    ensures found <==> HasKind(symbols, kind, visibility)
  {
    for i := 0 to |symbols|
      invariant forall k :: 0 <= k < i ==> !Declares(symbols[k], kind, visibility)
    {
      var s := symbols[i];
      if s.Object? && "kind" in s.fields && s.fields["kind"] == Text(kind)
         && "visibility" in s.fields && s.fields["visibility"] == Text(visibility) {
        return true;
      }
    }
    return false;
  }

  method DeclaresAll(symbols: seq<Node>) returns (ok: bool)
    ensures ok <==> forall kind, visibility :: kind in KINDS && visibility in VISIBILITIES ==>
                      HasKind(symbols, kind, visibility)
  {
    hide HasKind;
    var kinds, visibilities := ["class", "interface", "type", "function"], ["public", "private"];
    assert kinds[0] in KINDS && kinds[1] in KINDS && kinds[2] in KINDS && kinds[3] in KINDS;
    assert forall kind :: kind in KINDS ==>
      kind == kinds[0] || kind == kinds[1] || kind == kinds[2] || kind == kinds[3];
    ok := true;
    for i := 0 to 4
      invariant ok <==> forall k :: 0 <= k < i ==>
        HasKind(symbols, kinds[k], "public") && HasKind(symbols, kinds[k], "private")
    {
      var public := FindKind(symbols, kinds[i], visibilities[0]);
      var private := FindKind(symbols, kinds[i], visibilities[1]);
      ok := ok && public && private;
    }
  }

  method FindMethod(symbols: seq<Node>, visibility: string) returns (found: bool)
    ensures found <==> HasMethod(symbols, visibility)
  {
    hide HasMethodIn;
    for i := 0 to |symbols|
      invariant forall k :: 0 <= k < i ==> !HasMethodIn(symbols[k], visibility)
    {
      found := FindMethodIn(symbols[i], visibility);
      if found {
        return;
      }
    }
    return false;
  }

  method FindMethodIn(symbol: Node, visibility: string) returns (found: bool)
    ensures found <==> HasMethodIn(symbol, visibility)
  {
    if !symbol.Object? || "methods" !in symbol.fields || !symbol.fields["methods"].List? {
      return false;
    }
    var methods := symbol.fields["methods"].items;
    for j := 0 to |methods|
      invariant forall k :: 0 <= k < j ==> !(methods[k].Object? && Is(methods[k].fields, "visibility", visibility))
    {
      var m := methods[j];
      if m.Object? && "visibility" in m.fields && m.fields["visibility"] == Text(visibility) {
        assert Methods(symbol)[j] == m;
        return true;
      }
    }
    return false;
  }

  // ----- Metadata and identifiers, through the whole tree -----

  /** One object: its behaviour against its flag, and a reason for a deprecation. */
  method InspectObject(f: Fields) returns (ok: bool)
    ensures ok <==> Consistent(f)
  {
    ok := true;
    if "parameters" in f && "returns" in f && "async" in f && f["async"].Bool? {
      var flag := f["async"].flag;
      if "behavior" in f && f["behavior"] == Text("sync") && flag {
        ok := false;
      }
      if "behavior" in f && (f["behavior"] == Text("async") || f["behavior"] == Text("streaming")) && !flag {
        ok := false;
      }
    }
    if "stability" in f && f["stability"] == Text("deprecated") && ("deprecation" !in f || f["deprecation"] == Null) {
      ok := false;
    }
  }

  method InspectAll(n: Node) returns (ok: bool)
    ensures ok <==> Everywhere(n, Consistently())
    decreases n
  {
    hide Consistent;
    match n {
      case Object(f) =>
        ok := InspectObject(f);
        var rest := f.Keys;
        while rest != {}
          invariant rest <= f.Keys
          invariant ok <==> Consistent(f) && forall k :: k in f && k !in rest ==> Everywhere(f[k], Consistently())
          decreases rest
        {
          var k :| k in rest;
          var below := InspectAll(f[k]);
          ok := ok && below;
          rest := rest - {k};
        }
      case List(items) =>
        ok := true;
        for i := 0 to |items|
          invariant ok <==> forall k :: 0 <= k < i ==> Everywhere(items[k], Consistently())
        {
          var below := InspectAll(items[i]);
          ok := ok && below;
        }
      case _ =>
        ok := true;
    }
  }

  type Place = seq<Step>

  /** The places so far: the root, and what is below some of the keys or the first items. */
  predicate Visited(p: Place, keys: set<string>, upto: nat) {
    p == [] || (p[0].Key? && p[0].key in keys) || (p[0].Index? && p[0].index < upto)
  }

  /** The identifiers are those at the listed places, each listed once: all of the visited ones that have one. */
  ghost predicate Lists(n: Node, ids: seq<string>, places: seq<Place>, keys: set<string>, upto: nat) {
    && |ids| == |places| && Distinct(places)
    && (forall i :: 0 <= i < |ids| ==> IdAt(n, places[i]) == Some(ids[i]))
    && forall p :: p in places <==> IdAt(n, p).Some? && Visited(p, keys, upto)
  }

  ghost predicate ListsAll(n: Node, ids: seq<string>, places: seq<Place>) {
    && |ids| == |places| && Distinct(places)
    && (forall i :: 0 <= i < |ids| ==> IdAt(n, places[i]) == Some(ids[i]))
    && forall p :: p in places <==> IdAt(n, p).Some?
  }

  function Below(step: Step, places: seq<Place>): (r: seq<Place>)
    ensures |r| == |places| && forall i :: 0 <= i < |r| ==> r[i] == [step] + places[i]
  {
    seq(|places|, i requires 0 <= i < |places| => [step] + places[i])
  }

  /** The identifiers of one child come behind those so far. */
  lemma OneMoreChild(n: Node, ids: seq<string>, places: seq<Place>, keys: set<string>, upto: nat, step: Step,
                     child: Node, ids': seq<string>, places': seq<Place>, keys': set<string>, upto': nat)
    requires Lists(n, ids, places, keys, upto) && ListsAll(child, ids', places')
    requires forall rest: Place :: IdAt(n, [step] + rest) == IdAt(child, rest)
    requires !Visited([step], keys, upto)
    requires forall p :: Visited(p, keys', upto') <==> Visited(p, keys, upto) || (p != [] && p[0] == step)
    ensures Lists(n, ids + ids', places + Below(step, places'), keys', upto')
  {
    hide IdAt;
    ChildIds(n, ids, places, step, child, ids', places');
    hide Below, Visited;
    var b := Below(step, places');
    forall i | 0 <= i < |b|
      ensures b[i] !in places
    {
      InBelow(step, places', b[i]);
      FirstStepDecides(b[i], step, keys, upto);
    }
    BelowDistinct(step, places');
    AppendDistinct(places, b);
    forall p
      ensures p in places + b <==> IdAt(n, p).Some? && Visited(p, keys', upto')
    {
      InBelow(step, places', p);
      if p != [] && p[0] == step {
        assert p == [step] + p[1..];
        FirstStepDecides(p, step, keys, upto);
      }
    }
  }

  lemma FirstStepDecides(p: Place, step: Step, keys: set<string>, upto: nat)
    requires p != [] && p[0] == step
    ensures Visited(p, keys, upto) <==> Visited([step], keys, upto)
  {}

  lemma ChildIds(n: Node, ids: seq<string>, places: seq<Place>, step: Step, child: Node, ids': seq<string>,
                 places': seq<Place>)
    requires |ids| == |places| && |ids'| == |places'|
    requires forall i :: 0 <= i < |ids| ==> IdAt(n, places[i]) == Some(ids[i])
    requires forall i :: 0 <= i < |ids'| ==> IdAt(child, places'[i]) == Some(ids'[i])
    requires forall rest: Place :: IdAt(n, [step] + rest) == IdAt(child, rest)
    ensures forall i :: 0 <= i < |ids + ids'| ==>
      IdAt(n, (places + Below(step, places'))[i]) == Some((ids + ids')[i])
  {
    hide IdAt;
    var all := places + Below(step, places');
    forall i | 0 <= i < |ids + ids'|
      ensures IdAt(n, all[i]) == Some((ids + ids')[i])
    {
      if i >= |ids| {
        assert all[i] == [step] + places'[i - |ids|];
      }
    }
  }

  lemma InBelow(step: Step, places: seq<Place>, p: Place)
    ensures p in Below(step, places) <==> p != [] && p[0] == step && p[1..] in places
  {
    var b := Below(step, places);
    if p in b {
      var i :| 0 <= i < |b| && b[i] == p;
      assert p[1..] == places[i];
    }
    if p != [] && p[0] == step && p[1..] in places {
      var i :| 0 <= i < |places| && places[i] == p[1..];
      assert b[i] == [step] + p[1..] == p;
    }
  }

  lemma BelowDistinct(step: Step, places: seq<Place>)
    requires Distinct(places)
    ensures Distinct(Below(step, places))
  {
    var b := Below(step, places);
    forall i, j | 0 <= i < j < |b|
      ensures b[i] != b[j]
    {
      assert b[i][1..] == places[i] && b[j][1..] == places[j];
    }
  }

  lemma AppendDistinct<A>(a: seq<A>, b: seq<A>)
    requires Distinct(a) && Distinct(b) && forall i :: 0 <= i < |b| ==> b[i] !in a
    ensures Distinct(a + b)
  {
    var s := a + b;
    forall i, j | 0 <= i < j < |s|
      ensures s[i] != s[j]
    {
      if i < |a| <= j {
        assert s[j] == b[j - |a|] && s[i] in a;
      }
    }
  }

  method CollectIds(n: Node) returns (ids: seq<string>, ghost places: seq<Place>)
    ensures ListsAll(n, ids, places)
    decreases n, 1
  {
    match n {
      case Object(f) =>
        ids, places := CollectFields(n);
      case List(items) =>
        ids, places := CollectItems(n);
      case _ =>
        ids, places := [], [];
        Leaf(n);
    }
  }

  lemma Leaf(n: Node)
    requires !n.Object? && !n.List?
    ensures ListsAll(n, [], [])
  {}

  method CollectFields(n: Node) returns (ids: seq<string>, ghost places: seq<Place>)
    requires n.Object?
    ensures ListsAll(n, ids, places)
    decreases n, 0
  {
    hide IdAt, Lists, ListsAll, Visited;
    var f := n.fields;
    ids, places := [], [];
    if "documentationId" in f && f["documentationId"].Text? {
      ids, places := [f["documentationId"].text], [[]];
    }
    RootListed(n, ids, places);
    var rest := f.Keys;
    assert f.Keys - rest == {};
    while rest != {}
      invariant rest <= f.Keys
      invariant Lists(n, ids, places, f.Keys - rest, 0)
      decreases rest
    {
      var k :| k in rest;
      ghost var visited := f.Keys - rest;
      var more, below := CollectIds(f[k]);
      FieldStep(n, k, visited);
      OneMoreChild(n, ids, places, visited, 0, Key(k), f[k], more, below, visited + {k}, 0);
      ids, places := ids + more, places + Below(Key(k), below);
      rest := rest - {k};
      assert f.Keys - rest == visited + {k};
    }
    AllFields(n, ids, places);
  }

  lemma RootListed(n: Node, ids: seq<string>, places: seq<Place>)
    requires n.Object?
    requires ids == if HasText(n.fields, "documentationId") then [n.fields["documentationId"].text] else []
    requires places == if HasText(n.fields, "documentationId") then [[]] else []
    ensures Lists(n, ids, places, {}, 0)
  {}

  lemma FieldStep(n: Node, k: string, visited: set<string>)
    requires n.Object? && k in n.fields && k !in visited
    ensures forall rest: Place :: IdAt(n, [Key(k)] + rest) == IdAt(n.fields[k], rest)
    ensures !Visited([Key(k)], visited, 0)
    ensures forall p :: Visited(p, visited + {k}, 0) <==> Visited(p, visited, 0) || (p != [] && p[0] == Key(k))
  {
    forall rest: Place
      ensures IdAt(n, [Key(k)] + rest) == IdAt(n.fields[k], rest)
    {
      IdBelowField(n, k, rest);
    }
  }

  lemma AllFields(n: Node, ids: seq<string>, places: seq<Place>)
    requires n.Object? && Lists(n, ids, places, n.fields.Keys - {}, 0)
    ensures ListsAll(n, ids, places)
  {}

  method CollectItems(n: Node) returns (ids: seq<string>, ghost places: seq<Place>)
    requires n.List?
    ensures ListsAll(n, ids, places)
    decreases n, 0
  {
    hide IdAt, Lists, ListsAll, Visited;
    ids, places := [], [];
    ListRoot(n);
    for i := 0 to |n.items|
      invariant Lists(n, ids, places, {}, i)
    {
      var more, below := CollectIds(n.items[i]);
      ItemStep(n, i);
      OneMoreChild(n, ids, places, {}, i, Index(i), n.items[i], more, below, {}, i + 1);
      ids, places := ids + more, places + Below(Index(i), below);
    }
    AllItems(n, ids, places);
  }

  lemma ListRoot(n: Node)
    requires n.List?
    ensures Lists(n, [], [], {}, 0)
  {}

  lemma ItemStep(n: Node, i: nat)
    requires n.List? && i < |n.items|
    ensures forall rest: Place :: IdAt(n, [Index(i)] + rest) == IdAt(n.items[i], rest)
    ensures !Visited([Index(i)], {}, i)
    ensures forall p :: Visited(p, {}, i + 1) <==> Visited(p, {}, i) || (p != [] && p[0] == Index(i))
  {
    forall rest: Place
      ensures IdAt(n, [Index(i)] + rest) == IdAt(n.items[i], rest)
    {
      IdBelowItem(n, i, rest);
    }
  }

  lemma AllItems(n: Node, ids: seq<string>, places: seq<Place>)
    requires n.List? && Lists(n, ids, places, {}, |n.items|)
    ensures ListsAll(n, ids, places)
  {}

  method Repeats(ids: seq<string>) returns (found: bool)
    ensures found <==> !Distinct(ids)
  {
    for i := 0 to |ids|
      invariant Distinct(ids[..i])
    {
      if ids[i] in ids[..i] {
        return true;
      }
    }
    assert ids[..|ids|] == ids;
    return false;
  }

  lemma ListedDistinct(n: Node, ids: seq<string>, places: seq<Place>)
    requires ListsAll(n, ids, places)
    ensures Distinct(ids) <==> DistinctIds(n)
  {
    hide IdAt;
    if Distinct(ids) {
      forall p, q | IdAt(n, p).Some? && IdAt(n, p) == IdAt(n, q)
        ensures p == q
      {
        var i :| 0 <= i < |places| && places[i] == p;
        var j :| 0 <= j < |places| && places[j] == q;
        assert ids[i] == ids[j];
      }
    }
  }

  // ----- All of it -----

  /** Nothing is found exactly on sound surfaces with distinct identifiers, and each finding means what it says. */
  method SemanticErrors(surface: Node, show: Option<Node> -> string) returns (found: set<Finding>)
    ensures found == {} <==> Sound(surface, show) && DistinctIds(surface)
    ensures DuplicateNames in found <==> !DistinctNames(Symbols(surface), show)
    ensures UnresolvedType in found <==> !Everywhere(surface, Resolves(Declared(Symbols(surface), show)))
    ensures MissingDeclaration in found <==>
      !forall kind, visibility :: kind in KINDS && visibility in VISIBILITIES ==>
        HasKind(Symbols(surface), kind, visibility)
    ensures MissingMethod in found <==>
      !forall visibility :: visibility in VISIBILITIES ==> HasMethod(Symbols(surface), visibility)
    ensures Metadata in found <==> !Everywhere(surface, Consistently())
    ensures DuplicateIds in found <==> !DistinctIds(surface)
  {
    hide DistinctNames, Everywhere, Resolves, Declared, HasKind, HasMethod, DistinctIds, KINDS, VISIBILITIES;
    var symbols := if surface.Object? && "symbols" in surface.fields && surface.fields["symbols"].List?
      then surface.fields["symbols"].items else [];
    var names, repeated := NamesOf(symbols, show);
    var resolved := ReferencesResolve(surface, names);
    var declared := DeclaresAll(symbols);
    var methods := MethodsOfBoth(symbols);
    var consistent := InspectAll(surface);
    var ids, places := CollectIds(surface);
    ListedDistinct(surface, ids, places);
    var twice := Repeats(ids);
    found := (if repeated then {DuplicateNames} else {}) + (if resolved then {} else {UnresolvedType})
      + (if declared then {} else {MissingDeclaration}) + (if methods then {} else {MissingMethod})
      + (if consistent then {} else {Metadata}) + (if twice then {DuplicateIds} else {});
    NothingFound(found, repeated, resolved, declared, methods, consistent, twice);
  }

  lemma NothingFound(found: set<Finding>, repeated: bool, resolved: bool, declared: bool, methods: bool,
                     consistent: bool, twice: bool)
    requires found == (if repeated then {DuplicateNames} else {}) + (if resolved then {} else {UnresolvedType})
      + (if declared then {} else {MissingDeclaration}) + (if methods then {} else {MissingMethod})
      + (if consistent then {} else {Metadata}) + (if twice then {DuplicateIds} else {})
    ensures found == {} <==> !repeated && resolved && declared && methods && consistent && !twice
    ensures (DuplicateNames in found <==> repeated) && (UnresolvedType in found <==> !resolved)
    ensures (MissingDeclaration in found <==> !declared) && (MissingMethod in found <==> !methods)
    ensures (Metadata in found <==> !consistent) && (DuplicateIds in found <==> twice)
  {}

  method MethodsOfBoth(symbols: seq<Node>) returns (ok: bool)
    ensures ok <==> forall visibility :: visibility in VISIBILITIES ==> HasMethod(symbols, visibility)
  {
    hide HasMethod;
    var public := FindMethod(symbols, "public");
    var private := FindMethod(symbols, "private");
    return public && private;
  }
}
