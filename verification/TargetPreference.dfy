/**
 Which directory a target prefers and which it gets: the order of preference, that an existing client is never
 abandoned without need, and what resolving a path means.
 */
module TargetPreference {
  import opened TargetTable
  import opened TargetAllocator

  // ----- The order of preference -----

  /** The manifest has a table with a text under `dir` for the name, which stands for the path `p`. */
  predicate Declared(root: Path, manifest: Targets, name: string, p: Path) {
    name in manifest && manifest[name].Table? && "dir" in manifest[name].entries
    && manifest[name].entries["dir"].Text?
    && var d := ParseDir(manifest[name].entries["dir"].text); p == if d.absolute then d.parts else root + d.parts
  }

  /** The name counts for the target: an alias of it, or its own if it is published. */
  predicate Counts(spec: Spec, name: string) {
    name in spec.zedAliases || (spec.publish && name == spec.zedTarget)
  }

  /** A present directory declared under a name that counts. */
  ghost predicate DeclaredPresent(root: Path, spec: Spec, manifest: Targets, world: World, p: Path) {
    world.present(p) && exists name :: Counts(spec, name) && Declared(root, manifest, name, p)
  }

  /** A package of all the TypeScript runtimes that has this one's source. */
  predicate SharedReady(root: Path, spec: Spec, world: World) {
    spec.runtime.Some? && world.isFile(root + ["clients", "typescript", "package.json"])
    && world.present(root + ["clients", "typescript", "src", "runtimes", spec.runtime.value])
  }

  /** The first present one of the directories declared under the names. */
  ghost predicate FirstOfDeclared(root: Path, manifest: Targets, world: World, names: seq<string>, i: int, p: Path) {
    0 <= i < |names| && Declared(root, manifest, names[i], p) && world.present(p)
    && NoneDeclaredBefore(root, manifest, world, names, i)
  }

  ghost predicate NoneDeclaredBefore(root: Path, manifest: Targets, world: World, names: seq<string>, n: int)
    requires n <= |names|
  {
    forall j, p :: 0 <= j < n && Declared(root, manifest, names[j], p) ==> !world.present(p)
  }

  lemma {:induction false} FirstDeclaredIs(root: Path, manifest: Targets, world: World, names: seq<string>)
    ensures var d := FirstDeclared(root, manifest, world, names);
            if d.Some? then exists i :: FirstOfDeclared(root, manifest, world, names, i, d.value)
            else NoneDeclaredBefore(root, manifest, world, names, |names|)
  {
    hide ParseDir;
    if names != [] {
      FirstDeclaredIs(root, manifest, world, names[1..]);
      var d := FirstDeclared(root, manifest, world, names);
      var here := DeclaredDir(root, manifest, names[0]);
      if here.Some? && world.present(here.value) {
        assert FirstOfDeclared(root, manifest, world, names, 0, d.value);
      } else if d.Some? {
        var i :| FirstOfDeclared(root, manifest, world, names[1..], i, d.value);
        forall j | 0 < j <= i + 1
          ensures names[1..][j - 1] == names[j]
        {}
        assert FirstOfDeclared(root, manifest, world, names, i + 1, d.value);
      } else {
        forall j | 0 < j < |names|
          ensures names[1..][j - 1] == names[j]
        {}
      }
    }
  }

  /** The first present one of the directories below the root. */
  predicate FirstPresent(root: Path, world: World, dirs: seq<Parts>, i: int) {
    0 <= i < |dirs| && world.present(root + dirs[i]) && NonePresentBefore(root, world, dirs, i)
  }

  predicate NonePresentBefore(root: Path, world: World, dirs: seq<Parts>, n: int)
    requires n <= |dirs|
  {
    forall j :: 0 <= j < n ==> !world.present(root + dirs[j])
  }

  lemma {:induction false} FirstExistingIs(root: Path, world: World, dirs: seq<Parts>)
    ensures var d := FirstExisting(root, world, dirs);
            if d.Some? then exists i :: FirstPresent(root, world, dirs, i) && d.value == root + dirs[i]
            else NonePresentBefore(root, world, dirs, |dirs|)
  {
    if dirs != [] {
      FirstExistingIs(root, world, dirs[1..]);
      var d := FirstExisting(root, world, dirs);
      if world.present(root + dirs[0]) {
        assert FirstPresent(root, world, dirs, 0);
      } else if d.Some? {
        var i :| FirstPresent(root, world, dirs[1..], i) && d.value == root + dirs[1..][i];
        forall j | 0 < j <= i + 1
          ensures dirs[1..][j - 1] == dirs[j]
        {}
        assert FirstPresent(root, world, dirs, i + 1);
      } else {
        forall j | 0 < j < |dirs|
          ensures dirs[1..][j - 1] == dirs[j]
        {}
      }
    }
  }

  lemma NamesThatCount(spec: Spec, name: string)
    ensures name in Names(spec) <==> Counts(spec, name)
    ensures spec.publish ==> Names(spec)[0] == spec.zedTarget
  {}

  /** A present declared directory goes before everything else, and the target's own name before its aliases. */
  lemma DeclaredFirst(root: Path, spec: Spec, manifest: Targets, world: World)
    ensures var c := ChooseDir(root, spec, manifest, world);
            && ((exists p :: DeclaredPresent(root, spec, manifest, world, p)) ==>
                  DeclaredPresent(root, spec, manifest, world, c))
            && (forall p :: spec.publish && Declared(root, manifest, spec.zedTarget, p) && world.present(p) ==> c == p)
  {
    hide Declared, FirstDeclared, FirstExisting;
    var names := Names(spec);
    FirstDeclaredIs(root, manifest, world, names);
    forall name
      ensures name in names <==> Counts(spec, name)
    {
      NamesThatCount(spec, name);
    }
    NamesThatCount(spec, "");
    OneDirectory(root, manifest);
    hide Names, Counts;
  }

  lemma OneDirectory(root: Path, manifest: Targets)
    ensures forall name, p, q :: Declared(root, manifest, name, p) && Declared(root, manifest, name, q) ==> p == q
  {
    hide ParseDir;
  }

  /** The first present alias directory, or the canonical directory when there is none. */
  ghost predicate FirstAliasOr(root: Path, spec: Spec, world: World, canonical: Path, c: Path) {
    && (forall k :: FirstPresent(root, world, spec.aliases, k) ==> c == root + spec.aliases[k])
    && (NonePresentBefore(root, world, spec.aliases, |spec.aliases|) ==> c == canonical)
  }

  /**
   Without one: the canonical directory if it is there, then the shared one if it serves the runtime, then the
   first present alias, and the canonical one again if there is nothing at all.
   */
  lemma ThenInOrder(root: Path, spec: Spec, manifest: Targets, world: World)
    requires !exists p :: DeclaredPresent(root, spec, manifest, world, p)
    ensures var c, canonical := ChooseDir(root, spec, manifest, world), root + spec.canonicalDir;
            && (world.present(canonical) ==> c == canonical)
            && (!world.present(canonical) && SharedReady(root, spec, world) ==> c == root + ["clients", "typescript"])
            && (!world.present(canonical) && !SharedReady(root, spec, world) ==>
                  FirstAliasOr(root, spec, world, canonical, c))
  {
    hide Declared, FirstDeclared, FirstExisting, Names, Counts;
    DeclaredIsPresent(root, spec, manifest, world);
    SharedPaths(root, spec);
    FirstExistingIs(root, world, spec.aliases);
  }

  lemma SharedPaths(root: Path, spec: Spec)
    ensures root + ["clients", "typescript"] + ["package.json"] == root + ["clients", "typescript", "package.json"]
    ensures spec.runtime.Some? ==>
      root + ["clients", "typescript"] + ["src", "runtimes", spec.runtime.value]
      == root + ["clients", "typescript", "src", "runtimes", spec.runtime.value]
  {}

  lemma DeclaredIsPresent(root: Path, spec: Spec, manifest: Targets, world: World)
    ensures var d := FirstDeclared(root, manifest, world, Names(spec));
            d.Some? ==> DeclaredPresent(root, spec, manifest, world, d.value)
  {
    hide Declared, FirstDeclared;
    FirstDeclaredIs(root, manifest, world, Names(spec));
    var d := FirstDeclared(root, manifest, world, Names(spec));
    if d.Some? {
      var i :| FirstOfDeclared(root, manifest, world, Names(spec), i, d.value);
      NamesThatCount(spec, Names(spec)[i]);
    }
  }

  /** A declared, the canonical or an alias directory is there. */
  ghost predicate AnyPresent(root: Path, spec: Spec, manifest: Targets, world: World) {
    (exists p :: DeclaredPresent(root, spec, manifest, world, p)) || world.present(root + spec.canonicalDir)
    || exists k :: 0 <= k < |spec.aliases| && world.present(root + spec.aliases[k])
  }

  /**
   No client is abandoned: when a declared, the canonical or an alias directory is there, the preferred one is
   there too, or it is the shared directory with the runtime's source in it.
   */
  lemma NothingAbandoned(root: Path, spec: Spec, manifest: Targets, world: World)
    ensures var c := ChooseDir(root, spec, manifest, world);
            AnyPresent(root, spec, manifest, world) ==>
              world.present(c) || (SharedReady(root, spec, world) && c == root + ["clients", "typescript"])
  {
    hide FirstDeclared, FirstExisting, Declared, Names, Counts;
    FirstExistingIs(root, world, spec.aliases);
    SharedPaths(root, spec);
    if exists p :: DeclaredPresent(root, spec, manifest, world, p) {
      DeclaredFirst(root, spec, manifest, world);
    } else {
      ThenInOrder(root, spec, manifest, world);
    }
  }

  // ----- What the greedy pass makes of a preference -----

  /** Inside the root, not yet claimed by an earlier target, and canonical for no other target. */
  predicate Free(root: Path, specs: seq<Spec>, dirs: seq<Path>, i: nat, p: Path)
    requires i < |specs| && i <= |dirs|
  {
    && root <= Resolve(p) && (forall j :: 0 <= j < i ==> Resolve(dirs[j]) != Resolve(p))
    && forall j :: 0 <= j < |specs| && j != i ==> root + specs[j].canonicalDir != Resolve(p)
  }

  /** Every target keeps its preferred directory if that is free, and gets its canonical one otherwise. */
  lemma KeptWhenFree(root: Path, specs: seq<Spec>, manifest: Targets, world: World, i: nat)
    requires Resolve(root) == root && DistinctTargets(specs) && i < |specs|
    ensures var r := Allocate(root, specs, manifest, world, |specs|);
            var preferred := ChooseDir(root, specs[i], manifest, world);
            r.Allocated?
            && r.dirs[i] == if Free(root, specs, r.dirs, i, preferred) then preferred else root + specs[i].canonicalDir
  {
    hide Resolve, ChooseDir, DistinctTargets, Reserved, Inside, Select, Claimed, Canonical;
    NeverFails(root, specs, manifest, world, |specs|);
    AllocatePrefix(root, specs, manifest, world, i + 1, |specs|);
    AllocatePrefix(root, specs, manifest, world, i, |specs|);
    var dirs := Allocate(root, specs, manifest, world, |specs|).dirs;
    var preferred := ChooseDir(root, specs[i], manifest, world);
    var c := Select(root, specs[i], preferred, Claimed(dirs[..i]), Reserved(root, specs));
    assert c == Chosen(dirs[i]);
    SelectWhenFree(root, specs, dirs, i, preferred);
  }

  lemma SelectWhenFree(root: Path, specs: seq<Spec>, dirs: seq<Path>, i: nat, preferred: Path)
    requires Resolve(root) == root && DistinctTargets(specs) && i < |specs| && i <= |dirs|
    ensures var c := Select(root, specs[i], preferred, Claimed(dirs[..i]), Reserved(root, specs));
            var kept := if Free(root, specs, dirs, i, preferred) then preferred else root + specs[i].canonicalDir;
            c.Chosen? ==> c.dir == kept
  {
    CanonicalDirs(root, specs);
    ClaimedBefore(dirs, i, preferred);
    ReservedForAnother(root, specs, i, preferred);
    hide Resolve, Reserved, Claimed, DistinctTargets;
  }

  lemma ClaimedBefore(dirs: seq<Path>, i: nat, p: Path)
    requires i <= |dirs|
    ensures Resolve(p) in Claimed(dirs[..i]) <==> exists j :: 0 <= j < i && Resolve(dirs[j]) == Resolve(p)
  {
    hide Resolve;
    forall j | 0 <= j < i
      ensures dirs[..i][j] == dirs[j]
    {}
  }

  /** A reservation under another name is another target's canonical directory. */
  lemma ReservedForAnother(root: Path, specs: seq<Spec>, i: nat, p: Path)
    requires Resolve(root) == root && DistinctTargets(specs) && i < |specs|
    ensures var reserved := Reserved(root, specs);
            Resolve(p) in reserved && reserved[Resolve(p)] != specs[i].name <==>
              exists j :: 0 <= j < |specs| && j != i && root + specs[j].canonicalDir == Resolve(p)
  {
    CanonicalDirs(root, specs);
    ReservedOwners(root, specs);
    ReservedFor(root, specs, Resolve(p));
    hide Resolve, Reserved, Plain;
  }

  lemma {:induction false} ReservedFor(root: Path, specs: seq<Spec>, p: Path)
    ensures p in Reserved(root, specs) ==>
      exists j :: 0 <= j < |specs| && Resolve(Canonical(root, specs[j])) == p
        && Reserved(root, specs)[p] == specs[j].name
  {
    hide Resolve, Canonical;
    if specs != [] && p in Reserved(root, specs) {
      var n := |specs| - 1;
      if p == Resolve(Canonical(root, specs[n])) {
      } else {
        ReservedFor(root, specs[..n], p);
        var j :| 0 <= j < n && Resolve(Canonical(root, specs[..n][j])) == p
          && Reserved(root, specs[..n])[p] == specs[..n][j].name;
        assert specs[..n][j] == specs[j];
      }
    }
  }

  /** A directory that is inside, unclaimed and nobody else's reservation is taken as it is. */
  lemma TakenAsIs(root: Path, specs: seq<Spec>, i: nat, dir: Path, claimed: set<Path>)
    requires i < |specs| && Inside(root, dir) && Resolve(dir) !in claimed
    requires forall j :: 0 <= j < |specs| && j != i ==> Resolve(dir) != Resolve(Canonical(root, specs[j]))
    ensures Select(root, specs[i], dir, claimed, Reserved(root, specs)) == Chosen(dir)
  {
    hide Resolve, Canonical, Reserved;
    ReservedFor(root, specs, Resolve(dir));
  }

  lemma {:induction false} AllocatePrefix(root: Path, specs: seq<Spec>, manifest: Targets, world: World, n: nat, m: nat)
    requires n <= m <= |specs| && Allocate(root, specs, manifest, world, m).Allocated?
    ensures var a, b := Allocate(root, specs, manifest, world, n), Allocate(root, specs, manifest, world, m);
            a.Allocated? && a.dirs == b.dirs[..n]
  {
    hide Select, ChooseDir, Claimed, Reserved;
    if n < m {
      AllocatePrefix(root, specs, manifest, world, n, m - 1);
    }
  }

  // ----- Paths -----

  /** `..` takes back the part before it, and nothing above the root; a resolved path has none. */
  lemma ResolveParent(p: Path, part: string)
    requires part != ".."
    ensures Resolve(p + [part, ".."]) == Resolve(p)
    ensures Resolve([".."]) == []
  {
    assert (p + [part, ".."])[..|p| + 1] == p + [part];
    ResolveOne(p, part);
    assert [".."][..0] == [];
  }

  lemma {:induction false} ResolvedIsPlain(p: Path)
    ensures ".." !in Resolve(p)
  {
    if p != [] {
      ResolvedIsPlain(p[..|p| - 1]);
    }
  }

  lemma {:induction false} PlainIsResolved(p: Path)
    requires ".." !in p
    ensures Resolve(p) == p
  {
    if p != [] {
      PlainIsResolved(p[..|p| - 1]);
      assert p[|p| - 1] in p;
    }
  }

  /** Texts joined by slashes. */
  function Slashed(words: seq<string>): string {
    if |words| == 0 then "" else if |words| == 1 then words[0] else words[0] + "/" + Slashed(words[1..])
  }

  function WithoutDots(words: seq<string>): Parts {
    if words == [] then []
    else (if words[0] == "" || words[0] == "." then [] else [words[0]]) + WithoutDots(words[1..])
  }

  /** Reading a path: its parts between slashes but for empty ones and dots; absolute if it starts with a slash. */
  lemma {:induction false} ParsedParts(words: seq<string>)
    requires words != [] && forall i, k :: 0 <= i < |words| && 0 <= k < |words[i]| ==> words[i][k] != '/'
    ensures ParseDir(Slashed(words)) == Dir(|words| > 1 && words[0] == "", WithoutDots(words))
  {
    ScanWord(words[0], "", "");
    assert words[0] + "" == words[0] && "" + words[0] == words[0];
    if |words| > 1 {
      ParsedParts(words[1..]);
      var rest := "/" + Slashed(words[1..]);
      ScanWord(words[0], rest, "");
      assert rest[1..] == Slashed(words[1..]);
      assert Slashed(words) == words[0] + rest;
    } else {
      assert WithoutDots(words[1..]) == [];
    }
  }
}
