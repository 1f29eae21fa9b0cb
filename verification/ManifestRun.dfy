/**
 The manifest over one run: manifests that are left to themselves, the repository target, the migration
 of the other targets, and the file that is written or kept.
 */
module ManifestRun {
  import opened Patterns
  import opened Bytes
  import opened TargetTable
  import opened TargetAllocator
  import opened ManifestMigration

  // ----- Repositories that keep their own manifest -----

  const MINIMUM_TARGETS := 15

  /** The directory an entry declares. */
  function DirText(targets: Targets, k: string): Option<string> {
    if IsTable(targets, k) && "dir" in targets[k].entries && targets[k].entries["dir"].Text?
    then Some(targets[k].entries["dir"].text) else None
  }

  predicate SafeText(text: string) {
    && text != "."
    && var d := ParseDir(text);
       !d.absolute && d.parts != [] && d.parts[0] == "clients" && forall i :: 0 <= i < |d.parts| ==> d.parts[i] != ".."
  }

  predicate Configured(targets: Targets, k: string) {
    DirText(targets, k).Some? && DirText(targets, k).value != "."
  }

  predicate Safe(targets: Targets, k: string) {
    DirText(targets, k).Some? && SafeText(DirText(targets, k).value)
  }

  predicate Mature(targets: Targets) {
    var configured := set k | k in targets && Configured(targets, k);
    var safe := set k | k in targets && Safe(targets, k);
    |safe| >= MINIMUM_TARGETS - 2 && |safe| == |configured|
  }

  // ----- The repository target -----

  function RepositoryTable(targets: Targets): Value {
    if "repository" in targets then targets["repository"] else EMPTY
  }

  /** An early name of the repository target, for the root directory. */
  predicate RootContract(targets: Targets) {
    IsTable(targets, "contract") && "dir" in targets["contract"].entries
      && targets["contract"].entries["dir"] == Text(".")
  }

  function RepositoryStep(targets: Targets): Targets {
    var current := RepositoryTable(targets);
    if !current.Table? then targets
    else
      var fixed := Table(current.entries["dir" := Text(".")] - {"name"});
      if RootContract(targets)
      then
        var merged := Merge(fixed, targets["contract"]);
        (targets - {"contract"})["repository" := Table(merged.entries["dir" := Text(".")] - {"adapter"})]
      else targets["repository" := fixed]
  }

  /** The repository target takes in a root contract that has a name. */
  predicate TakesName(targets: Targets) {
    RepositoryTable(targets).Table? && RootContract(targets) && "name" in targets["contract"].entries
  }

  /**
   The obsolete name is dropped before the early table is merged, so a name that comes with it survives
   this run and is dropped by the next: the step is idempotent exactly when there is no such name.
   */
  lemma RepositoryIdempotent(targets: Targets)
    ensures RepositoryStep(RepositoryStep(targets)) == RepositoryStep(targets) <==> !TakesName(targets)
  {
    var current := RepositoryTable(targets);
    if current.Table? {
      var fixed := Table(current.entries["dir" := Text(".")] - {"name"});
      var once := RepositoryStep(targets);
      var table := once["repository"].entries;
      assert !RootContract(once);
      assert table["dir"] == Text(".");
      assert RepositoryStep(once)["repository"].entries == table - {"name"};
      assert "name" in table <==> TakesName(targets);
      if "name" !in table {
        assert table["dir" := Text(".")] - {"name"} == table;
        assert RepositoryStep(once) == once;
      }
    }
  }

  // ----- One run -----

  function Ensured(targets: Targets, specs: seq<Spec>, dirs: seq<Parts>): Targets
    requires |specs| == |dirs|
  {
    if Mature(targets) then targets else MigratedAll(RepositoryStep(targets), specs, dirs, |specs|)
  }

  /** Neither name of the repository target is a target or an alias of the table. */
  predicate KeepsRepository(specs: seq<Spec>) {
    forall k :: k in {"repository", "contract"} ==> !IsAlias(specs, |specs|, k) && !IsHome(specs, |specs|, k)
  }

  /** The repository step looks at and changes two entries only. */
  lemma RepositoryFrame(a: Targets, b: Targets)
    requires SameAt(a, b, "repository") && SameAt(a, b, "contract")
    ensures RepositoryStep(a) == a <==> RepositoryStep(b) == b
  {
    hide Merge;
    var x, y := RepositoryStep(a), RepositoryStep(b);
    assert SameAt(x, y, "repository") && SameAt(x, y, "contract");
    forall k | k != "repository" && k != "contract"
      ensures SameAt(x, a, k) && SameAt(y, b, k)
    {}
    if x == a {
      forall k
        ensures SameAt(y, b, k)
      {}
      SameEverywhere(y, b);
    }
    if y == b {
      forall k
        ensures SameAt(x, a, k)
      {}
      SameEverywhere(x, a);
    }
  }

  lemma MigrationKeepsRepository(targets: Targets, specs: seq<Spec>, dirs: seq<Parts>)
    requires |specs| == |dirs| && DistinctKeys(specs) && KeepsRepository(specs)
    ensures SameAt(MigratedAll(targets, specs, dirs, |specs|), targets, "repository")
    ensures SameAt(MigratedAll(targets, specs, dirs, |specs|), targets, "contract")
  {
    hide MigratedAll, DistinctKeys, SameAt;
    MigratedAt(targets, specs, dirs, |specs|, "repository");
    MigratedAt(targets, specs, dirs, |specs|, "contract");
  }

  /**
   A second run with the same directories leaves the manifest alone when it is mature by then, or no name was
   taken in.
   */
  lemma RunSettles(targets: Targets, specs: seq<Spec>, dirs: seq<Parts>)
    requires |specs| == |dirs| && DistinctKeys(specs) && KeepsRepository(specs)
    ensures var once := Ensured(targets, specs, dirs);
            Ensured(once, specs, dirs) == once <==> Mature(once) || !TakesName(targets)
  {
    hide Mature, MigratedAll, RepositoryStep, DistinctKeys, TakesName, KeepsRepository, SameAt;
    var once := Ensured(targets, specs, dirs);
    if !Mature(targets) && !Mature(once) {
      var n, stepped := |specs|, RepositoryStep(targets);
      MigrationKeepsRepository(stepped, specs, dirs);
      RepositoryFrame(once, stepped);
      RepositoryIdempotent(targets);
      if RepositoryStep(once) == once {
        MigrationIsIdempotent(stepped, specs, dirs);
      } else {
        MigrationKeepsRepository(RepositoryStep(once), specs, dirs);
        RepositoryDiffers(once);
        DiffersElsewhere(MigratedAll(RepositoryStep(once), specs, dirs, n), RepositoryStep(once), once);
      }
    }
  }

  lemma RepositoryDiffers(targets: Targets)
    ensures SameAt(RepositoryStep(targets), targets, "repository")
            && SameAt(RepositoryStep(targets), targets, "contract")
            ==> RepositoryStep(targets) == targets
  {
    hide Merge;
    var x := RepositoryStep(targets);
    if SameAt(x, targets, "repository") && SameAt(x, targets, "contract") {
      SameEverywhere(x, targets);
    }
  }

  lemma DiffersElsewhere(a: Targets, b: Targets, c: Targets)
    requires SameAt(a, b, "repository") && SameAt(a, b, "contract")
    requires !(SameAt(b, c, "repository") && SameAt(b, c, "contract"))
    ensures a != c
  {}

  /** A manifest with one directory outside the clients directory is not left to itself. */
  lemma OutsideIsNotMature(targets: Targets, k: string)
    requires Configured(targets, k) && !Safe(targets, k)
    ensures !Mature(targets)
  {
    var configured := set x | x in targets && Configured(targets, x);
    var safe := set x | x in targets && Safe(targets, x);
    SubsetSize(safe, configured - {k});
  }

  lemma {:induction false} SubsetSize<T>(a: set<T>, b: set<T>)
    requires a <= b
    ensures |a| <= |b|
  {
    if a != {} {
      var x :| x in a;
      SubsetSize(a - {x}, b - {x});
    }
  }

  const NAMED: Targets :=
    map["contract" := Table(map["dir" := Text("."), "name" := Text("x")]), "docs" := Table(map["dir" := Text("/docs")])]

  /** A manifest on which the second run differs from the first. */
  lemma NameSurvivesOneRun(specs: seq<Spec>, dirs: seq<Parts>)
    requires |specs| == |dirs| && DistinctKeys(specs) && KeepsRepository(specs)
    requires !IsAlias(specs, |specs|, "docs") && !IsHome(specs, |specs|, "docs")
    ensures Ensured(Ensured(NAMED, specs, dirs), specs, dirs) != Ensured(NAMED, specs, dirs)
  {
    hide DistinctKeys, KeepsRepository, IsAlias, IsHome, Merge, Mature;
    assert TakesName(NAMED) && SameAt(RepositoryStep(NAMED), NAMED, "docs");
    MigratedAt(RepositoryStep(NAMED), specs, dirs, |specs|, "docs");
    assert SameAt(MigratedAll(RepositoryStep(NAMED), specs, dirs, |specs|), NAMED, "docs");
    OutsideIsNotMature(NAMED, "docs");
    OutsideIsNotMature(MigratedAll(RepositoryStep(NAMED), specs, dirs, |specs|), "docs");
    RunSettles(NAMED, specs, dirs);
  }

  // ----- The file -----

  function Relative(root: Path, dirs: seq<Path>): (r: seq<Parts>)
    ensures |r| == |dirs|
  {
    seq(|dirs|, i requires 0 <= i < |dirs| => if root <= dirs[i] then dirs[i][|root|..] else [])
  }

  predicate Writable(root: Path, specs: seq<Spec>, dirs: seq<Path>)
    requires |specs| == |dirs|
  {
    forall i :: 0 <= i < |specs| && specs[i].publish ==> root <= dirs[i]
  }

  predicate DistinctAliases(spec: Spec) {
    forall i, j :: 0 <= i < j < |spec.zedAliases| ==> spec.zedAliases[i] != spec.zedAliases[j]
  }

  /** Counts the directories other than the root, and those of them below `clients`. */
  method IsMature(targets: Targets) returns (mature: bool)
    ensures mature <==> Mature(targets)
  {
    hide Configured, Safe, ParseDir;
    var configured, safe: nat := 0, 0;
    ghost var seen: set<string> := {};
    var rest := targets.Keys;
    while rest != {}
      invariant rest <= targets.Keys && seen == targets.Keys - rest
      invariant configured == |ConfiguredIn(targets, seen)| && safe == |SafeIn(targets, seen)|
      decreases rest
    {
      var k :| k in rest;
      rest := rest - {k};
      CountsStep(targets, seen, k);
      seen := seen + {k};
      EntryIs(targets, k);
      var target := targets[k];
      if target.Table? && "dir" in target.entries && target.entries["dir"].Text? {
        var text := target.entries["dir"].text;
        if text != "." {
          configured := configured + 1;
          var directory := ParseDir(text);
          if !directory.absolute && ".." !in directory.parts && directory.parts != []
            && directory.parts[0] == "clients" {
            safe := safe + 1;
          }
        }
      }
    }
    AllCounted(targets, seen);
    return safe >= 13 && safe == configured;
  }

  function ConfiguredIn(targets: Targets, keys: set<string>): set<string> {
    set k | k in keys && Configured(targets, k)
  }

  function SafeIn(targets: Targets, keys: set<string>): set<string> {
    set k | k in keys && Safe(targets, k)
  }

  lemma CountsStep(targets: Targets, keys: set<string>, k: string)
    requires k !in keys
    ensures |ConfiguredIn(targets, keys + {k})| ==
            |ConfiguredIn(targets, keys)| + if Configured(targets, k) then 1 else 0
    ensures |SafeIn(targets, keys + {k})| == |SafeIn(targets, keys)| + if Safe(targets, k) then 1 else 0
  {
    hide Configured, Safe;
    OneMoreCounted(ConfiguredIn(targets, keys), ConfiguredIn(targets, keys + {k}), Configured(targets, k), k);
    OneMoreCounted(SafeIn(targets, keys), SafeIn(targets, keys + {k}), Safe(targets, k), k);
  }

  lemma OneMoreCounted(before: set<string>, after: set<string>, counts: bool, k: string)
    requires k !in before && forall x :: x in after <==> x in before || (counts && x == k)
    ensures |after| == |before| + if counts then 1 else 0
  {
    assert after == before + if counts then {k} else {};
  }

  predicate BelowClients(d: Dir) {
    !d.absolute && ".." !in d.parts && d.parts != [] && d.parts[0] == "clients"
  }

  /** What one entry counts for. */
  lemma EntryIs(targets: Targets, k: string)
    requires k in targets
    ensures var t := targets[k];
            var text := t.Table? && "dir" in t.entries && t.entries["dir"].Text?;
            && (Configured(targets, k) <==> text && t.entries["dir"].text != ".")
            && (Safe(targets, k) <==> text && t.entries["dir"].text != "."
                                      && BelowClients(ParseDir(t.entries["dir"].text)))
  {
    hide ParseDir;
    var t := targets[k];
    if t.Table? && "dir" in t.entries && t.entries["dir"].Text? {
      var d := ParseDir(t.entries["dir"].text);
      assert ".." in d.parts <==> exists i :: 0 <= i < |d.parts| && d.parts[i] == "..";
    }
  }

  lemma AllCounted(targets: Targets, keys: set<string>)
    requires keys == targets.Keys
    ensures Mature(targets) <==>
      |SafeIn(targets, keys)| >= 13 && |SafeIn(targets, keys)| == |ConfiguredIn(targets, keys)|
  {
    hide Configured, Safe;
    assert SafeIn(targets, keys) == set k | k in targets && Safe(targets, k);
    assert ConfiguredIn(targets, keys) == set k | k in targets && Configured(targets, k);
  }

  /** The manifest: what the file holds, and the document read from it. */
  class Manifest {
    var saved: Targets
    var targets: Targets

    constructor (saved: Targets)
      ensures this.saved == saved && targets == saved
    {
      this.saved, targets := saved, saved;
    }

    method EnsureRepository()
      modifies this`targets
      ensures targets == RepositoryStep(old(targets))
    {
      hide Merge;
      if "repository" !in targets {
        targets := targets["repository" := EMPTY];
      }
      var current := targets["repository"];
      if current.Table? {
        var entries := current.entries["dir" := Text(".")];
        entries := entries - {"name"};
        targets := targets["repository" := Table(entries)];
        if "contract" in targets {
          var legacy := targets["contract"];
          if legacy.Table? && "dir" in legacy.entries && legacy.entries["dir"] == Text(".") {
            var merged := MergeMissingTable(Table(entries), legacy);
            entries := merged.entries["dir" := Text(".")];
            entries := entries - {"adapter"};
            targets := targets["repository" := Table(entries)];
            targets := targets - {"contract"};
          }
        }
      }
      assert targets == RepositoryStep(old(targets));
    }

    /** The tables of a published target and its aliases, folded into one; the aliases are deleted. */
    method FoldAliases(spec: Spec) returns (current: Option<Value>)
      requires DistinctAliases(spec) && spec.zedTarget !in spec.zedAliases
      modifies this`targets
      ensures current.Some? ==> current.value.Table?
      ensures Merged(old(targets), spec) == if current.Some? then current.value else EMPTY
      ensures targets == if current.Some? then (old(targets) - Aliases(spec))[spec.zedTarget := current.value]
        else old(targets) - Aliases(spec)
    {
      hide Gather, Merge, Merged;
      ghost var was := targets;
      var aliases, zed := spec.zedAliases, spec.zedTarget;
      current := if zed in targets && targets[zed].Table? then Some(targets[zed]) else None;
      FirstFold(was, spec, current);
      for i := 0 to |aliases|
        invariant current.Some? ==> current.value.Table?
        invariant Merged(was, spec) == Gather(was, if current.Some? then current.value else EMPTY, aliases[i..])
        invariant targets == if current.Some? then (was - Firsts(aliases, i))[zed := current.value]
          else was - Firsts(aliases, i)
      {
        var alias := aliases[i];
        FirstsStep(aliases, i);
        NextFold(was, if current.Some? then current.value else EMPTY, aliases, i);
        if alias in targets {
          var legacy := targets[alias];
          if legacy.Table? {
            if current == None {
              MergeEmpty(legacy);
              current := Some(legacy);
            } else {
              var merged := MergeMissingTable(current.value, legacy);
              current := Some(merged);
            }
            targets := targets[zed := current.value];
          }
          targets := targets - {alias};
        }
      }
      LastFold(was, if current.Some? then current.value else EMPTY);
      assert aliases[|aliases|..] == [];
      FirstsAll(spec);
      assert was - Firsts(aliases, |aliases|) == was - Aliases(spec);
    }

    method MigrateTarget(spec: Spec, dir: Parts)
      requires DistinctAliases(spec) && (spec.publish ==> spec.zedTarget !in spec.zedAliases)
      modifies this`targets
      ensures targets == Migrated(old(targets), spec, dir)
    {
      hide Merged, Finish, Matches, NamePattern, ValidName;
      ghost var was := targets;
      var zed := spec.zedTarget;
      if !spec.publish {
        for i := 0 to |spec.zedAliases|
          invariant targets == was - Firsts(spec.zedAliases, i)
        {
          targets := targets - {spec.zedAliases[i]};
          FirstsStep(spec.zedAliases, i);
        }
        FirstsAll(spec);
        return;
      }
      var current := FoldAliases(spec);
      if current == None {
        current := Some(EMPTY);
        targets := targets[zed := EMPTY];
      }
      var entries := current.value.entries["dir" := Text(Posix(dir))];
      entries := entries["adapter" := Text(spec.adapter)];
      if "name" in entries && entries["name"].Text? {
        NameMatches(entries["name"].text);
        if !Matches(NamePattern(), entries["name"].text) {
          entries := entries - {"name"};
        }
      }
      FinishIs(current.value, dir, spec.adapter, entries);
      targets := targets[zed := Table(entries)];
      assert targets == (was - Aliases(spec))[zed := Finish(Merged(was, spec), dir, spec.adapter)];
    }

    /** The whole step; a directory not written below the root raises before the file is touched. */
    method EnsureManifest(root: Path, specs: seq<Spec>, dirs: seq<Path>) returns (ok: bool)
      requires |specs| == |dirs| && DistinctKeys(specs) && forall i :: 0 <= i < |specs| ==> DistinctAliases(specs[i])
      modifies this
      ensures ok <==> Mature(old(saved)) || Writable(root, specs, dirs)
      ensures saved == if ok then Ensured(old(saved), specs, Relative(root, dirs)) else old(saved)
    {
      hide Mature, RepositoryStep, Migrated, DistinctAliases;
      targets := saved;
      var mature := IsMature(targets);
      if mature {
        return true;
      }
      EnsureRepository();
      ghost var stepped := targets;
      for i := 0 to |specs|
        invariant saved == old(saved) && stepped == RepositoryStep(saved)
        invariant targets == MigratedAll(stepped, specs, Relative(root, dirs), i)
        invariant forall j :: 0 <= j < i && specs[j].publish ==> root <= dirs[j]
      {
        if specs[i].publish && !(root <= dirs[i]) {
          return false;
        }
        MigrateTarget(specs[i], Relative(root, dirs)[i]);
      }
      saved := targets;
      return true;
    }
  }

  function Firsts(aliases: seq<string>, n: nat): set<string>
    requires n <= |aliases|
  {
    set i | 0 <= i < n :: aliases[i]
  }

  lemma FirstsStep(aliases: seq<string>, n: nat)
    requires n < |aliases|
    ensures Firsts(aliases, n + 1) == Firsts(aliases, n) + {aliases[n]}
  {}

  lemma FirstsAll(spec: Spec)
    ensures Firsts(spec.zedAliases, |spec.zedAliases|) == Aliases(spec)
  {}

  lemma FirstFold(targets: Targets, spec: Spec, current: Option<Value>)
    requires current == if IsTable(targets, spec.zedTarget) then Some(targets[spec.zedTarget]) else None
    ensures Merged(targets, spec) == Gather(targets, if current.Some? then current.value else EMPTY,
                                            spec.zedAliases[0..])
  {
    hide Merge;
    var names := [spec.zedTarget] + spec.zedAliases;
    assert names[1..] == spec.zedAliases == spec.zedAliases[0..];
    if current.Some? {
      MergeEmpty(current.value);
    }
  }

  lemma NextFold(targets: Targets, acc: Value, names: seq<string>, i: nat)
    requires acc.Table? && i < |names|
    ensures Gather(targets, acc, names[i..]) ==
      Gather(targets, if IsTable(targets, names[i]) then Merge(acc, targets[names[i]]) else acc, names[i + 1..])
  {
    assert names[i..][1..] == names[i + 1..];
  }

  lemma LastFold(targets: Targets, acc: Value)
    requires acc.Table?
    ensures Gather(targets, acc, []) == acc
  {}

  lemma FinishIs(table: Value, dir: Parts, adapter: string, entries: map<string, Value>)
    requires table.Table?
    requires var owned := table.entries["dir" := Text(Posix(dir))]["adapter" := Text(adapter)];
             entries == if "name" in owned && owned["name"].Text? && !ValidName(owned["name"].text)
               then owned - {"name"} else owned
    ensures Table(entries) == Finish(table, dir, adapter)
  {}
}
