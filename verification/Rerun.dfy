/**
 A second run: from the manifest the first run wrote, every published target is given the directory it
 already has, so the manifest of the second run is a function of the first alone.
 */
module Rerun {
  import opened TargetTable
  import opened TargetAllocator
  import opened TargetPreference
  import opened ManifestMigration
  import opened ManifestRun
  import opened ManifestMaturity

  // ----- Chosen directories can be written down and read back -----

  predicate ProperBelow(root: Path, p: Path) {
    root <= p ==> Proper(p[|root|..])
  }

  predicate ProperSpec(spec: Spec) {
    Proper(spec.canonicalDir) && forall i :: 0 <= i < |spec.aliases| ==> Proper(spec.aliases[i])
  }

  lemma {:induction false} ScanProper(s: string, part: string)
    requires forall i :: 0 <= i < |part| ==> part[i] != '/'
    ensures Proper(ScanParts(s, part))
  {
    if s != "" {
      ScanProper(s[1..], if s[0] == '/' then "" else part + [s[0]]);
    }
  }

  lemma Suffix(root: Path, parts: Parts)
    ensures (root + parts)[|root|..] == parts
  {}

  lemma {:induction false} DeclaredProper(root: Path, manifest: Targets, world: World, names: seq<string>)
    ensures var d := FirstDeclared(root, manifest, world, names);
            d.Some? ==> ProperBelow(root, d.value)
    decreases |names|
  {
    hide ScanParts, ProperPart;
    if names != [] {
      DeclaredProper(root, manifest, world, names[1..]);
      if DeclaredDir(root, manifest, names[0]).Some? {
        var text := manifest[names[0]].entries["dir"].text;
        ScanProper(text, "");
        Suffix(root, ParseDir(text).parts);
      }
    }
  }

  lemma {:induction false} AliasProper(root: Path, world: World, dirs: seq<Parts>)
    requires forall i :: 0 <= i < |dirs| ==> Proper(dirs[i])
    ensures var d := FirstExisting(root, world, dirs);
            d.Some? ==> ProperBelow(root, d.value)
    decreases |dirs|
  {
    hide Proper;
    if dirs != [] {
      AliasProper(root, world, dirs[1..]);
      Suffix(root, dirs[0]);
    }
  }

  lemma ChosenProper(root: Path, spec: Spec, manifest: Targets, world: World)
    requires ProperSpec(spec)
    ensures ProperBelow(root, ChooseDir(root, spec, manifest, world)) && ProperBelow(root, Canonical(root, spec))
  {
    hide Proper, FirstDeclared, FirstExisting;
    DeclaredProper(root, manifest, world, Names(spec));
    AliasProper(root, world, spec.aliases);
    Suffix(root, spec.canonicalDir);
    Suffix(root, ["clients", "typescript"]);
    SharedProper();
  }

  lemma SharedProper()
    ensures Proper(["clients", "typescript"])
  {}

  /** Every allocated directory has proper parts below the root. */
  lemma {:induction false} AllocatedProper(root: Path, specs: seq<Spec>, manifest: Targets, world: World, n: nat)
    requires n <= |specs| && Allocate(root, specs, manifest, world, n).Allocated?
    requires forall i :: 0 <= i < |specs| ==> ProperSpec(specs[i])
    ensures forall i :: 0 <= i < n ==> ProperBelow(root, Allocate(root, specs, manifest, world, n).dirs[i])
  {
    hide ProperBelow, ProperSpec, ChooseDir, Resolve, Inside, Reserved, Claimed, Canonical;
    if n > 0 {
      AllocatedProper(root, specs, manifest, world, n - 1);
      ChosenProper(root, specs[n - 1], manifest, world);
    }
  }

  // ----- The second choice -----

  /** The manifest declares the directories for the published targets. */
  predicate Declares(root: Path, specs: seq<Spec>, manifest: Targets, dirs: seq<Path>)
    requires |specs| == |dirs|
  {
    forall i :: 0 <= i < |specs| && specs[i].publish ==> DeclaresOne(root, specs[i], manifest, dirs[i])
  }

  predicate DeclaresOne(root: Path, spec: Spec, manifest: Targets, dir: Path) {
    && root <= dir && IsTable(manifest, spec.zedTarget)
    && "dir" in manifest[spec.zedTarget].entries
       && manifest[spec.zedTarget].entries["dir"] == Text(Posix(dir[|root|..]))
  }

  /** A declared directory that exists is the preferred one. */
  lemma DeclaredIsPreferred(root: Path, spec: Spec, manifest: Targets, world: World, dir: Path)
    requires spec.publish && DeclaresOne(root, spec, manifest, dir) && ProperBelow(root, dir) && world.present(dir)
    ensures ChooseDir(root, spec, manifest, world) == dir
  {
    hide Posix, ScanParts, Proper;
    PosixRoundTrip(dir[|root|..]);
    assert root + dir[|root|..] == dir;
    assert Names(spec)[0] == spec.zedTarget;
  }

  /** What the first run established. */
  predicate FirstRun(root: Path, specs: seq<Spec>, manifest: Targets, world: World, dirs: seq<Path>) {
    && Resolve(root) == root && DistinctTargets(specs) && DistinctKeys(specs)
    && (forall i :: 0 <= i < |specs| ==> ProperSpec(specs[i]))
    && Allocate(root, specs, manifest, world, |specs|) == Allocated(dirs)
  }

  /** A directory of the first run is inside, and neither an earlier target's nor reserved for another. */
  lemma StillFree(root: Path, specs: seq<Spec>, manifest: Targets, world: World, dirs: seq<Path>, i: nat)
    requires FirstRun(root, specs, manifest, world, dirs) && i < |specs| == |dirs|
    ensures Inside(root, dirs[i]) && Resolve(dirs[i]) !in Claimed(dirs[..i])
    ensures forall j :: 0 <= j < |specs| && j != i ==> Resolve(dirs[i]) != Resolve(Canonical(root, specs[j]))
  {
    hide Resolve, Canonical, Allocate, Inside, ProperSpec, DistinctTargets, DistinctKeys;
    Isolated(root, specs, manifest, world, |specs|);
    NeverFails(root, specs, manifest, world, |specs|);
    forall j | 0 <= j < i
      ensures Resolve(dirs[..i][j]) != Resolve(dirs[i])
    {}
  }

  lemma {:induction false} SameAgain(root: Path, specs: seq<Spec>, manifest: Targets, world: World, dirs: seq<Path>,
                                     later: Targets, after: World, n: nat)
    requires FirstRun(root, specs, manifest, world, dirs) && n <= |specs|
    requires Declares(root, specs, later, dirs) && forall i :: 0 <= i < |dirs| ==> after.present(dirs[i])
    requires forall i :: 0 <= i < n ==> specs[i].publish
    ensures Allocate(root, specs, later, after, n) == Allocated(dirs[..n])
  {
    hide Resolve, Canonical, Reserved, Claimed, ChooseDir, Select, Inside, DeclaresOne, ProperBelow, ProperSpec,
      DistinctTargets, DistinctKeys;
    if n > 0 {
      SameAgain(root, specs, manifest, world, dirs, later, after, n - 1);
      var i, dir := n - 1, dirs[n - 1];
      StillFree(root, specs, manifest, world, dirs, i);
      AllocatedProper(root, specs, manifest, world, |specs|);
      DeclaredIsPreferred(root, specs[i], later, after, dir);
      TakenAsIs(root, specs, i, dir, Claimed(dirs[..i]));
      assert dirs[..i] + [dir] == dirs[..n];
    }
  }

  /** Choosing again from such a manifest gives every published target the directory it had. */
  lemma ChoiceIsStable(root: Path, specs: seq<Spec>, manifest: Targets, world: World, dirs: seq<Path>, later: Targets,
                       after: World)
    requires FirstRun(root, specs, manifest, world, dirs)
    requires Declares(root, specs, later, dirs) && forall i :: 0 <= i < |dirs| ==> after.present(dirs[i])
    ensures var again := Allocate(root, specs, later, after, |specs|);
            again.Allocated? && forall i :: 0 <= i < |specs| && specs[i].publish ==> again.dirs[i] == dirs[i]
  {
    hide Resolve, Allocate, Declares, DistinctTargets;
    NeverFails(root, specs, later, after, |specs|);
    forall i | 0 <= i < |specs| && specs[i].publish
      ensures Allocate(root, specs, later, after, |specs|).dirs[i] == dirs[i]
    {
      SameAgain(root, specs, manifest, world, dirs, later, after, i + 1);
      AllocatePrefix(root, specs, later, after, i + 1, |specs|);
    }
  }

  // ----- The manifest of a first run is such a manifest -----

  lemma RunDeclares(root: Path, specs: seq<Spec>, targets: Targets, dirs: seq<Path>)
    requires |specs| == |dirs| && DistinctKeys(specs) && Writable(root, specs, dirs) && !Mature(targets)
    ensures Declares(root, specs, Ensured(targets, specs, Relative(root, dirs)), dirs)
  {
    hide Mature, MigratedAll, RepositoryStep, Gather, Finish, DistinctKeys, Posix;
    var parts, stepped := Relative(root, dirs), RepositoryStep(targets);
    forall i | 0 <= i < |specs| && specs[i].publish
      ensures DeclaresOne(root, specs[i], Ensured(targets, specs, parts), dirs[i])
    {
      MigratedAt(stepped, specs, parts, |specs|, specs[i].zedTarget);
      assert Home(specs, i, specs[i].zedTarget);
      DirOfFinished(Merged(stepped, specs[i]), parts[i], specs[i].adapter);
    }
  }

  /** Only the published targets' directories reach the manifest. */
  lemma {:induction false} PublishedDirsOnly(targets: Targets, specs: seq<Spec>, a: seq<Parts>, b: seq<Parts>, n: nat)
    requires n <= |specs| && |a| == |b| == |specs|
    requires forall i :: 0 <= i < |specs| && specs[i].publish ==> a[i] == b[i]
    ensures MigratedAll(targets, specs, a, n) == MigratedAll(targets, specs, b, n)
  {
    hide Finish, Gather;
    if n > 0 {
      PublishedDirsOnly(targets, specs, a, b, n - 1);
    }
  }

  /**
   Two whole runs, over any manifest, any file system, and any file system afterwards that holds the
   chosen directories: the directories of the published targets are the same, and the second manifest
   equals the first exactly when the first took in no named root contract or was about to become mature.
   */
  lemma SecondRun(root: Path, specs: seq<Spec>, targets: Targets, world: World, dirs: seq<Path>, after: World)
    requires FirstRun(root, specs, targets, world, dirs) && KeepsRepository(specs)
    requires !Mature(targets) && Writable(root, specs, dirs)
    requires forall i :: 0 <= i < |dirs| ==> after.present(dirs[i])
    ensures |dirs| == |specs|
    ensures var once := Ensured(targets, specs, Relative(root, dirs));
            var again := Allocate(root, specs, once, after, |specs|);
            && again.Allocated?
            && (forall i :: 0 <= i < |specs| && specs[i].publish ==> again.dirs[i] == dirs[i])
            && Writable(root, specs, again.dirs)
            && (Ensured(once, specs, Relative(root, again.dirs)) == once <==>
                  !TakesName(targets) || BecomesMature(targets, specs, Relative(root, dirs)))
  {
    hide Mature, RepositoryStep, Allocate, DistinctTargets, DistinctKeys, Resolve, Declares, TakesName, KeepsRepository,
      ProperSpec, BecomesMature;
    AllocatedLength(root, specs, targets, world);
    var parts := Relative(root, dirs);
    var once := Ensured(targets, specs, parts);
    RunDeclares(root, specs, targets, dirs);
    ChoiceIsStable(root, specs, targets, world, dirs, once, after);
    var again := Allocate(root, specs, once, after, |specs|).dirs;
    RunIsIdempotent(targets, specs, parts);
    PublishedDirsOnly(RepositoryStep(once), specs, parts, Relative(root, again), |specs|);
  }

  lemma AllocatedLength(root: Path, specs: seq<Spec>, manifest: Targets, world: World)
    ensures var r := Allocate(root, specs, manifest, world, |specs|);
            r.Allocated? ==> |r.dirs| == |specs|
  {}
}
