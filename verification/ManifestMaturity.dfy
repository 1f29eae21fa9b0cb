/**
 Which manifests a run leaves mature, read off the manifest and the directories before the run; and with
 it exactly which runs a second run repeats.
 */
module ManifestMaturity {
  import opened Bytes
  import opened TargetTable
  import opened ManifestMigration
  import opened ManifestRun

  // ----- Before the run -----

  /** A key that neither the migration nor the repository step touches. */
  predicate Foreign(specs: seq<Spec>, k: string) {
    !IsAlias(specs, |specs|, k) && !IsHome(specs, |specs|, k) && k != "repository" && k != "contract"
  }

  /** The published targets whose directory is written as a safe one. */
  function SafeHomes(specs: seq<Spec>, dirs: seq<Parts>): set<nat>
    requires |specs| == |dirs|
  {
    set i: nat | i < |specs| && specs[i].publish && SafeText(Posix(dirs[i]))
  }

  function SafeForeign(targets: Targets, specs: seq<Spec>): set<string> {
    set k | k in targets && Foreign(specs, k) && Safe(targets, k)
  }

  /** Every foreign entry with a directory of its own has a safe one. */
  predicate ForeignSafe(targets: Targets, specs: seq<Spec>) {
    forall k :: k in targets && Foreign(specs, k) && Configured(targets, k) ==> Safe(targets, k)
  }

  /** Every published target is given the root or a safe directory. */
  predicate HomesSafe(specs: seq<Spec>, dirs: seq<Parts>)
    requires |specs| == |dirs|
  {
    forall i :: 0 <= i < |specs| && specs[i].publish && Posix(dirs[i]) != "." ==> SafeText(Posix(dirs[i]))
  }

  /**
   No foreign entry and no published target has a directory outside the clients directory, and there are
   enough of them.
   */
  predicate BecomesMature(targets: Targets, specs: seq<Spec>, dirs: seq<Parts>)
    requires |specs| == |dirs|
  {
    && ForeignSafe(targets, specs) && HomesSafe(specs, dirs)
    && |SafeForeign(targets, specs)| + |SafeHomes(specs, dirs)| >= MINIMUM_TARGETS - 2
  }

  // ----- After the run -----

  /** The directory under each key afterwards, when the early root contract is taken in. */
  lemma DirAfter(targets: Targets, specs: seq<Spec>, dirs: seq<Parts>, k: string)
    requires |specs| == |dirs| && DistinctKeys(specs) && KeepsRepository(specs) && TakesName(targets)
    ensures var once := MigratedAll(RepositoryStep(targets), specs, dirs, |specs|);
            && (Foreign(specs, k) ==> SameAt(once, targets, k))
            && (k == "repository" ==> DirText(once, k) == Some("."))
            && (k == "contract" || IsAlias(specs, |specs|, k) ==> k !in once)
            && forall i :: 0 <= i < |specs| && Home(specs, i, k) ==>
               k in once && DirText(once, k) == Some(Posix(dirs[i]))
  {
    var stepped := RepositoryStep(targets);
    assert k == "repository" ==> DirText(stepped, k) == Some(".");
    assert k == "contract" ==> k !in stepped;
    assert k != "repository" && k != "contract" ==> SameAt(stepped, targets, k);
    hide RepositoryStep, MigratedAll, DistinctKeys, TakesName, Finish, Gather, Merged, Posix;
    MigratedAt(stepped, specs, dirs, |specs|, k);
    if i :| 0 <= i < |specs| && Home(specs, i, k) {
      DirOfFinished(Merged(stepped, specs[i]), dirs[i], specs[i].adapter);
      OneHome(specs, k);
    }
  }

  lemma DirOfFinished(table: Value, dir: Parts, adapter: string)
    requires table.Table?
    ensures var f := Finish(table, dir, adapter);
            "dir" in f.entries && f.entries["dir"] == Text(Posix(dir))
  {
    hide Posix;
  }

  lemma OneHome(specs: seq<Spec>, k: string)
    requires DistinctKeys(specs)
    ensures forall i, j :: Home(specs, i, k) && Home(specs, j, k) ==> i == j
  {}

  /** The names of some published targets. */
  function HomesOf(specs: seq<Spec>, chosen: set<nat>): set<string>
    requires forall i :: i in chosen ==> i < |specs|
  {
    set i | i in chosen :: specs[i].zedTarget
  }

  lemma {:induction false} HomesCount(specs: seq<Spec>, chosen: set<nat>)
    requires forall i :: i in chosen ==> i < |specs|
    requires forall i, j :: i in chosen && j in chosen && i != j ==> specs[i].zedTarget != specs[j].zedTarget
    ensures |HomesOf(specs, chosen)| == |chosen|
  {
    if chosen != {} {
      var i :| i in chosen;
      var rest := chosen - {i};
      HomesCount(specs, rest);
      assert HomesOf(specs, chosen) == HomesOf(specs, rest) + {specs[i].zedTarget};
    }
  }

  lemma PublishedDiffer(specs: seq<Spec>, i: nat, j: nat)
    requires DistinctKeys(specs) && i < |specs| && j < |specs| && specs[i].publish && specs[j].publish && i != j
    ensures specs[i].zedTarget != specs[j].zedTarget
  {
    if i < j {
      assert specs[i].zedTarget != specs[j].zedTarget;
    } else {
      assert specs[j].zedTarget != specs[i].zedTarget;
    }
  }

  /** The safe keys afterwards are the safe foreign keys and the names of the safe published targets. */
  lemma SafeAfter(targets: Targets, specs: seq<Spec>, dirs: seq<Parts>)
    requires |specs| == |dirs| && DistinctKeys(specs) && KeepsRepository(specs) && TakesName(targets)
    ensures var once := MigratedAll(RepositoryStep(targets), specs, dirs, |specs|);
            (set k | k in once && Safe(once, k)) == SafeForeign(targets, specs) + HomesOf(specs, SafeHomes(specs, dirs))
  {
    hide RepositoryStep, MigratedAll, DistinctKeys, TakesName, KeepsRepository, Posix, SafeText, DirText;
    var once := MigratedAll(RepositoryStep(targets), specs, dirs, |specs|);
    forall k
      ensures k in once && Safe(once, k) <==>
        k in SafeForeign(targets, specs) || k in HomesOf(specs, SafeHomes(specs, dirs))
    {
      SafeAfterAt(targets, specs, dirs, k);
    }
  }

  lemma DotIsNotSafe()
    ensures !SafeText(".")
  {}

  lemma SafeAfterAt(targets: Targets, specs: seq<Spec>, dirs: seq<Parts>, k: string)
    requires |specs| == |dirs| && DistinctKeys(specs) && KeepsRepository(specs) && TakesName(targets)
    ensures var once := MigratedAll(RepositoryStep(targets), specs, dirs, |specs|);
            k in once && Safe(once, k) <==>
              k in SafeForeign(targets, specs) || k in HomesOf(specs, SafeHomes(specs, dirs))
  {
    var once := MigratedAll(RepositoryStep(targets), specs, dirs, |specs|);
    DirAfter(targets, specs, dirs, k);
    DotIsNotSafe();
    OneHome(specs, k);
    HomeIsForeignToNone(specs, k);
    SameDir(once, targets, k);
    hide RepositoryStep, MigratedAll, DistinctKeys, TakesName, KeepsRepository, Posix, SafeText, DirText, IsAlias,
      SameAt;
    if i :| 0 <= i < |specs| && Home(specs, i, k) {
      assert Safe(once, k) <==> i in SafeHomes(specs, dirs);
    }
  }

  /** A published target's name is neither foreign nor one of the repository's. */
  lemma HomeIsForeignToNone(specs: seq<Spec>, k: string)
    ensures IsHome(specs, |specs|, k) ==> !Foreign(specs, k)
    ensures IsHome(specs, |specs|, k) <==> exists i :: 0 <= i < |specs| && Home(specs, i, k)
  {}

  lemma SameDir(a: Targets, b: Targets, k: string)
    ensures SameAt(a, b, k) ==> DirText(a, k) == DirText(b, k) && (k in a <==> k in b)
  {}

  /** Where a configured key afterwards comes from, and that its directory is safe exactly when it was. */
  lemma ConfiguredAfterAt(targets: Targets, specs: seq<Spec>, dirs: seq<Parts>, k: string)
    requires |specs| == |dirs| && DistinctKeys(specs) && KeepsRepository(specs) && TakesName(targets)
    ensures var once := MigratedAll(RepositoryStep(targets), specs, dirs, |specs|);
            && (Foreign(specs, k) ==> (k in once <==> k in targets) && DirText(once, k) == DirText(targets, k))
            && (forall i :: 0 <= i < |specs| && Home(specs, i, k) ==>
                k in once && DirText(once, k) == Some(Posix(dirs[i])))
            && (k in once && Configured(once, k) && !Foreign(specs, k) ==> IsHome(specs, |specs|, k))
  {
    hide RepositoryStep, MigratedAll, DistinctKeys, TakesName, KeepsRepository, Posix, DirText, SameAt;
    DirAfter(targets, specs, dirs, k);
    SameDir(MigratedAll(RepositoryStep(targets), specs, dirs, |specs|), targets, k);
  }

  /** No configured directory is unsafe. */
  predicate AllSafe(targets: Targets) {
    forall k :: k in targets && Configured(targets, k) ==> Safe(targets, k)
  }

  lemma SafeBefore(targets: Targets, specs: seq<Spec>, dirs: seq<Parts>)
    requires |specs| == |dirs| && DistinctKeys(specs) && KeepsRepository(specs) && TakesName(targets)
    requires AllSafe(MigratedAll(RepositoryStep(targets), specs, dirs, |specs|))
    ensures ForeignSafe(targets, specs) && HomesSafe(specs, dirs)
  {
    hide RepositoryStep, MigratedAll, DistinctKeys, TakesName, KeepsRepository, Posix, SafeText, DirText, Foreign;
    var once := MigratedAll(RepositoryStep(targets), specs, dirs, |specs|);
    forall k | k in targets && Foreign(specs, k) && Configured(targets, k)
      ensures Safe(targets, k)
    {
      ConfiguredAfterAt(targets, specs, dirs, k);
      assert k in once && Configured(once, k);
    }
    forall i | 0 <= i < |specs| && specs[i].publish && Posix(dirs[i]) != "."
      ensures SafeText(Posix(dirs[i]))
    {
      var k := specs[i].zedTarget;
      ConfiguredAfterAt(targets, specs, dirs, k);
      assert Home(specs, i, k);
      assert k in once && Configured(once, k);
    }
  }

  lemma SafeFromBefore(targets: Targets, specs: seq<Spec>, dirs: seq<Parts>)
    requires |specs| == |dirs| && DistinctKeys(specs) && KeepsRepository(specs) && TakesName(targets)
    requires ForeignSafe(targets, specs) && HomesSafe(specs, dirs)
    ensures AllSafe(MigratedAll(RepositoryStep(targets), specs, dirs, |specs|))
  {
    hide RepositoryStep, MigratedAll, DistinctKeys, TakesName, KeepsRepository, Posix, SafeText, DirText, Foreign;
    var once := MigratedAll(RepositoryStep(targets), specs, dirs, |specs|);
    forall k | k in once && Configured(once, k)
      ensures Safe(once, k)
    {
      ConfiguredAfterAt(targets, specs, dirs, k);
      if Foreign(specs, k) {
        assert Configured(targets, k);
      }
    }
  }

  lemma MatureIsAllSafe(targets: Targets)
    ensures Mature(targets) <==> AllSafe(targets) && |set k | k in targets && Safe(targets, k)| >= MINIMUM_TARGETS - 2
  {
    SafeTextIsNotDot();
    hide SafeText, DirText;
    var configured := set k | k in targets && Configured(targets, k);
    var safe := set k | k in targets && Safe(targets, k);
    assert safe <= configured;
    if AllSafe(targets) {
      assert configured == safe;
    }
    if |safe| == |configured| {
      SubsetOfSameSize(safe, configured);
      forall k | k in targets && Configured(targets, k)
        ensures Safe(targets, k)
      {
        assert k in configured;
      }
    }
  }

  lemma SafeTextIsNotDot()
    ensures forall text :: SafeText(text) ==> text != "."
  {}

  lemma {:induction false} SubsetOfSameSize(a: set<string>, b: set<string>)
    requires a <= b && |a| == |b|
    ensures a == b
  {
    if a != {} {
      var x :| x in a;
      SubsetOfSameSize(a - {x}, b - {x});
    }
  }

  /** What a run leaves mature, when it takes in a named root contract. */
  lemma MatureAfter(targets: Targets, specs: seq<Spec>, dirs: seq<Parts>)
    requires |specs| == |dirs| && DistinctKeys(specs) && KeepsRepository(specs) && TakesName(targets)
    ensures Mature(MigratedAll(RepositoryStep(targets), specs, dirs, |specs|)) <==> BecomesMature(targets, specs, dirs)
  {
    hide RepositoryStep, MigratedAll, DistinctKeys, TakesName, KeepsRepository, Posix, SafeText, DirText, Configured,
      Mature, SafeHomes, AllSafe, ForeignSafe, HomesSafe;
    var once := MigratedAll(RepositoryStep(targets), specs, dirs, |specs|);
    MatureIsAllSafe(once);
    if AllSafe(once) {
      SafeBefore(targets, specs, dirs);
    }
    if ForeignSafe(targets, specs) && HomesSafe(specs, dirs) {
      SafeFromBefore(targets, specs, dirs);
    }
    SafeAfter(targets, specs, dirs);
    SafeHomesArePublished(specs, dirs);
    var homes := SafeHomes(specs, dirs);
    forall i, j | i in homes && j in homes && i != j
      ensures specs[i].zedTarget != specs[j].zedTarget
    {
      PublishedDiffer(specs, i, j);
    }
    HomesCount(specs, homes);
    HomesAreNotForeign(targets, specs, homes);
  }

  lemma SafeHomesArePublished(specs: seq<Spec>, dirs: seq<Parts>)
    requires |specs| == |dirs|
    ensures forall i :: i in SafeHomes(specs, dirs) ==> i < |specs| && specs[i].publish
  {}

  lemma HomesAreNotForeign(targets: Targets, specs: seq<Spec>, chosen: set<nat>)
    requires forall i :: i in chosen ==> i < |specs| && specs[i].publish
    ensures SafeForeign(targets, specs) !! HomesOf(specs, chosen)
  {
    hide Safe;
    forall i | i in chosen
      ensures !Foreign(specs, specs[i].zedTarget)
    {
      assert Home(specs, i, specs[i].zedTarget);
    }
  }

  /**
   Exactly when a second run with the same directories leaves the manifest alone, from what stands before the
   first.
   */
  lemma RunIsIdempotent(targets: Targets, specs: seq<Spec>, dirs: seq<Parts>)
    requires |specs| == |dirs| && DistinctKeys(specs) && KeepsRepository(specs)
    ensures var once := Ensured(targets, specs, dirs);
            Ensured(once, specs, dirs) == once <==>
              Mature(targets) || !TakesName(targets) || BecomesMature(targets, specs, dirs)
  {
    hide RepositoryStep, MigratedAll, DistinctKeys, TakesName, KeepsRepository, BecomesMature, Mature;
    RunSettles(targets, specs, dirs);
    if TakesName(targets) {
      MatureAfter(targets, specs, dirs);
    }
  }
}
