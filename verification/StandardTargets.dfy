/**
 The real table of targets meets every condition of the theorems on allocation and migration. A signature
 of each name, its length with its first and last characters, tells the names apart.
 */
module StandardTargets {
  import opened TargetTable
  import opened Bytes
  import opened TargetAllocator
  import opened TargetPreference
  import opened ManifestMigration
  import opened ManifestRun
  import opened ManifestMaturity
  import opened Rerun

  function Signature(s: string): int
    requires s != ""
  {
    |s| * 1000000 + (s[0] as int) * 1000 + s[|s| - 1] as int
  }

  /** The place of a name in the table, by its signature. */
  function NameAt(g: int): int {
    if g == 1099099 then 0 else if g == 3099112 then 1 else if g == 3122103 then 2 else if g == 4119109 then 3
    else if g == 9103103 then 4 else if g == 6101103 then 5 else if g == 6101114 then 6 else if g == 4100116 then 7
    else if g == 4114116 then 8 else if g == 4106097 then 9 else if g == 6103103 then 10 else if g == 7112051 then 11
    else if g == 4114121 then 12 else if g == 3112112 then 13 else if g == 6107110 then 14 else if g == 5115116 then 15
    else if g == 17116115 then 16 else if g == 15116111 then 17 else if g == 14116110 then 18 else if g == 15116101
    then 19
    else -1
  }

  lemma EarlyNamesAt(i: nat)
    requires i < 10
    ensures TARGETS[i].name != "" && NameAt(Signature(TARGETS[i].name)) == i
  {}

  lemma LateNamesAt(i: nat)
    requires 10 <= i < 20
    ensures TARGETS[i].name != "" && NameAt(Signature(TARGETS[i].name)) == i
  {}

  lemma NamesAt(i: nat)
    requires i < |TARGETS|
    ensures TARGETS[i].name != "" && NameAt(Signature(TARGETS[i].name)) == i
  {
    Twenty();
    hide TARGETS, NameAt, Signature;
    if i < 10 {
      EarlyNamesAt(i);
    } else {
      LateNamesAt(i);
    }
  }

  /** The owner of a manifest key: a published target, or a hundred above the owner of an alias. */
  function KeyAt(g: int): int {
    if g == 1099099 then 0 else if g == 3099112 then 1 else if g == 3099120 then 101 else if g == 3122103 then 2
    else if g == 9114109 then 3 else if g == 5103109 then 4 else if g == 9103103 then 104 else if g == 6101103 then 5
    else if g == 6101114 then 6 else if g == 4100116 then 7 else if g == 4114116 then 8 else if g == 4106097 then 9
    else if g == 6103103 then 10 else if g == 2103111 then 110 else if g == 6112110 then 11 else if g == 7112051
    then 111
    else if g == 4114121 then 12 else if g == 3112112 then 13 else if g == 6107110 then 14 else if g == 5115116 then 15
    else if g == 6110115 then 16 else if g == 17116115 then 116 else if g == 10116116 then 116 else if g == 15116111
    then 117
    else if g == 4100111 then 117 else if g == 14116110 then 118 else if g == 3098110 then 118 else if g == 15116101
    then 119
    else if g == 4101101 then 119
    else -1
  }

  lemma PublishedAt(i: nat)
    requires i < |TARGETS|
    ensures TARGETS[i].publish <==> i <= 16
  {}

  lemma EarlyTargetsAt(i: nat)
    requires i < 8
    ensures TARGETS[i].zedTarget != "" && KeyAt(Signature(TARGETS[i].zedTarget)) == i
  {}

  lemma LateTargetsAt(i: nat)
    requires 8 <= i <= 16
    ensures TARGETS[i].zedTarget != "" && KeyAt(Signature(TARGETS[i].zedTarget)) == i
  {}

  lemma AliasesAt(i: nat)
    requires i < |TARGETS|
    ensures |TARGETS[i].zedAliases| <= 2
    ensures forall j :: 0 <= j < |TARGETS[i].zedAliases| ==>
      TARGETS[i].zedAliases[j] != "" && KeyAt(Signature(TARGETS[i].zedAliases[j])) == 100 + i
  {}

  lemma AliasesDiffer(i: nat)
    requires i < |TARGETS|
    ensures DistinctAliases(TARGETS[i])
  {}

  lemma DirAt(i: nat)
    requires i < |TARGETS|
    ensures |TARGETS[i].canonicalDir| == if i < 16 then 2 else 3
    ensures i < 16 ==> TARGETS[i].canonicalDir[1] == TARGETS[i].name
    ensures i >= 16 ==> "typescript-" + TARGETS[i].canonicalDir[2] == TARGETS[i].name
  {}

  /** Every client has its place below `clients`; the runtimes of TypeScript share one below that. */
  lemma ClientDirAt(i: nat)
    requires i < |TARGETS|
    ensures |TARGETS[i].canonicalDir| >= 2 && TARGETS[i].canonicalDir[0] == "clients"
    ensures i >= 16 ==> |TARGETS[i].canonicalDir| == 3 && TARGETS[i].canonicalDir[1] == "typescript"
    ensures TARGETS[i].runtime == if i < 16 then None else Some(TARGETS[i].canonicalDir[2])
  {}

  /** The directories older repositories use. */
  lemma LegacyDirAt(i: nat)
    requires i < |TARGETS|
    ensures TARGETS[i].aliases ==
      if i == 1 then [["clients", "cxx"]] else if i == 4 then [["clients", "gleam"]]
      else if i == 10 then [["clients", "go"]] else if i == 11 then [["clients", "python"]]
      else if i >= 16 then [["clients", "typescript"]] else []
    ensures TARGETS[i].adapter ==
      if i == 3 || i == 16 || i == 18 then "node" else if i == 9 || i == 14 then "java" else "none"
  {}

  lemma FirstPlain(i: nat)
    requires i < 4
    ensures Plain(TARGETS[i].canonicalDir)
  {}

  lemma EarlyPlain(i: nat)
    requires 4 <= i < 8
    ensures Plain(TARGETS[i].canonicalDir)
  {}

  lemma MiddlePlain(i: nat)
    requires 8 <= i < 12
    ensures Plain(TARGETS[i].canonicalDir)
  {}

  lemma NextPlain(i: nat)
    requires 12 <= i < 16
    ensures Plain(TARGETS[i].canonicalDir)
  {}

  lemma LatePlain(i: nat)
    requires 16 <= i < 18
    ensures Plain(TARGETS[i].canonicalDir)
  {}

  lemma LastPlain(i: nat)
    requires 18 <= i < 20
    ensures Plain(TARGETS[i].canonicalDir)
  {}

  lemma PlainAt(i: nat)
    requires i < |TARGETS|
    ensures Plain(TARGETS[i].canonicalDir)
  {
    Twenty();
    hide TARGETS, Plain;
    if i < 4 {
      FirstPlain(i);
    } else if i < 8 {
      EarlyPlain(i);
    } else if i < 12 {
      MiddlePlain(i);
    } else if i < 16 {
      NextPlain(i);
    } else if i < 18 {
      LatePlain(i);
    } else {
      LastPlain(i);
    }
  }

  lemma ProperAt(i: nat)
    requires i < |TARGETS|
    ensures forall j :: 0 <= j < |TARGETS[i].aliases| ==> Proper(TARGETS[i].aliases[j])
  {}

  lemma TableIsDistinct()
    ensures DistinctTargets(TARGETS)
  {
    hide TARGETS, NameAt, Signature, Plain;
    forall i, j | 0 <= i < j < |TARGETS|
      ensures TARGETS[i].name != TARGETS[j].name && TARGETS[i].canonicalDir != TARGETS[j].canonicalDir
    {
      NamesAt(i);
      NamesAt(j);
      DirAt(i);
      DirAt(j);
    }
    forall i | 0 <= i < |TARGETS|
      ensures Plain(TARGETS[i].canonicalDir)
    {
      PlainAt(i);
    }
  }

  /** What stands under a key says who owns it. */
  lemma OwnersAt(i: nat)
    requires i < |TARGETS|
    ensures TARGETS[i].publish <==> i <= 16
    ensures TARGETS[i].publish ==> TARGETS[i].zedTarget != "" && KeyAt(Signature(TARGETS[i].zedTarget)) == i
    ensures forall a :: a in TARGETS[i].zedAliases ==> a != "" && KeyAt(Signature(a)) == 100 + i
  {
    hide TARGETS, KeyAt, Signature;
    PublishedAt(i);
    if i < 8 {
      EarlyTargetsAt(i);
    } else if i <= 16 {
      LateTargetsAt(i);
    }
    AliasesAt(i);
  }

  lemma KeysAreDistinct()
    ensures |TARGETS| == 20 && DistinctKeys(TARGETS)
  {
    Twenty();
    hide TARGETS, KeyAt, Signature;
    forall i | 0 <= i < |TARGETS|
      ensures TARGETS[i].publish <==> i <= 16
      ensures TARGETS[i].publish ==> TARGETS[i].zedTarget != "" && KeyAt(Signature(TARGETS[i].zedTarget)) == i
      ensures forall a :: a in TARGETS[i].zedAliases ==> a != "" && KeyAt(Signature(a)) == 100 + i
    {
      OwnersAt(i);
    }
  }

  lemma Twenty()
    ensures |TARGETS| == 20
  {}

  /** A key without an owner is no alias and no target. */
  lemma Unowned(k: string)
    requires k != "" && KeyAt(Signature(k)) == -1
    ensures !IsAlias(TARGETS, |TARGETS|, k) && !IsHome(TARGETS, |TARGETS|, k)
  {
    hide TARGETS, KeyAt, Signature;
    forall i | 0 <= i < |TARGETS|
      ensures k !in TARGETS[i].zedAliases && !Home(TARGETS, i, k)
    {
      OwnersAt(i);
    }
  }

  /** The real table meets every condition. */
  lemma StandardTable()
    ensures DistinctTargets(TARGETS) && DistinctKeys(TARGETS) && KeepsRepository(TARGETS)
    ensures forall i :: 0 <= i < |TARGETS| ==> ProperSpec(TARGETS[i]) && DistinctAliases(TARGETS[i])
  {
    hide TARGETS, DistinctTargets, DistinctKeys, DistinctAliases, IsAlias, IsHome, Proper;
    TableIsDistinct();
    KeysAreDistinct();
    Unowned("repository");
    Unowned("contract");
    forall i | 0 <= i < |TARGETS|
      ensures ProperSpec(TARGETS[i]) && DistinctAliases(TARGETS[i])
    {
      AliasesDiffer(i);
      ProperAt(i);
      PlainAt(i);
    }
  }

  /** So allocation over the real table succeeds for every manifest and every file system. */
  lemma StandardAllocation(root: Path, manifest: Targets, world: World)
    requires Resolve(root) == root
    ensures Allocate(root, TARGETS, manifest, world, |TARGETS|).Allocated?
  {
    hide TARGETS, Resolve, Allocate, DistinctTargets, KeepsRepository, DistinctKeys, ProperSpec, DistinctAliases;
    StandardTable();
    NeverFails(root, TARGETS, manifest, world, |TARGETS|);
  }

  const CXX: Parts := ["clients", "cxx"]

  lemma CxxIsNobodys(root: Path)
    requires Resolve(root) == root
    ensures Resolve(root + CXX) == root + CXX
    ensures forall i :: 0 <= i < |TARGETS| ==> root + TARGETS[i].canonicalDir != root + CXX
  {
    assert Plain(CXX);
    PlainResolves(root, CXX);
    assert NameAt(Signature("cxx")) == -1 && CXX[1] == "cxx" && |CXX| == 2;
    hide TARGETS, NameAt, Signature, Resolve, CXX;
    forall i | 0 <= i < |TARGETS|
      ensures root + TARGETS[i].canonicalDir != root + CXX
    {
      DirAt(i);
      NamesAt(i);
      Suffix(root, TARGETS[i].canonicalDir);
      Suffix(root, CXX);
    }
  }

  /** A repository that has nothing but a client at an old place: its target prefers that place, and no other does. */
  lemma OnlyCxx(root: Path, world: World, i: nat)
    requires Resolve(root) == root && forall p :: world.present(p) <==> p == root + CXX
    requires i < 2 && i < |TARGETS|
    ensures ChooseDir(root, TARGETS[i], map[], world) == root + if i == 1 then CXX else TARGETS[i].canonicalDir
  {
    hide ChooseDir, Resolve;
    CxxIsNobodys(root);
    LegacyDirAt(i);
    ClientDirAt(i);
    hide TARGETS;
    ThenInOrder(root, TARGETS[i], map[], world);
    assert i == 1 ==> FirstPresent(root, world, TARGETS[i].aliases, 0);
  }

  /** So it is given that place. */
  lemma LegacyClientKept(root: Path, world: World)
    requires Resolve(root) == root && forall p :: world.present(p) <==> p == root + ["clients", "cxx"]
    ensures var r := Allocate(root, TARGETS, map[], world, |TARGETS|);
            r.Allocated? && |TARGETS| == 20 && r.dirs[1] == root + ["clients", "cxx"]
  {
    Twenty();
    StandardTable();
    CxxIsNobodys(root);
    hide TARGETS, Resolve, Allocate, DistinctTargets, DistinctKeys, KeepsRepository, ProperSpec, DistinctAliases,
      ChooseDir, CXX;
    OnlyCxx(root, world, 1);
    KeptWhenFree(root, TARGETS, map[], world, 1);
    FirstIsCanonical(root, world);
    InsideRoot(root, CXX);
    assert CXX == ["clients", "cxx"];
  }

  lemma InsideRoot(root: Path, parts: Parts)
    ensures root <= root + parts
  {}

  lemma FirstIsCanonical(root: Path, world: World)
    requires Resolve(root) == root && forall p :: world.present(p) <==> p == root + CXX
    ensures var r := Allocate(root, TARGETS, map[], world, |TARGETS|);
            r.Allocated? && |TARGETS| == 20
            && Resolve(r.dirs[0]) == root + TARGETS[0].canonicalDir == r.dirs[0]
  {
    Twenty();
    StandardTable();
    hide TARGETS, Resolve, Allocate, DistinctTargets, DistinctKeys, KeepsRepository, ProperSpec, DistinctAliases,
      ChooseDir, CXX;
    OnlyCxx(root, world, 0);
    KeptWhenFree(root, TARGETS, map[], world, 0);
    CanonicalDirs(root, TARGETS);
  }

  /** And over the real table a named root contract makes two runs differ. */
  lemma StandardNameSurvives(dirs: seq<Parts>)
    requires |dirs| == |TARGETS|
    ensures Ensured(Ensured(NAMED, TARGETS, dirs), TARGETS, dirs) != Ensured(NAMED, TARGETS, dirs)
  {
    hide TARGETS, DistinctTargets, KeepsRepository, DistinctKeys, IsAlias, IsHome, ProperSpec, DistinctAliases, Ensured,
      NAMED;
    StandardTable();
    Unowned("docs");
    NameSurvivesOneRun(TARGETS, dirs);
  }

  // ----- Two runs over the real table -----

  /** A directory below `clients`, without `..`. */
  predicate InClients(parts: Parts) {
    parts != [] && parts[0] == "clients" && ".." !in parts
  }

  lemma WrittenSafely(parts: Parts)
    requires Proper(parts)
    ensures Posix(parts) == "." <==> parts == []
    ensures SafeText(Posix(parts)) <==> InClients(parts)
  {
    PosixRoundTrip(parts);
    PosixRoundTrip([]);
    hide Proper, ScanParts;
  }

  function Below(n: nat): (r: set<nat>)
    ensures |r| == n && forall i: nat :: i in r <==> i < n
  {
    if n == 0 then {} else Below(n - 1) + {n - 1}
  }

  /** The published directories are pairwise distinct lists of proper parts. */
  predicate DistinctDirs(dirs: seq<Parts>) {
    && |dirs| == 20 && (forall i :: 0 <= i < 17 ==> Proper(dirs[i]))
    && forall i, j :: 0 <= i < j < 17 ==> dirs[i] != dirs[j]
  }

  /** Every published target has the root or a directory below `clients`. */
  predicate HomesInClients(dirs: seq<Parts>)
    requires |dirs| == 20
  {
    forall i :: 0 <= i < 17 ==> dirs[i] == [] || InClients(dirs[i])
  }

  /** At most one of the seventeen is the root, so there are always enough safe ones. */
  lemma EnoughHomes(dirs: seq<Parts>, homes: set<nat>)
    requires DistinctDirs(dirs) && HomesInClients(dirs)
    requires forall i: nat :: i in homes <==> i < 17 && InClients(dirs[i])
    ensures |homes| >= 16
  {
    hide InClients, Proper;
    var all := Below(17);
    if r: nat :| r in all && dirs[r] == [] {
      forall i | i in all && i != r
        ensures i in homes
      {
        assert dirs[i] != dirs[r];
      }
      assert all <= homes + {r};
      assert |homes + {r}| <= |homes| + 1;
      SubsetSize(all, homes + {r});
    } else {
      assert all <= homes;
      SubsetSize(all, homes);
    }
  }

  /**
   Over the real table a run that takes in a name leaves the manifest mature exactly when no directory lies
   outside `clients`.
   */
  lemma StandardMaturity(targets: Targets, dirs: seq<Parts>)
    requires DistinctDirs(dirs) && |TARGETS| == 20
    ensures BecomesMature(targets, TARGETS, dirs) <==> ForeignSafe(targets, TARGETS) && HomesInClients(dirs)
  {
    hide TARGETS, Posix, SafeText, Proper, InClients, ForeignSafe, SafeForeign;
    forall i | 0 <= i < 17
      ensures TARGETS[i].publish && (Posix(dirs[i]) == "." <==> dirs[i] == [])
        && (SafeText(Posix(dirs[i])) <==> InClients(dirs[i]))
    {
      PublishedAt(i);
      WrittenSafely(dirs[i]);
    }
    forall i | 17 <= i < 20
      ensures !TARGETS[i].publish
    {
      PublishedAt(i);
    }
    assert HomesSafe(TARGETS, dirs) <==> HomesInClients(dirs);
    if HomesInClients(dirs) {
      EnoughHomes(dirs, SafeHomes(TARGETS, dirs));
    }
  }

  /**
   Two whole runs over the real table, for every manifest that is not left to itself and every file system:
   the published targets keep their directories, and the second manifest is the first if and only if no
   named root contract was taken in, or every foreign entry and every published target lies below `clients`
   or is the root.
   */
  lemma StandardSecondRun(root: Path, targets: Targets, world: World, dirs: seq<Path>, after: World)
    requires Resolve(root) == root && Allocate(root, TARGETS, targets, world, |TARGETS|) == Allocated(dirs)
    requires |dirs| == |TARGETS| && Writable(root, TARGETS, dirs) && !Mature(targets)
    requires forall i :: 0 <= i < |dirs| ==> after.present(dirs[i])
    ensures |Relative(root, dirs)| == 20
    ensures var once := Ensured(targets, TARGETS, Relative(root, dirs));
            var again := Allocate(root, TARGETS, once, after, |TARGETS|);
            && again.Allocated?
            && (forall i :: 0 <= i < 17 ==> again.dirs[i] == dirs[i])
            && (Ensured(once, TARGETS, Relative(root, again.dirs)) == once <==>
                  !TakesName(targets) || (ForeignSafe(targets, TARGETS) && HomesInClients(Relative(root, dirs))))
  {
    Twenty();
    StandardTable();
    forall i | 0 <= i < 17
      ensures TARGETS[i].publish
    {
      PublishedAt(i);
    }
    hide TARGETS, Resolve, Allocate, DistinctTargets, DistinctKeys, KeepsRepository, ProperSpec, DistinctAliases,
      Mature, TakesName, Ensured,
      BecomesMature, ForeignSafe, HomesInClients;
    ChosenDirsDiffer(root, targets, world, dirs);
    StandardMaturity(targets, Relative(root, dirs));
    SecondRun(root, TARGETS, targets, world, dirs, after);
  }

  lemma ChosenDirsDiffer(root: Path, targets: Targets, world: World, dirs: seq<Path>)
    requires |TARGETS| == 20 == |dirs| && Allocate(root, TARGETS, targets, world, |TARGETS|) == Allocated(dirs)
    requires forall i :: 0 <= i < 17 ==> TARGETS[i].publish
    requires Writable(root, TARGETS, dirs) && forall i :: 0 <= i < |TARGETS| ==> ProperSpec(TARGETS[i])
    ensures DistinctDirs(Relative(root, dirs))
  {
    hide TARGETS, Resolve, Allocate, ProperSpec, Proper;
    Isolated(root, TARGETS, targets, world, |TARGETS|);
    AllocatedProper(root, TARGETS, targets, world, |TARGETS|);
    var parts := Relative(root, dirs);
    forall i, j | 0 <= i < j < 17
      ensures parts[i] != parts[j]
    {
      assert root + parts[i] == dirs[i] && root + parts[j] == dirs[j];
    }
  }
}
