/**
 The allocator of target directories: a greedy choice with the canonical directories held in reserve. It
 gives every target a directory of its own inside the repository, whatever the manifest says and whatever
 the file system holds.
 */
module TargetAllocator {
  import opened Bytes
  import opened TargetTable

  type Path = seq<string>

  /** What the allocator asks the file system, about paths as they are written. */
  datatype World = World(present: Path -> bool, isFile: Path -> bool)

  function Join(root: Path, d: Dir): Path {
    if d.absolute then d.parts else root + d.parts
  }

  /** `..` removed; there are no symbolic links. */
  function Resolve(p: Path): Path {
    if p == [] then []
    else
      var r, last := Resolve(p[..|p| - 1]), p[|p| - 1];
      if last == ".." then (if r == [] then [] else r[..|r| - 1]) else r + [last]
  }

  predicate Inside(root: Path, p: Path) {
    root <= Resolve(p)
  }

  function Canonical(root: Path, spec: Spec): Path {
    root + spec.canonicalDir
  }

  // ----- One target's preference -----

  function DeclaredDir(root: Path, manifest: Targets, name: string): Option<Path> {
    if name in manifest && manifest[name].Table? && "dir" in manifest[name].entries
      && manifest[name].entries["dir"].Text?
    then Some(Join(root, ParseDir(manifest[name].entries["dir"].text)))
    else None
  }

  function FirstDeclared(root: Path, manifest: Targets, world: World, names: seq<string>): Option<Path> {
    if names == [] then None
    else
      var d := DeclaredDir(root, manifest, names[0]);
      if d.Some? && world.present(d.value) then d else FirstDeclared(root, manifest, world, names[1..])
  }

  function FirstExisting(root: Path, world: World, dirs: seq<Parts>): Option<Path> {
    if dirs == [] then None
    else if world.present(root + dirs[0]) then Some(root + dirs[0])
    else FirstExisting(root, world, dirs[1..])
  }

  function Names(spec: Spec): seq<string> {
    if spec.publish then [spec.zedTarget] + spec.zedAliases else spec.zedAliases
  }

  function ChooseDir(root: Path, spec: Spec, manifest: Targets, world: World): Path {
    var declared := FirstDeclared(root, manifest, world, Names(spec));
    if declared.Some? then declared.value
    else if world.present(Canonical(root, spec)) then Canonical(root, spec)
    else
      var shared := root + ["clients", "typescript"];
      if spec.runtime.Some? && world.isFile(shared + ["package.json"])
        && world.present(shared + ["src", "runtimes", spec.runtime.value])
      then shared
      else
        var alias := FirstExisting(root, world, spec.aliases);
        if alias.Some? then alias.value else Canonical(root, spec)
  }

  // ----- The greedy pass -----

  /** Directories reserved so far: a later spec with the same canonical directory takes the reservation over. */
  function Reserved(root: Path, specs: seq<Spec>): map<Path, string> {
    if specs == [] then map[]
    else Reserved(root, specs[..|specs| - 1])[Resolve(Canonical(root, specs[|specs| - 1])) := specs[|specs| - 1].name]
  }

  datatype Choice = Chosen(dir: Path) | Escapes | Collides

  /** What one turn of the loop selects, given what is claimed and reserved. */
  function Select(root: Path, spec: Spec, preferred: Path, claimed: set<Path>, reserved: map<Path, string>): Choice {
    var first := if Inside(root, preferred) then preferred else Canonical(root, spec);
    if !Inside(root, first) then Escapes
    else
      var r := Resolve(first);
      var second := if r in claimed || (r in reserved && reserved[r] != spec.name) then Canonical(root, spec)
        else first;
      if !Inside(root, second) then Escapes
      else if Resolve(second) in claimed then Collides
      else Chosen(second)
  }

  datatype Allocation = Allocated(dirs: seq<Path>) | EscapeError(target: string) | CollisionError(target: string)

  function Claimed(dirs: seq<Path>): set<Path> {
    set i | 0 <= i < |dirs| :: Resolve(dirs[i])
  }

  /** The pass over the first `n` specs. */
  function Allocate(root: Path, specs: seq<Spec>, manifest: Targets, world: World, n: nat): (r: Allocation)
    requires n <= |specs|
    ensures r.Allocated? ==> |r.dirs| == n
  {
    if n == 0 then Allocated([])
    else
      match Allocate(root, specs, manifest, world, n - 1)
      case Allocated(dirs) =>
        var spec := specs[n - 1];
        (match Select(root, spec, ChooseDir(root, spec, manifest, world), Claimed(dirs), Reserved(root, specs))
         case Chosen(dir) => Allocated(dirs + [dir])
         case Escapes => EscapeError(spec.name)
         case Collides => CollisionError(spec.name))
      case error => error
  }

  /** The dictionary of selections after the first specs: by name, the last one kept. */
  function Named(specs: seq<Spec>, dirs: seq<Path>): map<string, Path>
    requires |dirs| <= |specs|
  {
    if dirs == [] then map[] else Named(specs, dirs[..|dirs| - 1])[specs[|dirs| - 1].name := dirs[|dirs| - 1]]
  }

  /** The first present of the declared directories, the canonical one, the shared one, and the aliases. */
  method PreferDir(root: Path, spec: Spec, manifest: Targets, world: World) returns (p: Path)
    ensures p == ChooseDir(root, spec, manifest, world)
  {
    hide DeclaredDir;
    var names := if spec.publish then [spec.zedTarget] + spec.zedAliases else spec.zedAliases;
    for i := 0 to |names|
      invariant FirstDeclared(root, manifest, world, names) == FirstDeclared(root, manifest, world, names[i..])
    {
      assert names[i..][1..] == names[i + 1..];
      var declared := DeclaredDir(root, manifest, names[i]);
      if declared.Some? && world.present(declared.value) {
        return declared.value;
      }
    }
    var canonical := root + spec.canonicalDir;
    if world.present(canonical) {
      return canonical;
    }
    if spec.runtime.Some? {
      var shared := root + ["clients", "typescript"];
      var source := shared + ["src", "runtimes", spec.runtime.value];
      if world.isFile(shared + ["package.json"]) && world.present(source) {
        return shared;
      }
    }
    for i := 0 to |spec.aliases|
      invariant FirstExisting(root, world, spec.aliases) == FirstExisting(root, world, spec.aliases[i..])
    {
      assert spec.aliases[i..][1..] == spec.aliases[i + 1..];
      if world.present(root + spec.aliases[i]) {
        return root + spec.aliases[i];
      }
    }
    return canonical;
  }

  /** One turn of the loop. */
  method ChooseOne(root: Path, spec: Spec, manifest: Targets, world: World, claimed: set<Path>, reserved: map<Path,
                   string>)
    returns (c: Choice)
    ensures c == Select(root, spec, ChooseDir(root, spec, manifest, world), claimed, reserved)
  {
    hide Resolve, ChooseDir;
    var preferred := PreferDir(root, spec, manifest, world);
    var resolved := Resolve(preferred);
    if !(root <= resolved) {
      preferred := Canonical(root, spec);
      resolved := Resolve(preferred);
    }
    if !(root <= resolved) {
      return Escapes;
    }
    if resolved in claimed || (resolved in reserved && reserved[resolved] != spec.name) {
      preferred := Canonical(root, spec);
      resolved := Resolve(preferred);
    }
    if !(root <= resolved) {
      return Escapes;
    }
    if resolved in claimed {
      return Collides;
    }
    return Chosen(preferred);
  }

  /** Canonical directories reserved in the order of the specs. */
  method Reserve(root: Path, specs: seq<Spec>) returns (reserved: map<Path, string>)
    ensures reserved == Reserved(root, specs)
  {
    hide Resolve;
    reserved := map[];
    for i := 0 to |specs|
      invariant reserved == Reserved(root, specs[..i])
    {
      assert specs[..i + 1][..i] == specs[..i];
      reserved := reserved[Resolve(Canonical(root, specs[i])) := specs[i].name];
    }
    assert specs[..|specs|] == specs;
  }

  /** The loop, with its reservations, its set of claimed directories and its dictionary of selections. */
  method ChooseTargetDirs(root: Path, specs: seq<Spec>, manifest: Targets, world: World)
    returns (r: Allocation, selected: map<string, Path>)
    ensures r == Allocate(root, specs, manifest, world, |specs|)
    ensures r.Allocated? ==> selected == Named(specs, r.dirs)
    ensures Resolve(root) == root && DistinctTargets(specs) ==> r.Allocated? && IsolatedSelection(root, specs, selected)
  {
    hide Resolve, ChooseDir, Select, Claimed, Reserved, Allocate, Named, DistinctTargets, IsolatedSelection;
    if Resolve(root) == root && DistinctTargets(specs) {
      SelectionIsIsolated(root, specs, manifest, world);
    }
    var reserved := Reserve(root, specs);
    var claimed: set<Path> := {};
    var dirs: seq<Path> := [];
    selected := map[];
    StartsEmpty(root, specs, manifest, world);
    for i := 0 to |specs|
      invariant Allocate(root, specs, manifest, world, i) == Allocated(dirs) && |dirs| == i
      invariant claimed == Claimed(dirs) && selected == Named(specs, dirs)
    {
      var choice := ChooseOne(root, specs[i], manifest, world, claimed, reserved);
      AllocateError(root, specs, manifest, world, i + 1);
      AllocateNext(root, specs, manifest, world, dirs, choice);
      match choice {
        case Escapes => return EscapeError(specs[i].name), selected;
        case Collides => return CollisionError(specs[i].name), selected;
        case Chosen(dir) =>
          ClaimedSnoc(dirs, dir);
          NamedSnoc(specs, dirs, dir);
          claimed := claimed + {Resolve(dir)};
          dirs := dirs + [dir];
          selected := selected[specs[i].name := dir];
      }
    }
    return Allocated(dirs), selected;
  }

  lemma StartsEmpty(root: Path, specs: seq<Spec>, manifest: Targets, world: World)
    ensures Claimed([]) == {} && Named(specs, []) == map[] && Allocate(root, specs, manifest, world, 0) == Allocated([])
  {}

  /** One turn decides the allocation of one more target. */
  lemma AllocateNext(root: Path, specs: seq<Spec>, manifest: Targets, world: World, dirs: seq<Path>, choice: Choice)
    requires |dirs| < |specs| && Allocate(root, specs, manifest, world, |dirs|) == Allocated(dirs)
    requires var spec := specs[|dirs|];
             choice == Select(root, spec, ChooseDir(root, spec, manifest, world), Claimed(dirs), Reserved(root, specs))
    ensures Allocate(root, specs, manifest, world, |dirs| + 1) ==
      match choice
      case Chosen(dir) => Allocated(dirs + [dir])
      case Escapes => EscapeError(specs[|dirs|].name)
      case Collides => CollisionError(specs[|dirs|].name)
  {
    hide Select, ChooseDir, Claimed, Reserved;
  }

  lemma NamedSnoc(specs: seq<Spec>, dirs: seq<Path>, dir: Path)
    requires |dirs| < |specs|
    ensures Named(specs, dirs + [dir]) == Named(specs, dirs)[specs[|dirs|].name := dir]
  {
    assert (dirs + [dir])[..|dirs|] == dirs;
  }

  /** Distinct names: the dictionary holds every target's own directory. */
  lemma {:induction false} NamedFinds(specs: seq<Spec>, dirs: seq<Path>)
    requires |dirs| <= |specs| && DistinctTargets(specs)
    ensures forall i :: 0 <= i < |dirs| ==>
      specs[i].name in Named(specs, dirs) && Named(specs, dirs)[specs[i].name] == dirs[i]
  {
    if dirs != [] {
      NamedFinds(specs, dirs[..|dirs| - 1]);
    }
  }

  lemma ClaimedSnoc(dirs: seq<Path>, d: Path)
    ensures Claimed(dirs + [d]) == Claimed(dirs) + {Resolve(d)}
  {
    hide Resolve;
    var all := dirs + [d];
    forall x
      ensures x in Claimed(all) <==> x in Claimed(dirs) || x == Resolve(d)
    {
      if x in Claimed(dirs) {
        var i :| 0 <= i < |dirs| && Resolve(dirs[i]) == x;
        assert all[i] == dirs[i];
      }
      if x == Resolve(d) {
        assert all[|dirs|] == d;
      }
    }
  }

  /** An error stops the pass. */
  lemma {:induction false} AllocateError(root: Path, specs: seq<Spec>, manifest: Targets, world: World, n: nat)
    requires n <= |specs|
    ensures !Allocate(root, specs, manifest, world, n).Allocated? ==>
      Allocate(root, specs, manifest, world, |specs|) == Allocate(root, specs, manifest, world, n)
    decreases |specs| - n
  {
    hide Select, ChooseDir;
    if n < |specs| {
      AllocateError(root, specs, manifest, world, n + 1);
    }
  }

  // ----- Isolation -----

  /** The reservations of distinct canonical directories: each names its one owner. */
  lemma {:induction false} ReservedOwners(root: Path, specs: seq<Spec>)
    requires forall i, j :: 0 <= i < j < |specs| ==>
      Resolve(Canonical(root, specs[i])) != Resolve(Canonical(root, specs[j]))
    ensures forall i :: 0 <= i < |specs| ==>
      Resolve(Canonical(root, specs[i])) in Reserved(root, specs)
        && Reserved(root, specs)[Resolve(Canonical(root, specs[i]))] == specs[i].name
  {
    hide Resolve;
    if specs != [] {
      var n := |specs| - 1;
      ReservedOwners(root, specs[..n]);
      forall i | 0 <= i < |specs|
        ensures Resolve(Canonical(root, specs[i])) in Reserved(root, specs)
        ensures Reserved(root, specs)[Resolve(Canonical(root, specs[i]))] == specs[i].name
      {
        if i < n {
          assert specs[..n][i] == specs[i];
        }
      }
    }
  }

  /** Resolving a canonical directory leaves it as it is. */
  lemma {:induction false} PlainResolves(root: Path, parts: Parts)
    requires Resolve(root) == root && Plain(parts)
    ensures Resolve(root + parts) == root + parts
  {
    hide Resolve, ProperPart;
    var p := root + parts;
    if parts == [] {
      assert p == root;
    } else {
      var n := |parts| - 1;
      PlainResolves(root, parts[..n]);
      ResolveOne(root + parts[..n], parts[n]);
      assert p == root + parts[..n] + [parts[n]];
    }
  }

  lemma ResolveOne(p: Path, part: string)
    requires part != ".."
    ensures Resolve(p + [part]) == Resolve(p) + [part]
  {
    assert (p + [part])[..|p|] == p;
  }

  /** Canonical directories of the table: distinct, and inside the root. */
  lemma CanonicalDirs(root: Path, specs: seq<Spec>)
    requires Resolve(root) == root && DistinctTargets(specs)
    ensures forall i :: 0 <= i < |specs| ==> Resolve(Canonical(root, specs[i])) == root + specs[i].canonicalDir
    ensures forall i :: 0 <= i < |specs| ==> Inside(root, Canonical(root, specs[i]))
    ensures forall i, j :: 0 <= i < j < |specs| ==>
      Resolve(Canonical(root, specs[i])) != Resolve(Canonical(root, specs[j]))
  {
    hide Resolve;
    forall i | 0 <= i < |specs|
      ensures Resolve(Canonical(root, specs[i])) == root + specs[i].canonicalDir
    {
      PlainResolves(root, specs[i].canonicalDir);
    }
    forall i, j | 0 <= i < j < |specs|
      ensures root + specs[i].canonicalDir != root + specs[j].canonicalDir
    {
      assert specs[i].canonicalDir == (root + specs[i].canonicalDir)[|root|..];
      assert specs[j].canonicalDir == (root + specs[j].canonicalDir)[|root|..];
    }
  }

  /** Every selected directory is inside the root, and no two resolve to the same place. */
  lemma {:induction false} Isolated(root: Path, specs: seq<Spec>, manifest: Targets, world: World, n: nat)
    requires n <= |specs| && Allocate(root, specs, manifest, world, n).Allocated?
    ensures var dirs := Allocate(root, specs, manifest, world, n).dirs;
            && (forall i :: 0 <= i < n ==> Inside(root, dirs[i]))
            && forall i, j :: 0 <= i < j < n ==> Resolve(dirs[i]) != Resolve(dirs[j])
  {
    hide Resolve, ChooseDir, Inside;
    if n > 0 {
      Isolated(root, specs, manifest, world, n - 1);
      var dirs := Allocate(root, specs, manifest, world, n - 1).dirs;
      var all := Allocate(root, specs, manifest, world, n).dirs;
      forall i | 0 <= i < n - 1
        ensures Resolve(all[i]) != Resolve(all[n - 1])
      {
        assert all[i] == dirs[i];
        assert Resolve(dirs[i]) in Claimed(dirs);
      }
    }
  }

  /**
   With distinct canonical directories the pass never fails, for any manifest and any file system, and no
   target is given a directory reserved for another.
   */
  lemma {:induction false} NeverFails(root: Path, specs: seq<Spec>, manifest: Targets, world: World, n: nat)
    requires Resolve(root) == root && DistinctTargets(specs) && n <= |specs|
    ensures var r := Allocate(root, specs, manifest, world, n);
            r.Allocated? && forall i, j :: 0 <= i < n && 0 <= j < |specs| && i != j ==>
              Resolve(r.dirs[i]) != Resolve(Canonical(root, specs[j]))
  {
    hide Resolve, ChooseDir, Select;
    if n > 0 {
      NeverFails(root, specs, manifest, world, n - 1);
      CanonicalDirs(root, specs);
      ReservedOwners(root, specs);
      var before := Allocate(root, specs, manifest, world, n - 1).dirs;
      var spec := specs[n - 1];
      forall i | 0 <= i < |before|
        ensures Resolve(before[i]) != Resolve(Canonical(root, spec))
      {}
      assert Resolve(Canonical(root, spec)) !in Claimed(before);
      SelectSucceeds(root, specs, n - 1, ChooseDir(root, spec, manifest, world), Claimed(before));
    }
  }

  lemma SelectSucceeds(root: Path, specs: seq<Spec>, k: nat, preferred: Path, claimed: set<Path>)
    requires k < |specs| && DistinctTargets(specs)
    requires Inside(root, Canonical(root, specs[k])) && Resolve(Canonical(root, specs[k])) !in claimed
    requires forall i, j :: 0 <= i < j < |specs| ==>
      Resolve(Canonical(root, specs[i])) != Resolve(Canonical(root, specs[j]))
    requires forall i :: 0 <= i < |specs| ==>
      Resolve(Canonical(root, specs[i])) in Reserved(root, specs)
        && Reserved(root, specs)[Resolve(Canonical(root, specs[i]))] == specs[i].name
    ensures var c := Select(root, specs[k], preferred, claimed, Reserved(root, specs));
            c.Chosen? && forall j :: 0 <= j < |specs| && j != k ==> Resolve(c.dir) != Resolve(Canonical(root, specs[j]))
  {
    hide Resolve, Reserved;
    var c := Select(root, specs[k], preferred, claimed, Reserved(root, specs));
    forall j | 0 <= j < |specs| && j != k
      ensures Resolve(c.dir) != Resolve(Canonical(root, specs[j]))
    {
      assert specs[j].name != specs[k].name;
      if c.dir == Canonical(root, specs[k]) {
        assert Resolve(Canonical(root, specs[j])) != Resolve(Canonical(root, specs[k]));
      }
    }
  }

  // ----- The dictionary of selections -----

  /**
   Exactly the targets are selected, each inside the root, no two at one place, and none at a directory
   that is canonical for another.
   */
  ghost predicate IsolatedSelection(root: Path, specs: seq<Spec>, selected: map<string, Path>) {
    && (forall name :: name in selected <==> exists i :: 0 <= i < |specs| && specs[i].name == name)
    && (forall i :: 0 <= i < |specs| ==> Inside(root, selected[specs[i].name]))
    && (forall i, j :: 0 <= i < j < |specs| ==>
          Resolve(selected[specs[i].name]) != Resolve(selected[specs[j].name]))
    && forall i, j :: 0 <= i < |specs| && 0 <= j < |specs| && i != j ==>
         Resolve(selected[specs[i].name]) != Resolve(Canonical(root, specs[j]))
  }

  lemma {:induction false} NamedKeys(specs: seq<Spec>, dirs: seq<Path>, name: string)
    requires |dirs| <= |specs|
    ensures name in Named(specs, dirs) <==> exists i :: 0 <= i < |dirs| && specs[i].name == name
  {
    if dirs != [] {
      NamedKeys(specs, dirs[..|dirs| - 1], name);
    }
  }

  /** For every manifest and every file system the returned dictionary isolates the targets. */
  lemma SelectionIsIsolated(root: Path, specs: seq<Spec>, manifest: Targets, world: World)
    requires Resolve(root) == root && DistinctTargets(specs)
    ensures var r := Allocate(root, specs, manifest, world, |specs|);
            r.Allocated? && IsolatedSelection(root, specs, Named(specs, r.dirs))
  {
    hide Resolve, Allocate, DistinctTargets, Inside, Named, Canonical;
    NeverFails(root, specs, manifest, world, |specs|);
    Isolated(root, specs, manifest, world, |specs|);
    var dirs := Allocate(root, specs, manifest, world, |specs|).dirs;
    NamedFinds(specs, dirs);
    forall name
      ensures name in Named(specs, dirs) <==> exists i :: 0 <= i < |specs| && specs[i].name == name
    {
      NamedKeys(specs, dirs, name);
    }
  }
}
