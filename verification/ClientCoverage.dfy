/**
 The client directories that belong to no standard target: the list of extensions, the directories the
 contract manifest then declares, and the check that finds none of them uncovered.
 */
module ClientCoverage {
  import opened Ordering
  import opened TargetTable
  import opened TargetAllocator
  import opened Rerun

  const CLIENTS := ["clients"]

  predicate Visible(child: string) {
    child != "" && child[0] != '.'
  }

  /** A target owns its directory and every ancestor of it under the clients directory. */
  predicate Owns(dirs: seq<Path>, place: Path) {
    exists i :: 0 <= i < |dirs| && place <= Resolve(dirs[i])
  }

  /** In the order of names, each once. */
  ghost predicate Increasing(names: seq<string>) {
    forall i, j :: 0 <= i < j < |names| ==> CodePointLess()(names[i], names[j])
  }

  /** Distinct names, sorted. */
  method SortNames(names: seq<string>) returns (sorted: seq<string>)
    requires Distinct(names)
    ensures Increasing(sorted) && forall c :: c in sorted <==> c in names
  {
    CodePointLessTotal();
    sorted := Sort(Itself, CodePointLess(), names);
    SortSorts(Itself, CodePointLess(), names);
    SameMembers(names, sorted);
    SortedDistinct(sorted);
  }

  lemma SortedDistinct(names: seq<string>)
    requires Distinct(names) && SortedBy(Itself, CodePointLess(), names)
    ensures Increasing(names)
  {
    CodePointLessTotal();
    hide CodePointLess;
  }

  lemma NothingIncreases()
    ensures Increasing([])
  {}

  lemma EarlierIsLess(sorted: seq<string>, n: nat, names: seq<string>)
    requires Increasing(sorted) && n < |sorted| && forall c :: c in names ==> c in sorted[..n]
    ensures forall c :: c in names ==> CodePointLess()(c, sorted[n])
  {
    hide CodePointLess;
    forall c | c in names
      ensures CodePointLess()(c, sorted[n])
    {
      var i :| 0 <= i < n && sorted[..n][i] == c;
      assert CodePointLess()(sorted[i], sorted[n]);
    }
  }

  lemma IncreasingSnoc(names: seq<string>, c: string)
    requires Increasing(names) && forall x :: x in names ==> CodePointLess()(x, c)
    ensures Increasing(names + [c])
  {
    hide CodePointLess;
  }

  lemma OwnsIs(dirs: seq<Path>, place: Path)
    ensures Owns(dirs, place) <==> exists k :: 0 <= k < |dirs| && place <= Resolve(dirs[k])
  {
    hide Resolve;
  }

  /** The visible children of the clients directory that no target owns, in the order of their names. */
  method ExtensionClientDirs(root: Path, children: seq<string>, dirs: seq<Path>) returns (extensions: seq<string>)
    requires Distinct(children)
    ensures Increasing(extensions)
    ensures forall c :: c in extensions <==> c in children && Visible(c) && !Owns(dirs, root + CLIENTS + [c])
  {
    hide Owns, Distinct, CodePointLess, Increasing, Resolve;
    NothingIncreases();
    var sorted := SortNames(children);
    extensions := [];
    for i := 0 to |sorted|
      invariant forall c :: c in extensions <==> c in sorted[..i] && Visible(c) && !Owns(dirs, root + CLIENTS + [c])
      invariant Increasing(extensions)
    {
      assert sorted[..i + 1] == sorted[..i] + [sorted[i]];
      var resolved := root + ["clients"] + [sorted[i]];
      var owned := false;
      for j := 0 to |dirs|
        invariant owned <==> exists k :: 0 <= k < j && resolved <= Resolve(dirs[k])
      {
        var directory := Resolve(dirs[j]);
        owned := owned || directory == resolved || resolved <= directory;
      }
      OwnsIs(dirs, resolved);
      if sorted[i] != "" && !("." <= sorted[i]) && !owned {
        EarlierIsLess(sorted, i, extensions);
        IncreasingSnoc(extensions, sorted[i]);
        extensions := extensions + [sorted[i]];
      }
    }
    assert sorted[..|sorted|] == sorted;
  }

  // ----- The check -----

  /** A declared directory, as the check resolves it, is the child or lies in it. */
  predicate CoveredBy(root: Path, declared: string, child: string) {
    root + CLIENTS + [child] <= Resolve(Join(root, ParseDir(declared)))
  }

  predicate Covered(root: Path, declared: seq<string>, child: string) {
    exists i :: 0 <= i < |declared| && CoveredBy(root, declared[i], child)
  }

  lemma CoveredIs(root: Path, declared: string, child: string)
    ensures var d := ParseDir(declared);
            CoveredBy(root, declared, child) <==>
              root + ["clients"] + [child] <= Resolve(if d.absolute then d.parts else root + d.parts)
  {}

  /** The visible children that no declared directory covers, in the order of their names. */
  method Uncovered(root: Path, children: seq<string>, declared: seq<string>) returns (uncovered: seq<string>)
    requires Distinct(children)
    ensures Increasing(uncovered)
    ensures forall c :: c in uncovered <==> c in children && Visible(c) && !Covered(root, declared, c)
  {
    hide CoveredBy, CodePointLess, Resolve, ParseDir;
    var found: seq<string> := [];
    for i := 0 to |children|
      invariant forall c :: c in found <==> c in children[..i] && Visible(c) && !Covered(root, declared, c)
      invariant Distinct(found)
    {
      assert children[..i + 1] == children[..i] + [children[i]];
      var covered := false;
      for j := 0 to |declared|
        invariant covered <==> exists k :: 0 <= k < j && CoveredBy(root, declared[k], children[i])
      {
        var place := ParseDir(declared[j]);
        var resolved := Resolve(if place.absolute then place.parts else root + place.parts);
        CoveredIs(root, declared[j], children[i]);
        covered := covered || root + ["clients"] + [children[i]] <= resolved;
      }
      assert covered <==> Covered(root, declared, children[i]);
      var visible := children[i] != "" && children[i][0] != '.';
      assert visible <==> Visible(children[i]);
      if visible && !covered {
        found := found + [children[i]];
      }
    }
    assert children[..|children|] == children;
    uncovered := SortNames(found);
  }

  // ----- What the contract manifest declares -----

  /** The directories written for the targets, and those written for the extensions. */
  function TargetDirs(root: Path, dirs: seq<Path>): seq<string>
    requires forall i :: 0 <= i < |dirs| ==> root <= dirs[i]
  {
    seq(|dirs|, i requires 0 <= i < |dirs| => Posix(dirs[i][|root|..]))
  }

  function ExtensionDirs(extensions: seq<string>): seq<string> {
    seq(|extensions|, i requires 0 <= i < |extensions| => Posix(CLIENTS + [extensions[i]]))
  }

  predicate ChildName(c: string) {
    ProperPart(c) && c != ".."
  }

  lemma WrittenDir(root: Path, dir: Path)
    requires root <= dir && ProperBelow(root, dir)
    ensures Join(root, ParseDir(Posix(dir[|root|..]))) == dir
  {
    hide Posix, ScanParts, Proper;
    PosixRoundTrip(dir[|root|..]);
    assert root + dir[|root|..] == dir;
  }

  lemma ExtensionResolves(root: Path, child: string)
    requires Resolve(root) == root && ChildName(child)
    ensures Resolve(root + CLIENTS + [child]) == root + CLIENTS + [child]
  {
    hide Resolve, ProperPart;
    ResolveOne(root, "clients");
    assert CLIENTS == ["clients"];
    ResolveOne(root + CLIENTS, child);
  }

  lemma ExtensionIsProper(root: Path, child: string)
    requires ChildName(child)
    ensures root <= root + CLIENTS + [child] && ProperBelow(root, root + CLIENTS + [child])
    ensures (root + CLIENTS + [child])[|root|..] == CLIENTS + [child]
  {
    hide ProperPart;
    BelowClients(root, child);
    ClientsIsProper();
    assert Proper(CLIENTS + [child]);
  }

  lemma ClientsIsProper()
    ensures ProperPart("clients")
  {}

  lemma BelowClients(root: Path, child: string)
    ensures (root + CLIENTS + [child])[|root|..] == CLIENTS + [child]
  {
    assert root + CLIENTS + [child] == root + (CLIENTS + [child]);
  }

  lemma NoneLeft(names: seq<string>)
    ensures names == [] || exists c :: c in names
  {
    if names != [] {
      assert names[0] in names;
    }
  }

  /** A child that a target owns, or that is an extension, is covered by what is declared. */
  lemma DeclaredCovers(root: Path, dirs: seq<Path>, extensions: seq<string>, child: string)
    requires Resolve(root) == root && ChildName(child)
    requires forall i :: 0 <= i < |dirs| ==> root <= dirs[i] && ProperBelow(root, dirs[i])
    requires Owns(dirs, root + CLIENTS + [child]) || child in extensions
    ensures Covered(root, TargetDirs(root, dirs) + ExtensionDirs(extensions), child)
  {
    hide Resolve, Posix, ParseDir, ProperBelow, ChildName, Join;
    var declared := TargetDirs(root, dirs) + ExtensionDirs(extensions);
    var place := root + CLIENTS + [child];
    if i :| 0 <= i < |dirs| && place <= Resolve(dirs[i]) {
      WrittenDir(root, dirs[i]);
      assert declared[i] == Posix(dirs[i][|root|..]);
      assert CoveredBy(root, declared[i], child);
    } else {
      var i :| 0 <= i < |extensions| && extensions[i] == child;
      ExtensionResolves(root, child);
      ExtensionIsProper(root, child);
      WrittenDir(root, place);
      assert declared[|dirs| + i] == Posix(place[|root|..]);
      assert CoveredBy(root, declared[|dirs| + i], child);
    }
  }

  /**
   The extensions written beside the targets and then checked: whatever the children of the clients
   directory and wherever the targets are below the root, the check finds none uncovered.
   */
  method DeclareAndCheck(root: Path, children: seq<string>, dirs: seq<Path>) returns (extensions: seq<string>,
      uncovered: seq<string>)
    requires Resolve(root) == root && Distinct(children) && forall c :: c in children ==> ChildName(c)
    requires forall i :: 0 <= i < |dirs| ==> root <= dirs[i] && ProperBelow(root, dirs[i])
    ensures forall c :: c in children && Visible(c) ==> (c in extensions <==> !Owns(dirs, root + CLIENTS + [c]))
    ensures uncovered == []
  {
    hide Resolve, Owns, Covered, ProperBelow, ChildName, Distinct, Increasing, TargetDirs, ExtensionDirs;
    extensions := ExtensionClientDirs(root, children, dirs);
    var declared := TargetDirs(root, dirs) + ExtensionDirs(extensions);
    uncovered := Uncovered(root, children, declared);
    forall c | c in children && Visible(c)
      ensures Covered(root, declared, c)
    {
      DeclaredCovers(root, dirs, extensions, c);
    }
    NoneLeft(uncovered);
  }
}
