/**
 Migration of a manifest's targets: alias tables are folded into the published target they belong to,
 the canonical value winning, and every alias name disappears.
 */
module ManifestMigration {
  import opened Patterns
  import opened Bytes
  import opened TargetTable

  // ----- Deep merge -----

  /** Both tables' keys; where both hold a table the two are merged, and otherwise the current value stays. */
  function Merge(current: Value, legacy: Value): (r: Value)
    requires current.Table? && legacy.Table?
    ensures r.Table?
    decreases legacy
  {
    Table(map k | k in current.entries.Keys + legacy.entries.Keys :: Entry(current, legacy, k))
  }

  function Entry(current: Value, legacy: Value, k: string): Value
    requires current.Table? && legacy.Table? && (k in current.entries || k in legacy.entries)
    decreases legacy, 0
  {
    if k !in current.entries then legacy.entries[k]
    else if k in legacy.entries && current.entries[k].Table? && legacy.entries[k].Table?
    then Merge(current.entries[k], legacy.entries[k])
    else current.entries[k]
  }

  method MergeMissingTable(current: Value, legacy: Value) returns (merged: Value)
    requires current.Table? && legacy.Table?
    ensures merged == Merge(current, legacy)
    decreases legacy
  {
    var table := current.entries;
    var rest := legacy.entries.Keys;
    while rest != {}
      invariant rest <= legacy.entries.Keys
      invariant table.Keys == current.entries.Keys + (legacy.entries.Keys - rest)
      invariant forall k :: k in table ==> table[k] == if k in rest then current.entries[k]
        else Entry(current, legacy, k)
      decreases rest
    {
      var key :| key in rest;
      rest := rest - {key};
      if key in table {
        if table[key].Table? && legacy.entries[key].Table? {
          var deeper := MergeMissingTable(table[key], legacy.entries[key]);
          table := table[key := deeper];
        }
      } else {
        table := table[key := legacy.entries[key]];
      }
    }
    merged := Table(table);
    assert table == Merge(current, legacy).entries;
  }

  lemma MergeAt(current: Value, legacy: Value, k: string)
    requires current.Table? && legacy.Table?
    ensures k in Merge(current, legacy).entries <==> k in current.entries || k in legacy.entries
    ensures k in Merge(current, legacy).entries ==> Merge(current, legacy).entries[k] == Entry(current, legacy, k)
  {}

  /** The leaf at a path of keys: a value that is no table. */
  function LeafAt(t: Value, path: seq<string>): Option<Value> {
    if path == [] then (if t.Table? then None else Some(t))
    else if t.Table? && path[0] in t.entries then LeafAt(t.entries[path[0]], path[1..])
    else None
  }

  /** The table already decides what stands at the path: it binds the path, or a leaf stands in the way. */
  predicate Shadows(t: Value, path: seq<string>) {
    path == [] || !t.Table? || (path[0] in t.entries && Shadows(t.entries[path[0]], path[1..]))
  }

  lemma {:induction false} LeafShadows(t: Value, path: seq<string>)
    ensures LeafAt(t, path).Some? ==> Shadows(t, path)
  {
    if path != [] && t.Table? && path[0] in t.entries {
      LeafShadows(t.entries[path[0]], path[1..]);
    }
  }

  /** Every leaf of a merge: the current one where the current table decides, and otherwise the legacy one. */
  lemma {:induction false} MergeLeaf(current: Value, legacy: Value, path: seq<string>)
    requires current.Table? && legacy.Table?
    ensures LeafAt(Merge(current, legacy), path) ==
      if Shadows(current, path) then LeafAt(current, path) else LeafAt(legacy, path)
    decreases path
  {
    if path != [] {
      var k := path[0];
      if k in current.entries && k in legacy.entries && current.entries[k].Table? && legacy.entries[k].Table? {
        MergeLeaf(current.entries[k], legacy.entries[k], path[1..]);
      } else if k in current.entries && k in legacy.entries && current.entries[k].Table? {
        if |path| > 1 {
          LeafBelow(legacy.entries[k], path[1..]);
        }
        UnshadowedLeaf(current.entries[k], path[1..]);
      } else if k in current.entries {
        UnshadowedLeaf(current.entries[k], path[1..]);
      }
    }
  }

  /** A leaf has nothing below it. */
  lemma LeafBelow(t: Value, path: seq<string>)
    requires !t.Table? && path != []
    ensures LeafAt(t, path) == None
  {}

  lemma UnshadowedLeaf(t: Value, path: seq<string>)
    ensures !Shadows(t, path) ==> LeafAt(t, path) == None && path != []
  {
    LeafShadows(t, path);
  }

  /** Merging decides no path that neither table decided. */
  lemma {:induction false} MergeShadows(current: Value, legacy: Value, path: seq<string>)
    requires current.Table? && legacy.Table?
    ensures Shadows(current, path) ==> Shadows(Merge(current, legacy), path)
    ensures Shadows(Merge(current, legacy), path) ==> Shadows(current, path) || Shadows(legacy, path)
    decreases path
  {
    if path != [] {
      var k := path[0];
      MergeAt(current, legacy, k);
      if k in current.entries && k in legacy.entries && current.entries[k].Table? && legacy.entries[k].Table? {
        MergeShadows(current.entries[k], legacy.entries[k], path[1..]);
      }
    }
  }

  /** Merging a table with itself, or twice with the same one, changes nothing more. */
  lemma {:induction false} MergeAbsorbs(current: Value, legacy: Value)
    requires current.Table? && legacy.Table?
    ensures Merge(Merge(current, legacy), legacy) == Merge(current, legacy)
    decreases legacy
  {
    var once := Merge(current, legacy);
    forall k | k in once.entries
      ensures Entry(once, legacy, k) == once.entries[k]
    {
      MergeAt(current, legacy, k);
      if k in legacy.entries && once.entries[k].Table? && legacy.entries[k].Table? {
        if k in current.entries {
          MergeAbsorbs(current.entries[k], legacy.entries[k]);
        } else {
          MergeSelf(legacy.entries[k]);
        }
      }
    }
    assert Merge(once, legacy).entries == once.entries;
  }

  lemma {:induction false} MergeSelf(t: Value)
    requires t.Table?
    ensures Merge(t, t) == t
  {
    forall k | k in t.entries
      ensures Entry(t, t, k) == t.entries[k]
    {
      if t.entries[k].Table? {
        MergeSelf(t.entries[k]);
      }
    }
    assert Merge(t, t).entries == t.entries;
  }

  // ----- One published target -----

  const EMPTY: Value := Table(map[])

  /** The tables found under the given names, folded together in order. */
  function Gather(targets: Targets, acc: Value, names: seq<string>): (r: Value)
    requires acc.Table?
    ensures r.Table?
    decreases |names|
  {
    if names == [] then acc
    else Gather(targets, if IsTable(targets, names[0]) then Merge(acc, targets[names[0]]) else acc, names[1..])
  }

  predicate IsTable(targets: Targets, name: string) {
    name in targets && targets[name].Table?
  }

  predicate LowerOrDigit(c: char) {
    'a' <= c <= 'z' || '0' <= c <= '9'
  }

  /** Lower-case letters, digits and inner hyphens, two characters at least. */
  predicate ValidName(s: string) {
    && |s| >= 2 && LowerOrDigit(s[0]) && LowerOrDigit(s[|s| - 1])
    && forall i :: 0 <= i < |s| ==> LowerOrDigit(s[i]) || s[i] == '-'
  }

  /** `^[a-z0-9][a-z0-9-]*[a-z0-9]$` */
  function NamePattern(): Pattern {
    var edge := (c: char) => 'a' <= c <= 'z' || '0' <= c <= '9';
    var inner := (c: char) => 'a' <= c <= 'z' || '0' <= c <= '9' || c == '-';
    Then(One(edge), Then(Repeat(inner, 0, None), One(edge)))
  }

  lemma NameMatches(s: string)
    ensures Matches(NamePattern(), s) <==> ValidName(s)
  {
    var p := NamePattern();
    var inner := p.second.first;
    OneThen(p.first.among, p.second, s);
    if s != "" {
      ThenOne(inner, p.second.second.among, s[1..]);
      if |s| >= 2 {
        var m := s[1..][..|s| - 2];
        assert s[1..][|s| - 2] == s[|s| - 1];
        assert forall i :: 0 <= i < |m| ==> m[i] == s[i + 1];
        assert forall i :: 0 < i < |s| - 1 ==> s[i] == m[i - 1];
      }
    }
  }

  predicate BadName(table: Value) {
    table.Table? && "name" in table.entries && table.entries["name"].Text? && !ValidName(table.entries["name"].text)
  }

  /** The fields the migration owns: the directory, the adapter, and a name that is not valid. */
  function Finish(table: Value, dir: Parts, adapter: string): (r: Value)
    requires table.Table?
    ensures r.Table?
  {
    var owned := table.entries["dir" := Text(Posix(dir))]["adapter" := Text(adapter)];
    Table(if BadName(Table(owned)) then owned - {"name"} else owned)
  }

  function Aliases(spec: Spec): set<string> {
    set a | a in spec.zedAliases
  }

  function Merged(targets: Targets, spec: Spec): (r: Value)
    ensures r.Table?
  {
    Gather(targets, EMPTY, [spec.zedTarget] + spec.zedAliases)
  }

  function Migrated(targets: Targets, spec: Spec, dir: Parts): Targets {
    if !spec.publish then targets - Aliases(spec)
    else
      (targets - Aliases(spec))[spec.zedTarget := Finish(Merged(targets, spec), dir, spec.adapter)]
  }

  function MigratedAll(targets: Targets, specs: seq<Spec>, dirs: seq<Parts>, n: nat): Targets
    requires n <= |specs| && n <= |dirs|
  {
    if n == 0 then targets else Migrated(MigratedAll(targets, specs, dirs, n - 1), specs[n - 1], dirs[n - 1])
  }

  /** The leaf of the first table that decides nothing earlier: kept, and no leaf comes from elsewhere. */
  lemma {:induction false} GatherLeaf(targets: Targets, acc: Value, names: seq<string>, path: seq<string>)
    requires acc.Table?
    ensures Shadows(acc, path) ==> LeafAt(Gather(targets, acc, names), path) == LeafAt(acc, path)
    ensures forall i :: 0 <= i < |names| && IsTable(targets, names[i]) && LeafAt(targets[names[i]], path).Some?
                        && !Shadows(acc, path)
                        && (forall j :: 0 <= j < i && IsTable(targets, names[j]) ==> !Shadows(targets[names[j]], path))
                        ==> LeafAt(Gather(targets, acc, names), path) == LeafAt(targets[names[i]], path)
    ensures LeafAt(Gather(targets, acc, names), path).Some? ==>
      LeafAt(Gather(targets, acc, names), path) == LeafAt(acc, path)
      || exists i :: 0 <= i < |names| && IsTable(targets, names[i])
                     && LeafAt(Gather(targets, acc, names), path) == LeafAt(targets[names[i]], path)
    decreases |names|
  {
    hide Merge, LeafAt, Shadows;
    if names != [] {
      var name := names[0];
      var next := if IsTable(targets, name) then Merge(acc, targets[name]) else acc;
      GatherLeaf(targets, next, names[1..], path);
      if IsTable(targets, name) {
        MergeLeaf(acc, targets[name], path);
        MergeShadows(acc, targets[name], path);
      }
      var all := LeafAt(Gather(targets, acc, names), path);
      assert all == LeafAt(Gather(targets, next, names[1..]), path);
      if all.Some? && all != LeafAt(next, path) {
        var i :| 0 <= i < |names| - 1 && IsTable(targets, names[1..][i]) && all == LeafAt(targets[names[1..][i]], path);
        assert names[i + 1] == names[1..][i];
      }
      forall i | 0 <= i < |names| && IsTable(targets, names[i]) && LeafAt(targets[names[i]], path).Some?
        && !Shadows(acc, path)
                 && (forall j :: 0 <= j < i && IsTable(targets, names[j]) ==> !Shadows(targets[names[j]], path))
        ensures all == LeafAt(targets[names[i]], path)
      {
        if i > 0 {
          assert names[1..][i - 1] == names[i];
          assert names[0] == name;
        } else {
          LeafShadows(next, path);
        }
      }
    }
  }

  // ----- Every target -----

  /** Folding looks at nothing but the named entries. */
  lemma {:induction false} GatherFrame(a: Targets, b: Targets, acc: Value, names: seq<string>)
    requires acc.Table?
    requires forall i :: 0 <= i < |names| ==>
      (names[i] in a <==> names[i] in b) && (names[i] in a ==> a[names[i]] == b[names[i]])
    ensures Gather(a, acc, names) == Gather(b, acc, names)
    decreases |names|
  {
    hide Merge;
    if names != [] {
      assert names[0] in a <==> names[0] in b;
      GatherFrame(a, b, if IsTable(a, names[0]) then Merge(acc, a[names[0]]) else acc, names[1..]);
    }
  }

  /** A published target's own name. */
  predicate Home(specs: seq<Spec>, i: nat, k: string) {
    i < |specs| && specs[i].publish && specs[i].zedTarget == k
  }

  predicate IsAlias(specs: seq<Spec>, n: nat, k: string)
    requires n <= |specs|
  {
    exists i :: 0 <= i < n && k in specs[i].zedAliases
  }

  predicate IsHome(specs: seq<Spec>, n: nat, k: string)
    requires n <= |specs|
  {
    exists i :: 0 <= i < n && Home(specs, i, k)
  }

  predicate SameAt(a: Targets, b: Targets, k: string) {
    (k in a <==> k in b) && (k in a ==> a[k] == b[k])
  }

  lemma Step(specs: seq<Spec>, n: nat, k: string)
    requires 0 < n <= |specs|
    ensures IsAlias(specs, n, k) <==> IsAlias(specs, n - 1, k) || k in specs[n - 1].zedAliases
    ensures IsHome(specs, n, k) <==> IsHome(specs, n - 1, k) || Home(specs, n - 1, k)
  {
    if IsAlias(specs, n - 1, k) {
      var i :| 0 <= i < n - 1 && k in specs[i].zedAliases;
      assert 0 <= i < n && k in specs[i].zedAliases;
    }
  }

  /** What stands under each key after the first `n` targets: alias keys are gone, foreign keys untouched. */
  lemma {:induction false} MigratedAt(targets: Targets, specs: seq<Spec>, dirs: seq<Parts>, n: nat, k: string)
    requires n <= |specs| == |dirs| && DistinctKeys(specs)
    ensures var r := MigratedAll(targets, specs, dirs, n);
            && (IsAlias(specs, n, k) ==> k !in r)
            && (!IsAlias(specs, n, k) && !IsHome(specs, n, k) ==> SameAt(r, targets, k))
            && forall i :: 0 <= i < n && Home(specs, i, k) ==>
               k in r && r[k] == Finish(Merged(targets, specs[i]), dirs[i], specs[i].adapter)
  {
    hide Gather, Finish, Merged;
    if n > 0 {
      MigratedAt(targets, specs, dirs, n - 1, k);
      Step(specs, n, k);
      HomesDiffer(specs, n, k);
      hide IsAlias, IsHome, DistinctKeys;
      var before, spec := MigratedAll(targets, specs, dirs, n - 1), specs[n - 1];
      if spec.publish && k == spec.zedTarget {
        forall name | name == spec.zedTarget || name in spec.zedAliases
          ensures SameAt(before, targets, name)
        {
          MigratedAt(targets, specs, dirs, n - 1, name);
          Untouched(specs, n - 1, name);
        }
        MergedFrame(before, targets, spec);
      }
    }
  }

  lemma MergedFrame(a: Targets, b: Targets, spec: Spec)
    requires forall name :: name == spec.zedTarget || name in spec.zedAliases ==> SameAt(a, b, name)
    ensures Merged(a, spec) == Merged(b, spec)
  {
    hide Gather;
    var names := [spec.zedTarget] + spec.zedAliases;
    assert forall i :: 0 <= i < |names| ==> SameAt(a, b, names[i]);
    GatherFrame(a, b, EMPTY, names);
  }

  /** An alias is nobody's home, and a home has one target. */
  lemma HomesDiffer(specs: seq<Spec>, n: nat, k: string)
    requires 0 < n <= |specs| && DistinctKeys(specs)
    ensures IsHome(specs, |specs|, k) ==> !IsAlias(specs, n, k)
    ensures forall i, j :: Home(specs, i, k) && Home(specs, j, k) ==> i == j
    ensures forall i :: Home(specs, i, k) ==> k !in specs[n - 1].zedAliases
  {}

  /** No earlier target owns a key of a later one. */
  lemma Untouched(specs: seq<Spec>, n: nat, name: string)
    requires n < |specs| && DistinctKeys(specs)
    requires name in specs[n].zedAliases || (specs[n].publish && name == specs[n].zedTarget)
    ensures !IsAlias(specs, n, name) && !IsHome(specs, n, name)
  {}

  /** Migration leaves no alias and touches no key that is neither an alias nor a published target. */
  lemma NoAliasLeft(targets: Targets, specs: seq<Spec>, dirs: seq<Parts>, k: string)
    requires |specs| == |dirs| && DistinctKeys(specs)
    ensures IsAlias(specs, |specs|, k) ==> k !in MigratedAll(targets, specs, dirs, |specs|)
    ensures !IsAlias(specs, |specs|, k) && !IsHome(specs, |specs|, k) ==>
      SameAt(MigratedAll(targets, specs, dirs, |specs|), targets, k)
  {
    hide MigratedAll, SameAt, IsAlias, IsHome;
    MigratedAt(targets, specs, dirs, |specs|, k);
  }

  /** A published target's table afterwards. */
  function Published(targets: Targets, specs: seq<Spec>, dirs: seq<Parts>, i: nat): (r: Value)
    requires i < |specs| == |dirs| && DistinctKeys(specs) && specs[i].publish
    ensures r.Table? && r == Finish(Merged(targets, specs[i]), dirs[i], specs[i].adapter)
  {
    MigratedAt(targets, specs, dirs, |specs|, specs[i].zedTarget);
    assert Home(specs, i, specs[i].zedTarget);
    MigratedAll(targets, specs, dirs, |specs|)[specs[i].zedTarget]
  }

  /** A leaf the migration does not own. */
  predicate Free(path: seq<string>, leaf: Value) {
    && path != [] && path[0] != "dir" && path[0] != "adapter"
    && !(path == ["name"] && leaf.Text? && !ValidName(leaf.text))
  }

  lemma FinishLeaf(table: Value, dir: Parts, adapter: string, path: seq<string>)
    requires table.Table?
    ensures LeafAt(table, path).Some? && Free(path, LeafAt(table, path).value) ==>
      LeafAt(Finish(table, dir, adapter), path) == LeafAt(table, path)
    ensures LeafAt(Finish(table, dir, adapter), path).Some? && path[0] != "dir" && path[0] != "adapter" ==>
      LeafAt(Finish(table, dir, adapter), path) == LeafAt(table, path)
    ensures LeafAt(Finish(table, dir, adapter), ["dir"]) == Some(Text(Posix(dir)))
    ensures LeafAt(Finish(table, dir, adapter), ["adapter"]) == Some(Text(adapter))
    ensures !BadName(Finish(table, dir, adapter))
  {
    hide Posix, ValidName;
    var f := Finish(table, dir, adapter);
    assert LeafAt(f, ["dir"]) == LeafAt(f.entries["dir"], []);
    assert LeafAt(f, ["adapter"]) == LeafAt(f.entries["adapter"], []);
    if path != [] && LeafAt(table, path).Some? && path[0] == "name" && BadName(table) {
      NameIsLeaf(table, path);
    }
  }

  lemma NameIsLeaf(table: Value, path: seq<string>)
    requires path != [] && path[0] == "name" && table.Table? && "name" in table.entries && !table.entries["name"].Table?
    ensures LeafAt(table, path).Some? ==> path == ["name"] && LeafAt(table, path).value == table.entries["name"]
  {
    if |path| > 1 {
      LeafBelow(table.entries["name"], path[1..]);
    } else {
      assert path == ["name"];
    }
  }

  /**
   The metadata of a published target: every leaf of the canonical table stays, and so does every leaf of
   an alias table that no earlier table decides, save the directory, the adapter and an invalid name; and
   no other leaf appears.
   */
  lemma KeepsMetadata(targets: Targets, specs: seq<Spec>, dirs: seq<Parts>, i: nat, path: seq<string>)
    requires i < |specs| == |dirs| && DistinctKeys(specs) && specs[i].publish && path != []
    ensures var names, after := [specs[i].zedTarget] + specs[i].zedAliases, Published(targets, specs, dirs, i);
            && LeafAt(after, ["dir"]) == Some(Text(Posix(dirs[i])))
               && LeafAt(after, ["adapter"]) == Some(Text(specs[i].adapter))
            && !BadName(after)
            && (forall m :: 0 <= m < |names| && IsTable(targets, names[m]) && LeafAt(targets[names[m]], path).Some?
                            && Free(path, LeafAt(targets[names[m]], path).value)
                            && (forall j :: 0 <= j < m && IsTable(targets, names[j]) ==>
                                !Shadows(targets[names[j]], path))
                            ==> LeafAt(after, path) == LeafAt(targets[names[m]], path))
            && (LeafAt(after, path).Some? && path[0] != "dir" && path[0] != "adapter" ==>
                  exists m :: 0 <= m < |names| && IsTable(targets, names[m])
                    && LeafAt(after, path) == LeafAt(targets[names[m]], path))
  {
    hide Gather, Finish, LeafAt, Shadows, BadName, MigratedAll, Posix, Free;
    var names := [specs[i].zedTarget] + specs[i].zedAliases;
    GatherLeaf(targets, EMPTY, names, path);
    EmptyDecidesNothing(path);
    FinishLeaf(Merged(targets, specs[i]), dirs[i], specs[i].adapter, path);
  }

  lemma EmptyDecidesNothing(path: seq<string>)
    requires path != []
    ensures !Shadows(EMPTY, path) && LeafAt(EMPTY, path) == None
  {}

  // ----- A second migration -----

  lemma MergeEmpty(t: Value)
    requires t.Table?
    ensures Merge(EMPTY, t) == t
  {
    assert Merge(EMPTY, t).entries == t.entries;
  }

  lemma {:induction false} GatherAbsent(targets: Targets, acc: Value, names: seq<string>)
    requires acc.Table? && forall i :: 0 <= i < |names| ==> names[i] !in targets
    ensures Gather(targets, acc, names) == acc
    decreases |names|
  {
    hide Merge;
    if names != [] {
      GatherAbsent(targets, acc, names[1..]);
    }
  }

  lemma FinishTwice(table: Value, dir: Parts, adapter: string)
    requires table.Table?
    ensures Finish(Finish(table, dir, adapter), dir, adapter) == Finish(table, dir, adapter)
  {
    hide Posix, ValidName;
    var once := Finish(table, dir, adapter);
    assert !BadName(once);
    assert once.entries["dir" := Text(Posix(dir))]["adapter" := Text(adapter)] == once.entries;
  }

  /** Migrating again with the same directories changes nothing. */
  lemma MigrationIsIdempotent(targets: Targets, specs: seq<Spec>, dirs: seq<Parts>)
    requires |specs| == |dirs| && DistinctKeys(specs)
    ensures var once := MigratedAll(targets, specs, dirs, |specs|);
            MigratedAll(once, specs, dirs, |specs|) == once
  {
    hide MigratedAll;
    var once := MigratedAll(targets, specs, dirs, |specs|);
    forall k
      ensures SameAt(MigratedAll(once, specs, dirs, |specs|), once, k)
    {
      SecondPassAt(targets, specs, dirs, k);
    }
    SameEverywhere(MigratedAll(once, specs, dirs, |specs|), once);
  }

  lemma SameEverywhere(a: Targets, b: Targets)
    requires forall k :: SameAt(a, b, k)
    ensures a == b
  {
    forall k
      ensures k in a <==> k in b
    {
      assert SameAt(a, b, k);
    }
    forall k | k in a
      ensures a[k] == b[k]
    {
      assert SameAt(a, b, k);
    }
  }

  lemma SecondPassAt(targets: Targets, specs: seq<Spec>, dirs: seq<Parts>, k: string)
    requires |specs| == |dirs| && DistinctKeys(specs)
    ensures var once := MigratedAll(targets, specs, dirs, |specs|);
            SameAt(MigratedAll(once, specs, dirs, |specs|), once, k)
  {
    hide MigratedAll, Gather, Finish, DistinctKeys;
    var n, once := |specs|, MigratedAll(targets, specs, dirs, |specs|);
    MigratedAt(targets, specs, dirs, n, k);
    MigratedAt(once, specs, dirs, n, k);
    if i :| 0 <= i < n && Home(specs, i, k) {
      MergedAgain(targets, specs, dirs, i);
      FinishTwice(Merged(targets, specs[i]), dirs[i], specs[i].adapter);
      HomeIsNoAlias(specs, i, k);
    }
  }

  lemma HomeIsNoAlias(specs: seq<Spec>, i: nat, k: string)
    requires DistinctKeys(specs) && Home(specs, i, k)
    ensures !IsAlias(specs, |specs|, k)
  {}

  lemma MergedAgain(targets: Targets, specs: seq<Spec>, dirs: seq<Parts>, i: nat)
    requires i < |specs| == |dirs| && DistinctKeys(specs) && specs[i].publish
    ensures var once := MigratedAll(targets, specs, dirs, |specs|);
            Merged(once, specs[i]) == Finish(Merged(targets, specs[i]), dirs[i], specs[i].adapter)
  {
    hide MigratedAll, Merge, Finish, DistinctKeys;
    var once, spec := MigratedAll(targets, specs, dirs, |specs|), specs[i];
    var t := Published(targets, specs, dirs, i);
    MigratedAt(targets, specs, dirs, |specs|, spec.zedTarget);
    assert Home(specs, i, spec.zedTarget);
    forall a | a in spec.zedAliases
      ensures a !in once
    {
      MigratedAt(targets, specs, dirs, |specs|, a);
    }
    var names := [spec.zedTarget] + spec.zedAliases;
    assert names[1..] == spec.zedAliases;
    MergeEmpty(t);
    GatherAbsent(once, t, spec.zedAliases);
  }
}
