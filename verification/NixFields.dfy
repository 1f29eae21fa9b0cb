/**
 The printed document of a record, key by key, as the adapter contract names them; and the units its strings are
 spelled in.
 */
module NixFields {
  import opened Bytes
  import opened NixRecord
  import opened NixTokens
  import J = JsonText
  import opened JsonValue
  import opened JsonObject
  import opened NixDocument

  /** The object has this value under the key, or nothing. */
  predicate Holds(slots: seq<Slot>, key: string, value: Option<Json>) {
    Get(O(slots), T(key)) == value
  }

  lemma SlotHolds(slots: seq<Slot>, i: nat, key: string, value: Option<Json>)
    requires i < |slots| && DistinctSlots(slots) && slots[i] == (key, value)
    ensures Holds(slots, key, value)
  {
    hide T, Present, FirstAt;
    SlotFound(slots, i);
  }

  lemma PackageHolds(v: Package)
    ensures var o := PackageSlots(v);
            && Holds(o, "org", Text(v.org))
            && Holds(o, "name", Text(v.name))
            && Holds(o, "version", Text(v.version))
            && Holds(o, "target", OptionalText(v.target))
  {
    PackageKeys(v, v);
    hide Holds, DistinctSlots, T, O, Text, OptionalText, Number, OptionalNumber, Flag, List, OptionalList;
    var o := PackageSlots(v);
    SlotHolds(o, 0, "org", o[0].1);
    SlotHolds(o, 1, "name", o[1].1);
    SlotHolds(o, 2, "version", o[2].1);
    SlotHolds(o, 3, "target", o[3].1);
  }

  lemma ArtifactHolds(v: Artifact)
    ensures var o := ArtifactSlots(v);
            && Holds(o, "format", Text(v.format))
            && Holds(o, "sha256", Text(v.sha256))
            && Holds(o, "size", Number(v.size))
  {
    ArtifactKeys(v, v);
    hide Holds, DistinctSlots, T, O, Text, OptionalText, Number, OptionalNumber, Flag, List, OptionalList;
    var o := ArtifactSlots(v);
    SlotHolds(o, 0, "format", o[0].1);
    SlotHolds(o, 1, "sha256", o[1].1);
    SlotHolds(o, 2, "size", o[2].1);
  }

  lemma OriginHolds(v: Origin)
    ensures var o := OriginSlots(v);
            && Holds(o, "registry", Text(v.registry))
            && Holds(o, "artifact", Some(O(ArtifactSlots(v.artifact))))
            && Holds(o, "vcs_tag", Text(v.vcsTag))
            && Holds(o, "vcs_commit", Text(v.vcsCommit))
            && Holds(o, "lock_sha256", OptionalText(v.lockSha256))
  {
    OriginKeys(v, v);
    hide Holds, DistinctSlots, T, O, Text, OptionalText, Number, OptionalNumber, Flag, List, OptionalList;
    var o := OriginSlots(v);
    SlotHolds(o, 0, "registry", o[0].1);
    SlotHolds(o, 1, "artifact", o[1].1);
    SlotHolds(o, 2, "vcs_tag", o[2].1);
    SlotHolds(o, 3, "vcs_commit", o[3].1);
    SlotHolds(o, 4, "lock_sha256", o[4].1);
  }

  lemma IntentHolds(v: Intent)
    ensures var o := IntentSlots(v);
            && Holds(o, "mode", Text(v.mode))
            && Holds(o, "systems", List(S, v.systems))
            && Holds(o, "outputs", List(S, v.outputs))
            && Holds(o, "attribute", if v.attribute == "" then None else Text(v.attribute))
  {
    IntentKeys(v, v);
    hide Holds, DistinctSlots, T, O, Text, Number, OptionalNumber, Flag, List;
    var o := IntentSlots(v);
    SlotHolds(o, 0, "mode", o[0].1);
    SlotHolds(o, 1, "systems", o[1].1);
    SlotHolds(o, 2, "outputs", o[2].1);
    SlotHolds(o, 3, "attribute", o[3].1);
  }

  lemma ReferenceHolds(v: Reference)
    ensures var o := ReferenceSlots(v);
            && Holds(o, "store_path", Text(v.storePath))
            && Holds(o, "nar_hash", OptionalText(v.narHash))
            && Holds(o, "nar_size", OptionalNumber(v.narSize))
  {
    ReferenceKeys(v, v);
    hide Holds, DistinctSlots, T, O, Text, OptionalText, Number, OptionalNumber, Flag, List, OptionalList;
    var o := ReferenceSlots(v);
    SlotHolds(o, 0, "store_path", o[0].1);
    SlotHolds(o, 1, "nar_hash", o[1].1);
    SlotHolds(o, 2, "nar_size", o[2].1);
  }

  lemma RealizedHolds(v: Realized)
    ensures var o := RealizedSlots(v);
            && Holds(o, "system", Text(v.system))
            && Holds(o, "output", Text(v.output))
            && Holds(o, "derivation_json_sha256", Text(v.derivationSha256))
            && Holds(o, "store_path", Text(v.storePath))
            && Holds(o, "nar_hash", Text(v.narHash))
            && Holds(o, "nar_size", Number(v.narSize))
            && Holds(o, "nix_version", Text(v.nixVersion))
            && Holds(o, "store_info_json_version", Number(v.storeInfoVersion))
            && Holds(o, "references", if v.references == [] then None else List(ReferenceJson, v.references))
            && Holds(o, "signatures", if v.signatures == [] then None else List(S, v.signatures))
  {
    RealizedKeys(v, v);
    hide Holds, DistinctSlots, T, O, Text, OptionalText, Number, OptionalNumber, Flag, List;
    var o := RealizedSlots(v);
    SlotHolds(o, 0, "system", o[0].1);
    SlotHolds(o, 1, "output", o[1].1);
    SlotHolds(o, 2, "derivation_json_sha256", o[2].1);
    SlotHolds(o, 3, "store_path", o[3].1);
    SlotHolds(o, 4, "nar_hash", o[4].1);
    SlotHolds(o, 5, "nar_size", o[5].1);
    SlotHolds(o, 6, "nix_version", o[6].1);
    SlotHolds(o, 7, "store_info_json_version", o[7].1);
    SlotHolds(o, 8, "references", o[8].1);
    SlotHolds(o, 9, "signatures", o[9].1);
  }

  lemma PolicyHolds(v: Policy)
    ensures var o := PolicySlots(v);
            && Holds(o, "profile", Text(v.profile))
            && Holds(o, "pure_evaluation", Flag(v.pureEvaluation))
            && Holds(o, "import_from_derivation", Flag(v.importFromDerivation))
            && Holds(o, "sandbox_required", Flag(v.sandboxRequired))
            && Holds(o, "builder_network", Text(v.builderNetwork))
            && Holds(o, "dirty_source", Flag(v.dirtySource))
            && Holds(o, "publishable", Flag(v.publishable))
  {
    PolicyKeys(v, v);
    hide Holds, DistinctSlots, T, O, Text, OptionalText, Number, OptionalNumber, Flag, List, OptionalList;
    var o := PolicySlots(v);
    SlotHolds(o, 0, "profile", o[0].1);
    SlotHolds(o, 1, "pure_evaluation", o[1].1);
    SlotHolds(o, 2, "import_from_derivation", o[2].1);
    SlotHolds(o, 3, "sandbox_required", o[3].1);
    SlotHolds(o, 4, "builder_network", o[4].1);
    SlotHolds(o, 5, "dirty_source", o[5].1);
    SlotHolds(o, 6, "publishable", o[6].1);
  }

  lemma DocumentHolds(v: Record)
    ensures var o := DocumentSlots(v);
            && Holds(o, "direction", Text(v.direction))
            && Holds(o, "schema", Text(v.schema))
            && Holds(o, "package", Some(O(PackageSlots(v.package))))
            && Holds(o, "source", Some(O(OriginSlots(v.source))))
            && Holds(o, "intent", Some(O(IntentSlots(v.intent))))
            && Holds(o, "flake_bundle_sha256", Text(v.flakeBundleSha256))
            && Holds(o, "outputs", List(RealizedJson, v.outputs))
            && Holds(o, "policy", Some(O(PolicySlots(v.policy))))
  {
    DocumentKeys(v, v);
    hide Holds, DistinctSlots, T, O, Text, OptionalText, Number, OptionalNumber, Flag, List, OptionalList;
    var o := DocumentSlots(v);
    SlotHolds(o, 0, "direction", o[0].1);
    SlotHolds(o, 1, "schema", o[1].1);
    SlotHolds(o, 2, "package", o[2].1);
    SlotHolds(o, 3, "source", o[3].1);
    SlotHolds(o, 4, "intent", o[4].1);
    SlotHolds(o, 5, "flake_bundle_sha256", o[5].1);
    SlotHolds(o, 6, "outputs", o[6].1);
    SlotHolds(o, 7, "policy", o[7].1);
  }

  /** Strings are spelled in UTF-16. */
  lemma {:induction false} UnitsAreUtf16(s: string)
    ensures |Units(s)| == |Encoded(TypeScript, s)|
    ensures forall i :: 0 <= i < |Units(s)| ==> Units(s)[i] as int == Encoded(TypeScript, s)[i]
  {
    if s != "" {
      UnitsAreUtf16(s[1..]);
    }
  }
}
