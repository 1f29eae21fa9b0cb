/**
 What the rules mean for a whole record: which policies make it publishable, what its tokens look like, and where
 the two clients differ.
 */
module NixRules {
  import opened NixRecord

  // ----- Policy -----

  /** The evidence of a strict build: profile, pure, no import from derivation, sandboxed, no network, clean source. */
  function Strict(): Policy { Policy("strict-v1", true, false, true, "disabled", false, true) }

  /** An accepted record is publishable exactly when its policy is that one. */
  lemma PublishableIsStrict(d: Dialect, r: Record)
    requires Accepts(d, r)
    ensures r.policy.publishable <==> r.policy == Policy("strict-v1", true, false, true, "disabled", false, true)
  {
    hide ValidPackage, ValidOrigin, ValidIntent, ValidOutputs, Sha256Hex;
  }

  /** Of an accepted record the policy can be exchanged for that one, and for no other publishable one. */
  lemma PolicyExchanged(d: Dialect, r: Record, p: Policy)
    requires Accepts(d, r)
    ensures Accepts(d, r.(policy := p)) <==>
      p == Strict()
      || (p.profile == "development" && !p.publishable
          && (d.TypeScript? ==>
                p.builderNetwork == "disabled" || p.builderNetwork == "preparation-only"
                || p.builderNetwork == "allowed"))
  {
    hide ValidPackage, ValidOrigin, ValidIntent, ValidOutputs, Sha256Hex;
  }

  lemma StrictSampleAccepted(d: Dialect)
    ensures Accepts(d, Sample().(policy := Strict()))
    ensures !Accepts(d, Sample().(policy := Strict().(importFromDerivation := true)))
  {
    SampleAccepted(d);
    PolicyExchanged(d, Sample(), Strict());
    PolicyExchanged(d, Sample(), Strict().(importFromDerivation := true));
    hide Accepts;
  }

  // ----- Tokens -----

  /** The store paths of a record: the store, 32 digits without `e`, `o`, `t`, `u`, a dash and a name. */
  lemma StorePaths(d: Dialect, r: Record, o: Realized)
    requires Accepts(d, r) && o in r.outputs
    ensures |o.storePath| > 44 && o.storePath[..11] == "/nix/store/" && o.storePath[43] == '-'
    ensures forall i :: 11 <= i < 43 ==> o.storePath[i] !in {'e', 'o', 't', 'u'}
    ensures forall i :: 11 <= i < 43 ==> 'a' <= o.storePath[i] <= 'z' || '0' <= o.storePath[i] <= '9'
    ensures '/' !in o.storePath[44..]
  {
    hide ValidHeader, ValidIntent, ValidSystem, NixIdentifier, Sha256Hex, Sha256Sri, Blank, ValidReference,
      ValidRefToken;
    var p := o.storePath;
    assert NixStorePath(p);
    forall i | 11 <= i < 43
      ensures NixBase32(p[i])
    {
      assert p[i] == p[11..43][i - 11];
    }
  }

  // ----- Where the clients differ -----

  /** Only TypeScript counts the byte-order mark as white space, and only Go the next-line character. */
  lemma SpaceDiffers(s: string)
    ensures NoSpace(Go, s) ==> (NoSpace(TypeScript, s) <==> '\U{FEFF}' !in s)
    ensures NoSpace(TypeScript, s) ==> (NoSpace(Go, s) <==> '\U{0085}' !in s)
  {}

  lemma TokenDiffers(s: string)
    ensures ValidRefToken(Go, s) ==> (ValidRefToken(TypeScript, s) <==> '\U{FEFF}' !in s)
    ensures ValidRefToken(TypeScript, s) ==> (ValidRefToken(Go, s) <==> '\U{0085}' !in s)
  {
    SpaceDiffers(s);
    if NoSpace(Go, s) && s != "" {
      assert !Space(Go, s[0]) && !Space(Go, s[|s| - 1]);
    }
    if NoSpace(TypeScript, s) && s != "" {
      assert !Space(TypeScript, s[0]) && !Space(TypeScript, s[|s| - 1]);
    }
  }

  const MARK: char := '\U{FEFF}'
  const NEXT_LINE: char := '\U{0085}'

  /** What TypeScript asks beyond Go: no byte-order mark in a token, safe integers, a listed network. */
  predicate SuitsTypeScript(r: Record) {
    && MARK !in r.package.version && MARK !in r.source.registry && MARK !in r.source.vcsTag
    && MARK !in r.source.vcsCommit && Length(TypeScript, r.source.vcsCommit) >= 7
    && r.source.artifact.size <= 9007199254740991
    && (r.policy.builderNetwork == "disabled" || r.policy.builderNetwork == "preparation-only"
        || r.policy.builderNetwork == "allowed")
    && forall i :: 0 <= i < |r.outputs| ==> OutputSuitsTypeScript(r.outputs[i])
  }

  predicate OutputSuitsTypeScript(v: Realized) {
    && v.narSize <= 9007199254740991
    && (forall i :: 0 <= i < |v.references| && v.references[i].narSize.Some? ==>
          v.references[i].narSize.value <= 9007199254740991)
    && (forall i :: 0 <= i < |v.signatures| ==> MARK !in v.signatures[i])
    && !Blank(TypeScript, v.nixVersion)
  }

  /** What Go asks beyond TypeScript: no next-line character, no control character in the URL, an attribute. */
  predicate SuitsGo(r: Record) {
    && NEXT_LINE !in r.package.version && NEXT_LINE !in r.source.vcsTag && NEXT_LINE !in r.source.vcsCommit
    && NoControls(r.source.registry)
    && (r.intent.attribute == "" ==> NixIdentifier(r.package.name))
    && forall i :: 0 <= i < |r.outputs| ==> OutputSuitsGo(r.outputs[i])
  }

  predicate NoControls(s: string) {
    forall i :: 0 <= i < |s| ==> 32 <= s[i] as int < 127 || 160 <= s[i] as int
  }

  predicate OutputSuitsGo(v: Realized) {
    (forall i :: 0 <= i < |v.signatures| ==> NEXT_LINE !in v.signatures[i]) && !Blank(Go, v.nixVersion)
  }

  lemma RegistryDiffers(s: string)
    ensures ValidRegistry(Go, s) ==> (ValidRegistry(TypeScript, s) <==> MARK !in s)
    ensures ValidRegistry(TypeScript, s) ==>
      (ValidRegistry(Go, s) <==> NoControls(s))
  {
    TokenDiffers(s);
    if ValidRegistry(TypeScript, s) && NoControls(s) {
      assert NEXT_LINE !in s;
    }
  }

  /** UTF-8 never takes fewer octets than UTF-16 takes units. */
  lemma {:induction false} LongerInOctets(s: string)
    ensures Length(Go, s) >= Length(TypeScript, s)
  {
    if s != "" {
      LongerInOctets(s[1..]);
    }
  }

  lemma HeaderDiffers(r: Record)
    ensures ValidHeader(Go, r) ==>
      (ValidHeader(TypeScript, r) <==>
         && MARK !in r.package.version && MARK !in r.source.registry && MARK !in r.source.vcsTag
         && MARK !in r.source.vcsCommit && Length(TypeScript, r.source.vcsCommit) >= 7
         && r.source.artifact.size <= 9007199254740991
         && (r.policy.builderNetwork == "disabled" || r.policy.builderNetwork == "preparation-only"
             || r.policy.builderNetwork == "allowed"))
    ensures ValidHeader(TypeScript, r) ==>
      (ValidHeader(Go, r) <==>
         && NEXT_LINE !in r.package.version && NEXT_LINE !in r.source.vcsTag && NEXT_LINE !in r.source.vcsCommit
         && NoControls(r.source.registry))
  {
    RegistryDiffers(r.source.registry);
    TokenDiffers(r.package.version);
    TokenDiffers(r.source.vcsTag);
    TokenDiffers(r.source.vcsCommit);
    LongerInOctets(r.source.vcsCommit);
    hide ValidRegistry, ValidRefToken, ValidSlug, ValidTarget, Sha256Hex, Length;
  }

  lemma RealizedDiffers(v: Realized)
    ensures ValidRealized(Go, v) ==> (ValidRealized(TypeScript, v) <==> OutputSuitsTypeScript(v))
    ensures ValidRealized(TypeScript, v) ==> (ValidRealized(Go, v) <==> OutputSuitsGo(v))
  {
    hide ValidSystem, NixIdentifier, Sha256Hex, NixStorePath, Sha256Sri, Blank, ValidRefToken;
    forall i | 0 <= i < |v.signatures|
      ensures v.signatures[i] in v.signatures
      ensures ValidRefToken(Go, v.signatures[i]) ==>
        (ValidRefToken(TypeScript, v.signatures[i]) <==> MARK !in v.signatures[i])
      ensures ValidRefToken(TypeScript, v.signatures[i]) ==>
        (ValidRefToken(Go, v.signatures[i]) <==> NEXT_LINE !in v.signatures[i])
    {
      TokenDiffers(v.signatures[i]);
    }
    assert forall i :: 0 <= i < |v.references| ==> v.references[i] in v.references;
  }

  /** Of the records Go accepts, TypeScript accepts exactly those that suit it. */
  lemma GoThenTypeScript(r: Record)
    requires Accepts(Go, r)
    ensures Accepts(TypeScript, r) <==> SuitsTypeScript(r)
  {
    HeaderDiffers(r);
    forall i | 0 <= i < |r.outputs|
      ensures r.outputs[i] in r.outputs && (ValidRealized(TypeScript, r.outputs[i])
                                            <==> OutputSuitsTypeScript(r.outputs[i]))
    {
      assert r.outputs[i] in r.outputs;
      RealizedDiffers(r.outputs[i]);
    }
    hide ValidHeader, ValidRealized, OutputSuitsTypeScript, ValidSystem, NixIdentifier, Length;
  }

  /** And of those TypeScript accepts, Go accepts exactly those that suit it. */
  lemma TypeScriptThenGo(r: Record)
    requires Accepts(TypeScript, r)
    ensures Accepts(Go, r) <==> SuitsGo(r)
  {
    HeaderDiffers(r);
    forall i | 0 <= i < |r.outputs|
      ensures r.outputs[i] in r.outputs && (ValidRealized(Go, r.outputs[i]) <==> OutputSuitsGo(r.outputs[i]))
    {
      assert r.outputs[i] in r.outputs;
      RealizedDiffers(r.outputs[i]);
    }
    hide ValidHeader, ValidRealized, OutputSuitsGo, ValidSystem, NixIdentifier, Length;
  }
}
