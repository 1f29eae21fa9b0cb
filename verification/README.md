# Zed clients: a model and its proofs

The clients of the Zed registry carry, around their HTTP plumbing, a handful of algorithms that have to be
exactly right: a hand-written SHA-256, a multipart writer, bounded stream readers, the validation and canonical
form of Nix adapter records, a directory allocator with a manifest migration, several encoders, and an atomic
file replacement. This project models those algorithms in Dafny, in the form the source gives them, and proves
what they are for. `dafny verify dfyconfig.toml` checks all of it.

| part | files |
|---|---|
| SHA-256 (Swift) against FIPS 180-4 | `Sha256Constants.dfy`, `Sha256Spec.dfy`, `Sha256.dfy` |
| multipart body (Swift) against readers after RFC 2046, section 5.1.1, and RFC 7578, section 4.2 | `Multipart.dfy`, `FormFields.dfy` |
| response delegate (Swift); bounded readers (TypeScript, Java) | `BoundedDelegate.dfy`, `BoundedReaders.dfy` |
| zed-to-nix records: rules, normal form, canonical bytes (Go, TypeScript) | `NixRecord.dfy`, `NixTokens.dfy`, `NixRules.dfy`, `NixAdapterGo.dfy`, `NixCanonical.dfy`, `NixAdapterTs.dfy`, `NixDocument.dfy`, `NixFields.dfy`, `NixCanonicalTs.dfy` |
| JSON strings (Kotlin), canonical JSON and envelope admission (contract-admission) | `JsonText.dfy`, `JsonValue.dfy`, `JsonCanonical.dfy`, `JsonObject.dfy`, `ContractAdmission.dfy`, `AdmissionCheck.dfy`, `AdmissionPolicy.dfy`, `AdmissionSample.dfy` |
| path checks and download URLs (Erlang) against RFC 3986, section 5.2.4 and appendix B | `UriPath.dfy`, `UriLaws.dfy`, `ErlangDownload.dfy`, `DownloadVerdicts.dfy` |
| percent-encoding and base URLs (C++) | `PercentEncoding.dfy` |
| atomic file replacement and download (Go) | `AtomicFile.dfy` |
| target directories and manifest migration (Python) | `TargetTable.dfy`, `TargetAllocator.dfy`, `TargetPreference.dfy`, `ManifestMigration.dfy`, `ManifestRun.dfy`, `ManifestMaturity.dfy`, `Rerun.dfy`, `StandardTargets.dfy`, `ClientCoverage.dfy` |
| API surface metadata (Python) | `DocumentationId.dfy`, `SurfaceMetadata.dfy`, `SurfaceChecks.dfy`, `SurfaceFindings.dfy`, `SurfaceBaseline.dfy` |
| shared: octets, sorting and orders, regular expressions | `Bytes.dfy`, `Ordering.dfy`, `Patterns.dfy` |

Code that updates variables, arrays, fields or files step by step is a method or a class proved against a
specification function, and the promises are lemmas about that function. Code made of expressions is functions.

## What the proofs turned up

- **Multipart.** Keeping `\r\n--boundary` out of the payload is not enough. An artifact that *begins* with
  `--boundary` is cut as well, because the empty line that ends the headers supplies the line end. The exact
  condition is `CleanWhen`, and `LeadingBoundaryIsLost` is the input. The client draws a fresh random boundary,
  so this is a limit of the format rather than of one call.
- **Atomic write.** A crash can show the destination half written in one case only: the destination does not
  exist yet, there is something to write, and its name is itself one the system may pick for the temporary
  file, `.zed-artifact-` and a 32-bit number. `EveryStateOldOrNew` says so before the call, over all faults.
- **Manifest migration.** The target loop is idempotent. The repository step before it is not: the obsolete
  `name` is dropped *before* an early `contract` table is merged in, so a `name` in that table survives one run
  and is dropped by the next. `RunIsIdempotent` gives the exact condition on the manifest and the directories,
  `StandardSecondRun` reads it over the real table of targets, and `StandardNameSurvives` is a manifest.
- **Documentation identifiers.** Nothing keeps them distinct once a surface was enriched before: an identifier
  spells the index its symbol had. Delete the client class and the two functions from an enriched surface, and
  the next run gives the new class's constructor the identifier the builder's constructor already carries, which
  the script then reports as an error (`DeletionCollides`). `EnrichedIdsDiffer` is the exact condition, for every
  surface: the identifiers already there, and the lineages of the places that still need one, up to the
  characters an identifier keeps, are pairwise distinct.
- **Nix records.** The Go and TypeScript rules are not the same: white space, an explicitly empty text, the size of
  an integer, the length of a commit, the builder network, control characters in a URL, and whether the package
  name that stands in for an attribute must be a Nix identifier. The model follows each client, and
  `GoThenTypeScript` and `TypeScriptThenGo` say exactly which records one client takes and the other refuses.
  Nothing here says that the two emit the same bytes.

## Model

| member | source | states |
|---|---|---|
| `Sha256.HexDigest` | clients/swift/Sources/ZedClient/ZedClient.swift:793-890 | for every message below 2^61 bytes the imperative digest is the hexadecimal of the recursive SHA-256 of FIPS 180-4 (sections 4.1.2, 4.2.2, 5.1.1, 5.3.3, 6.2.2), every index in bounds |
| `Sha256.Pad` | clients/swift/Sources/ZedClient/ZedClient.swift:794-809 | the growing message ends as the padded message of section 5.1.1; the zero loop stops after the least number of zeros |
| `Sha256.ExtendSchedule` | clients/swift/Sources/ZedClient/ZedClient.swift:831-841 | the 48 later words, written in place from earlier ones, are the message schedule of section 6.2.2 |
| `Sha256.CompressBlock` | clients/swift/Sources/ZedClient/ZedClient.swift:844-886 | eight rotating variables over 64 rounds and the feed-forward give the next hash value of the specification |
| `Sha256.HexText` | clients/swift/Sources/ZedClient/ZedClient.swift:889 | the joined words are the digest in hexadecimal |
| `Sha256Spec.PaddingIsShortest` | clients/swift/Sources/ZedClient/ZedClient.swift:794-809 | padding is the shortest extension by 0x80, zeros and an eight-octet length to whole blocks, with fewer than 64 zeros |
| `Sha256Spec.PaddedTail` | clients/swift/Sources/ZedClient/ZedClient.swift:796-809 | the last eight octets give back the bit length |
| `Sha256Spec.PaddingSuffixFree` | clients/swift/Sources/ZedClient/ZedClient.swift:794-809 | no padded message is a proper suffix of another, and padding is injective |
| `Sha256Spec.HexInjective` | clients/swift/Sources/ZedClient/ZedClient.swift:889 | comparing digests as text is comparing digests |
| `Sha256Spec.PlusWraps` | clients/swift/Sources/ZedClient/ZedClient.swift:831-886 | addition of words is the sum in a wider word cut to 32 bits |
| `Sha256Spec.HexWordReads` | clients/swift/Sources/ZedClient/ZedClient.swift:889 | reading the eight digits of a word from the left gives the word back |
| `Sha256Constants.RoundConstant` | clients/swift/Sources/ZedClient/ZedClient.swift:774-791 | the constant of round t is the first 32 bits of the fractional part of the cube root of the t-th prime (section 4.2.2) |
| `Sha256Constants.InitialValue` | clients/swift/Sources/ZedClient/ZedClient.swift:811-820 | the initial hash value holds the same bits of the square roots of the first eight primes (section 5.3.3) |
| `Multipart.MultipartBody` | clients/swift/Sources/ZedClient/ZedClient.swift:554-576 | the buffer appended to line by line is the frame of the two parts, with the cleaned file name |
| `Multipart.SafeFilename` | clients/swift/Sources/ZedClient/ZedClient.swift:752-758 | one character for each grapheme cluster: a single ASCII letter, digit or one of `._-` is kept and anything else becomes `_`; nothing can end the quoted file name |
| `Multipart.NoSeam` | clients/swift/Sources/ZedClient/ZedClient.swift:560-575 | no delimiter begins inside another one's occurrence: its CR stands first and nowhere else |
| `Multipart.ReadsOnePart` | clients/swift/Sources/ZedClient/ZedClient.swift:560-575 | a reader at a delimiter gets this part and goes on to the next exactly when the payload is clean |
| `Multipart.FrameRoundTrip` | clients/swift/Sources/ZedClient/ZedClient.swift:554-576 | the reader recovers both parts with their headers if and only if no line of either payload begins with the delimiter |
| `Multipart.CleanWhen` | clients/swift/Sources/ZedClient/ZedClient.swift:554-576 | that condition as a caller can check it: the delimiter is not in the payload and `--boundary` is not its beginning |
| `Multipart.LeadingBoundaryIsLost` | clients/swift/Sources/ZedClient/ZedClient.swift:554-576 | the input for which keeping the delimiter out of the payload does not suffice |
| `FormFields.FormRoundTrip` | clients/swift/Sources/ZedClient/ZedClient.swift:554-576 | a reader of the headers after RFC 7578 finds the field `meta` as `application/json` and the field `artifact` as `application/octet-stream` under the cleaned file name, with both payloads as they were, for all clean payloads |
| `BoundedDelegate.Delegate.DidReceiveResponse` | clients/swift/Sources/ZedClient/ZedClient.swift:184-206 | one response event changes the fields as one step does, and is allowed exactly when it is HTTP and does not declare too much; a refused one is completed |
| `BoundedDelegate.Delegate.DidReceiveChunk` | clients/swift/Sources/ZedClient/ZedClient.swift:208-231 | one data event, cut at the remaining room; the task is cancelled exactly when this event completed the exchange |
| `BoundedDelegate.Delegate.DidComplete` | clients/swift/Sources/ZedClient/ZedClient.swift:233-246 | one completion event, ignored when already completed |
| `BoundedDelegate.Delegate.Finish` | clients/swift/Sources/ZedClient/ZedClient.swift:248-254 | the callback is taken out before it is called and never called again |
| `BoundedDelegate.DeliversTheOutcome` | clients/swift/Sources/ZedClient/ZedClient.swift:158-255 | over every event sequence with at most one response the callback gets, once, the outcome of the first decisive event, nothing if there is none, and exactly one result if a completion occurs |
| `BoundedDelegate.AtMostOnce` | clients/swift/Sources/ZedClient/ZedClient.swift:158-255 | at most one callback over every event sequence, with any number of responses |
| `BoundedDelegate.ChunkingIsInvisible` | clients/swift/Sources/ZedClient/ZedClient.swift:158-255 | for every cutting of the stream the one delivered result depends on the whole stream only: whole within the limit, an error or the cut body beyond |
| `BoundedReaders.ReadAtMost` | clients/typescript/src/client.ts:47-84 | the first `limit` bytes of the stream for every chunking, `truncated` exactly when the stream is longer, and reading stops at the first chunk beyond |
| `BoundedReaders.Assemble` | clients/typescript/src/client.ts:75-83 | the copy loop writes every byte of the output once, in bounds and in order |
| `BoundedReaders.ReadCapped` | clients/typescript/src/client.ts:86-101 | refuses exactly a declared or actual length beyond the limit, and otherwise returns the whole body |
| `BoundedReaders.ReadBounded` | clients/java/src/main/java/tech/zpkg/client/ZedClient.java:565-582 | the same specification over a reused buffer with short reads; it terminates and takes at most one byte beyond the limit |
| `NixRecord.PairKeyInjective` | clients/go/nix_adapter.go:417-453 | valid systems hold no NUL, so the joined key tells pairs apart |
| `NixTokens.SlugMatches` | clients/go/nix_adapter.go:142 | the regular expression of a slug, matched against the whole string, accepts exactly the valid slugs |
| `NixTokens.TargetMatches` | clients/go/nix_adapter.go:143 | likewise for targets |
| `NixTokens.IdentifierMatches` | clients/go/nix_adapter.go:144 | likewise for Nix identifiers |
| `NixTokens.StorePathMatches` | clients/go/nix_adapter.go:145 | likewise for store paths |
| `NixTokens.HexMatches` | clients/go/nix_adapter.go:146 | likewise for SHA-256 in hexadecimal |
| `NixTokens.SriMatches` | clients/go/nix_adapter.go:147 | likewise for SRI hashes |
| `NixTokens.Trims` | clients/go/nix_adapter.go:719-729 | trimming from both ends leaves a string alone exactly when neither end is white space, and empties it exactly when all of it is |
| `NixTokens.LengthIsEncoded` | clients/go/nix_adapter.go:566 | the length the clients test is the number of UTF-8 octets in Go and of UTF-16 units in TypeScript |
| `NixRules.PublishableIsStrict` | clients/go/nix_adapter.go:506-521 | an accepted record is publishable if and only if its policy is strict-v1, pure, without import from derivation, sandboxed, without network and from a clean source |
| `NixRules.PolicyExchanged` | clients/typescript/src/nix-adapter.ts:359-406 | the policy of an accepted record can be exchanged for exactly that one or an unpublishable development one |
| `NixRules.StrictSampleAccepted` | clients/go/nix_adapter.go:506-521 | a publishable record is accepted, and its neighbour with import from derivation is refused |
| `NixRules.StorePaths` | clients/go/nix_adapter.go:145 | every store path of an accepted record is the store, 32 digits without `e`, `o`, `t`, `u`, a dash and a name without a slash |
| `NixRules.GoThenTypeScript` | clients/typescript/src/nix-adapter.ts:558-610 | of the records the Go client accepts the TypeScript client accepts exactly those without a byte-order mark in a token, with safe integers, a listed network and a commit of seven UTF-16 units |
| `NixRules.TypeScriptThenGo` | clients/go/nix_adapter.go:401-455 | of the records the TypeScript client accepts the Go client accepts exactly those without a next-line character in a token or a control character in the URL and with an attribute that is a Nix identifier |
| `NixRecord.Coverage` | clients/go/nix_adapter.go:401-455 | an accepted record realizes every declared system, and has at least as many outputs as systems and at most systems times outputs |
| `NixRecord.AcceptanceUpToOrder` | clients/go/nix_adapter.go:401-455 | acceptance depends neither on the order of any collection nor on the defaults |
| `NixRecord.SampleAccepted` | clients/go/nix_adapter.go:401-455 | the rules can be met: both clients accept a concrete record with unsorted outputs and both defaults left out |
| `NixRecord.NormalFormUnique` | clients/go/nix_adapter.go:648-673 | whatever unstable sorts produce them, two normal forms of accepted records are equal if and only if the records differ only in order |
| `NixRecord.NormalIsNormal` | clients/go/nix_adapter.go:648-673 | there is a normal form; it is accepted exactly when the record is, and is idempotent |
| `NixRecord.NormalIsStable` | clients/go/nix_adapter.go:401-455 | what validation and normalisation leave is accepted, filled and normal |
| `NixCanonical.ParsedIsCanonical` | clients/go/nix_adapter.go:280-336 | canonicalising a parsed record changes nothing |
| `NixCanonical.CanonicalVerifies` | clients/go/nix_adapter.go:316-374 | canonical bytes of every accepted record verify, as the record's normal form with their own digest |
| `NixCanonical.VerifiedTexts` | clients/go/nix_adapter.go:347-374 | the texts that verify are exactly the canonical texts of accepted records |
| `NixCanonical.OneSpelling` | clients/go/nix_adapter.go:347-374 | verified documents are the same bytes if and only if their contents agree up to order and defaults |
| `NixAdapterGo.ValidateUniqueStrings` | clients/go/nix_adapter.go:637-646 | true exactly for lists without a repeat |
| `NixAdapterGo.ValidNixSystem` | clients/go/nix_adapter.go:675-685 | the loop accepts exactly the valid systems |
| `NixAdapterGo.ValidRegistryUrl` | clients/go/nix_adapter.go:707-717 | trimming, the loop and the three prefixes accept exactly the valid registry URLs |
| `NixAdapterGo.ValidToken` | clients/go/nix_adapter.go:719-729 | trimming and the loop accept exactly the valid tokens |
| `NixAdapterGo.ValidatePackage` | clients/go/nix_adapter.go:475-491 | accepts exactly the valid package identities |
| `NixAdapterGo.ValidateArtifact` | clients/go/nix_adapter.go:493-504 | accepts exactly the valid artifacts and fills the default format |
| `NixAdapterGo.ValidatePolicy` | clients/go/nix_adapter.go:506-521 | accepts exactly the valid policies |
| `NixAdapterGo.ValidateRealized` | clients/go/nix_adapter.go:594-635 | accepts exactly the valid realized outputs |
| `NixAdapterGo.ValidateIntent` | clients/go/nix_adapter.go:523-557 | accepts exactly the valid intents and writes the default mode and nothing else |
| `NixAdapterGo.ValidateOutputs` | clients/go/nix_adapter.go:425-453 | the loop with its two sets accepts exactly outputs with distinct declared pairs that cover the systems |
| `NixAdapterGo.NormalizeRealized` | clients/go/nix_adapter.go:662-673 | the members are some sorted permutation of what they were |
| `NixAdapterGo.ZedToNixRecord.Validate` | clients/go/nix_adapter.go:401-455 | accepts exactly the valid records, fills the two defaults in place and changes nothing else |
| `NixAdapterGo.ZedToNixRecord.Normalize` | clients/go/nix_adapter.go:648-660 | sorting in place gives a normal form of the record |
| `NixAdapterGo.ZedToNixRecord.CanonicalValue` | clients/go/nix_adapter.go:280-314 | the canonical record of the caller's record, which is not mutated |
| `NixAdapterGo.ParseRecordJson` | clients/go/nix_adapter.go:217-258 | null exactly for undecodable or invalid documents; otherwise the filled normal form |
| `NixAdapterGo.VerifyCanonicalJson` | clients/go/nix_adapter.go:347-374 | accepts exactly the canonical spelling of what the bytes decode to, under the expected digest if one is given |
| `NixAdapterTs.Unique` | clients/typescript/src/nix-adapter.ts:315-324 | succeeds exactly when the keys are distinct |
| `NixAdapterTs.Token` | clients/typescript/src/nix-adapter.ts:202-224 | trimming and the white-space test accept exactly the valid tokens |
| `NixAdapterTs.RegistryUrl` | clients/typescript/src/nix-adapter.ts:303-313 | accepts exactly the valid registry URLs |
| `NixAdapterTs.NixSystem` | clients/typescript/src/nix-adapter.ts:250-262 | accepts exactly the valid systems |
| `NixAdapterTs.ParsePackage` | clients/typescript/src/nix-adapter.ts:333-345 | accepts exactly the valid package identities |
| `NixAdapterTs.ParsePolicy` | clients/typescript/src/nix-adapter.ts:359-406 | accepts exactly the valid policies |
| `NixAdapterTs.ParseExportIntent` | clients/typescript/src/nix-adapter.ts:408-438 | accepts exactly the valid intents, with defaults filled and both lists sorted |
| `NixAdapterTs.ParseRealizedOutput` | clients/typescript/src/nix-adapter.ts:479-540 | accepts exactly the valid outputs and returns one with the same view and sorted members |
| `NixAdapterTs.CheckOutputs` | clients/typescript/src/nix-adapter.ts:579-599 | distinct pairs, each declared, and every system covered |
| `NixAdapterTs.ParseZedToNix` | clients/typescript/src/nix-adapter.ts:558-610 | accepts exactly the valid documents and returns a normal form of the filled record, for any total orders |
| `NixAdapterTs.ReparseIsIdentity` | clients/typescript/src/nix-adapter.ts:558-610 | a parsed record written out again is accepted and parses to itself |
| `NixAdapterTs.ParseUpToOrder` | clients/typescript/src/nix-adapter.ts:558-610 | two documents parse to the same record if and only if they agree up to order and defaults |
| `NixCanonicalTs.CanonicalJson` | clients/typescript/src/nix-adapter.ts:659-677 | parses a document and prints the one normal form with keys sorted at every level; nothing exactly when the document does not parse |
| `NixCanonicalTs.VerifyCanonicalJson` | clients/typescript/src/nix-adapter.ts:707-724 | accepts exactly the canonical text of what the text parses to, under the expected digest if one is given, the empty one included |
| `NixCanonicalTs.ParsedAgain` | clients/typescript/src/nix-adapter.ts:675-677 | the parsed record handed back as a document parses to itself |
| `NixCanonicalTs.CanonicalVerifies` | clients/typescript/src/nix-adapter.ts:659-724 | the canonical text of every document that parses verifies, with its own digest |
| `NixCanonicalTs.VerifiedTexts` | clients/typescript/src/nix-adapter.ts:707-724 | the texts that verify are exactly those |
| `NixCanonicalTs.OneSpelling` | clients/typescript/src/nix-adapter.ts:707-724 | verified texts are the same if and only if their contents agree up to order and defaults |
| `NixCanonicalTs.TextDetermines` | clients/typescript/src/nix-adapter.ts:659-677 | two records have one canonical text if and only if they are one record, so the law on the parser can be met |
| `NixCanonicalTs.DigestDetermines` | clients/typescript/src/nix-adapter.ts:698-724 | verified texts with one digest hold one record, unless the hash collides on the two texts |
| `NixFields.RealizedHolds` | clients/typescript/src/nix-adapter.ts:479-540 | a printed output holds each of its ten fields under the contract's key, and leaves empty lists out |
| `NixFields.PolicyHolds` | clients/typescript/src/nix-adapter.ts:359-406 | a printed policy holds its seven fields under the contract's keys |
| `NixFields.IntentHolds` | clients/typescript/src/nix-adapter.ts:408-438 | a printed intent holds its mode, systems and outputs, and its attribute if there is one |
| `NixFields.OriginHolds` | clients/typescript/src/nix-adapter.ts:440-462 | a printed origin holds its fields under the contract's keys |
| `NixFields.DocumentHolds` | clients/typescript/src/nix-adapter.ts:558-610 | a printed record holds its eight parts under the contract's keys |
| `NixFields.UnitsAreUtf16` | clients/typescript/src/nix-adapter.ts:659-677 | strings are spelled in UTF-16 |
| `JsonText.JsonString` | clients/kotlin/src/main/kotlin/tech/zpkg/client/ZedClient.kt:155-170 | for every sequence of UTF-16 units, a reader after RFC 8259, section 7, gives the units back and ends at the end of the text; no unit below 0x20 is left raw |
| `JsonText.QuotedRoundTrip` | clients/kotlin/src/main/kotlin/tech/zpkg/client/ZedClient.kt:155-170 | the round trip for every allowed choice of escapes, with any text after it |
| `JsonText.QuotedInjective` | contract-admission/contract-ir-admission.mjs:18-29 | quoted strings with something after each are told apart, and so is what follows |
| `JsonValue.PrintInjective` | contract-admission/contract-ir-admission.mjs:18-24 | equal texts of JSON values, with anything but more of a number after them, come from equal values |
| `JsonValue.PrintRoundTrip` | contract-admission/contract-ir-admission.mjs:23 | a reader of values after RFC 8259 gives every printed value back and stops where it ends, whatever follows |
| `JsonValue.PrintedIsPaired` | contract-admission/contract-ir-admission.mjs:23 | no printed string holds a surrogate without its partner, whatever the string holds |
| `JsonCanonical.IndexText` | contract-admission/contract-ir-admission.mjs:22 | the keys enumerated as array indices are exactly the decimal texts of the numbers up to 2^32 - 2 |
| `JsonCanonical.KeysAscend` | contract-admission/contract-ir-admission.mjs:18-22 | array indices come first, by value, and the other keys by the smaller UTF-16 unit at the first difference |
| `JsonCanonical.CanonicalTextParses` | contract-admission/contract-ir-admission.mjs:18-23 | parsing the canonical text gives the canonical value back |
| `JsonCanonical.CanonDecides` | contract-admission/contract-ir-admission.mjs:18-24 | canonical forms are equal if and only if the values are equal up to key order, arrays compared in order and multiplicity |
| `JsonCanonical.StringifyDecides` | contract-admission/contract-ir-admission.mjs:18-24 | the same for canonical text |
| `JsonCanonical.CanonIdempotent` | contract-admission/contract-ir-admission.mjs:18-24 | canonicalising twice is canonicalising once and never leaves the class of the value |
| `AdmissionCheck.VerifyContractIrEnvelope` | contract-admission/contract-ir-admission.mjs:38-102 | check by check, in the order in which the first failure is reported: succeeds exactly on the envelopes the lemmas below speak of, with their identifier and run |
| `AdmissionCheck.CheckIdentities` | contract-admission/contract-ir-admission.mjs:31-36 | the trimming loop and the size of the set accept exactly lists of distinct identities |
| `AdmissionCheck.IdentityIsTrimmed` | contract-admission/contract-ir-admission.mjs:33 | an identity is a text that is not empty and that trimming leaves alone |
| `AdmissionCheck.CheckNames` | contract-admission/contract-ir-admission.mjs:80-82 | the loops accept exactly when the inventories agree, every required identity is among them and no forbidden one is |
| `AdmissionPolicy.ForbidOneMore` | contract-admission/contract-ir-admission.mjs:82 | forbidding one more identity keeps acceptance if and only if it is a new identity that no declaration has |
| `AdmissionPolicy.RequireOneMore` | contract-admission/contract-ir-admission.mjs:81 | requiring one more keeps acceptance if and only if it is a new identity that some declaration has |
| `AdmissionPolicy.SomethingIsRequired` | contract-admission/contract-ir-admission.mjs:32 | nothing is accepted for a consumer that requires nothing |
| `AdmissionPolicy.CompletenessDemanded` | contract-admission/contract-ir-admission.mjs:88-90 | demanding completeness adds exactly that nothing was excluded and nothing is out of scope |
| `AdmissionPolicy.ListsAreObeyed` | contract-admission/contract-ir-admission.mjs:81-82 | no declaration of an accepted envelope has a forbidden identity, and every required one is there |
| `AdmissionPolicy.DeclarationsAreMapped` | contract-admission/contract-ir-admission.mjs:73-80 | the declarations of an accepted envelope are those the report maps, one for one and without repeats |
| `AdmissionPolicy.ScopeCountsInventories` | contract-admission/contract-ir-admission.mjs:83-89 | the scope counts, read as decimal numbers, are the sizes of the inventories |
| `AdmissionPolicy.AuthoritiesArePeers` | contract-admission/contract-ir-admission.mjs:48-52 | an accepted envelope names two independent authorities, gives neither precedence, and calls the rest evidence |
| `AdmissionPolicy.EvidenceIsComplete` | contract-admission/contract-ir-admission.mjs:53-60 | an accepted envelope has no findings and full coverage on both sides |
| `AdmissionPolicy.RequirementsAreMet` | contract-admission/contract-ir-admission.mjs:61 | an accepted envelope meets the five admission requirements |
| `AdmissionPolicy.InputsAgree` | contract-admission/contract-ir-admission.mjs:69-72 | report and IR name one digest of 64 hexadecimal digits for each of the three inputs |
| `AdmissionPolicy.DeclarationsAreSealed` | contract-admission/contract-ir-admission.mjs:91-100 | every declaration carries, for each of its three schemas, the hash of the schema's canonical text, and the role of its two lanes |
| `AdmissionPolicy.EnvelopeIsSealed` | contract-admission/contract-ir-admission.mjs:62-68 | an accepted IR carries the hash of the report's canonical text, and as its identifier the hash of its own without the identifier |
| `ContractAdmission.IdentifierDetermines` | contract-admission/contract-ir-admission.mjs:61-68 | for every hash, one identifier means one IR body and one parity report up to key order, unless the hash collides on the two bodies or the two reports |
| `ContractAdmission.OneEnvelope` | contract-admission/contract-ir-admission.mjs:38-102 | whatever each of two consumers requires, accepted envelopes with one identifier have the whole IR and the whole report in common up to key order, unless the hash collides |
| `ContractAdmission.AcceptedUpToOrder` | contract-admission/contract-ir-admission.mjs:38-102 | reordering keys never changes the verdict |
| `ContractAdmission.CanonicalCopyAccepted` | contract-admission/contract-ir-admission.mjs:38-119 | the canonical copy is accepted if and only if the original is |
| `AdmissionSample.SampleAccepted` | contract-admission/contract-ir-admission.mjs:38-102 | the checks can be met: for every hash with hexadecimal digests a concrete envelope is accepted |
| `AdmissionSample.SampleFormed` | contract-admission/contract-ir-admission.mjs:38-102 | both its documents are well formed, as the theorems on admission ask |
| `UriPath.WithoutDotsIsFixed` | clients/erlang/src/zed_pkg_client.erl:201-228 | a path without dot segments is a fixed point of the algorithm of RFC 3986, section 5.2.4 |
| `UriLaws.AbsolutePathResolves` | clients/erlang/src/zed_pkg_client.erl:201-225 | on every absolute path dot-segment removal (RFC 3986, section 5.2.4) is a stack of segments: a dot keeps it, two dots pop it, and no dot segment is left |
| `UriLaws.RecomposedSplit` | clients/erlang/src/zed_pkg_client.erl:266-275 | every reference is its components put together again (section 5.3), and the components are proper |
| `UriLaws.SplitRecomposed` | clients/erlang/src/zed_pkg_client.erl:266-275 | all proper components, put together, come apart as they were |
| `ErlangDownload.ValidBaseForm` | clients/erlang/src/zed_pkg_client.erl:106-143 | a validated base is a scheme, an authority with a host and a checked path, with no slash at its end |
| `ErlangDownload.CheckedPathHasNoDots` | clients/erlang/src/zed_pkg_client.erl:201-228 | a validated path has no `.` or `..` segment as written |
| `ErlangDownload.DecodedPathHasNoDots` | clients/erlang/src/zed_pkg_client.erl:201-228 | nor after decoding segment by segment, which makes no new segments |
| `ErlangDownload.CombinedSplits` | clients/erlang/src/zed_pkg_client.erl:326-363 | taken apart after appendix B, base, slash and reference have the base's scheme and authority and the concatenated path |
| `ErlangDownload.RelativeStaysBelowBase` | clients/erlang/src/zed_pkg_client.erl:326-363 | a relative reference that resolves is base, slash, reference, and dot-segment removal leaves its path alone, raw and decoded, so the gateway prefix stays |
| `ErlangDownload.RelativeResolves` | clients/erlang/src/zed_pkg_client.erl:266-363 | a relative reference resolves if and only if its path checks and the library parses the combination |
| `ErlangDownload.SampleResolves` | clients/erlang/src/zed_pkg_client.erl:326-363 | the conditions can be met: a concrete base with a path prefix and a concrete reference resolve |
| `ErlangDownload.NeverDowngraded` | clients/erlang/src/zed_pkg_client.erl:266-363 | whatever the reference, empty, relative or absolute, the resolved URL has a host and no user information and is plain HTTP only if the base is or the host is a loopback address; only a reference with a scheme leaves the base's authority |
| `DownloadVerdicts.PathVerdict` | clients/erlang/src/zed_pkg_client.erl:183-225 | a path is accepted exactly when every nonempty segment decodes to 1 to 256 octets without separators and controls, not all blank and not dots alone |
| `DownloadVerdicts.BaseVerdict` | clients/erlang/src/zed_pkg_client.erl:106-135 | a base is taken exactly when it is an HTTP or HTTPS URL with a host, without credentials, query or fragment, and with an accepted path |
| `DownloadVerdicts.AbsoluteVerdict` | clients/erlang/src/zed_pkg_client.erl:266-308 | an absolute reference is taken as it is exactly when it has a host, no credentials and no fragment and goes over HTTPS, or over HTTP to a loopback address or below an HTTP base; otherwise it is refused as insecure |
| `DownloadVerdicts.RootedVerdict` | clients/erlang/src/zed_pkg_client.erl:336-354 | a reference without scheme that names an authority, a fragment or an absolute path is refused |
| `DownloadVerdicts.UnparsedVerdict` | clients/erlang/src/zed_pkg_client.erl:334-360 | a reference the library cannot parse is refused |
| `DownloadVerdicts.DecodedSegments` | clients/erlang/src/zed_pkg_client.erl:209-225 | the segments of the decoded path are the decoded segments, one for one |
| `DownloadVerdicts.DigestVerdict` | clients/erlang/src/zed_pkg_client.erl:328-332 | without a reference the artifact is asked for at `/v1/artifacts/` and its digest below the base |
| `PercentEncoding.ValidateSegment` | clients/cpp/include/zed_pkg/client.hpp:71-91 | the scan accepts exactly the valid segments |
| `PercentEncoding.EncodeSegment` | clients/cpp/include/zed_pkg/client.hpp:93-110 | the pushed octets are the encoding of a valid segment, and an invalid one is refused |
| `PercentEncoding.EncodeRoundTrip` | clients/cpp/include/zed_pkg/client.hpp:93-110 | decoding after RFC 3986, section 2.1, undoes the encoding on every octet string |
| `PercentEncoding.EncodedAlphabet` | clients/cpp/include/zed_pkg/client.hpp:66-110 | only unreserved octets and whole escapes, a percent sign with two upper-case hexadecimal digits after it; in particular no slash |
| `PercentEncoding.PlainStays` | clients/cpp/include/zed_pkg/client.hpp:66-69 | letters, digits and `-._~` stay as they are |
| `PercentEncoding.OthersEscaped` | clients/cpp/include/zed_pkg/client.hpp:101-107 | every other octet becomes a percent sign and two digits that spell it |
| `PercentEncoding.PackagePath` | clients/cpp/include/zed_pkg/client.hpp:40-44 | the path of valid names, and a refusal otherwise |
| `PercentEncoding.VersionPath` | clients/cpp/include/zed_pkg/client.hpp:46-51 | the path of valid coordinates, and a refusal otherwise |
| `PercentEncoding.PackagePathsInjective` | clients/cpp/include/zed_pkg/client.hpp:40-51 | distinct packages have distinct paths, none of them the path of a version |
| `PercentEncoding.PackagePathHasNoDots` | clients/cpp/include/zed_pkg/client.hpp:40-91 | dot-segment removal leaves the path of valid names alone |
| `PercentEncoding.VersionPathsInjective` | clients/cpp/include/zed_pkg/client.hpp:40-51 | distinct coordinates have distinct paths |
| `PercentEncoding.VersionPathHasNoDots` | clients/cpp/include/zed_pkg/client.hpp:40-91 | dot-segment removal leaves the path of valid coordinates alone |
| `PercentEncoding.NormalizeBaseUrl` | clients/cpp/include/zed_pkg/client.hpp:112-152 | refuses exactly the invalid bases; the loop pops slashes down to the authority |
| `PercentEncoding.NormalizeIdempotent` | clients/cpp/include/zed_pkg/client.hpp:112-152 | a normalised base is valid, has the same authority and no slash at its end, and is its own normal form |
| `PercentEncoding.RequestUrls` | clients/cpp/include/zed_pkg/client.hpp:40-51 | for every valid base and all coordinates, base and path together split after RFC 3986 into the scheme and authority of the base and its path followed by the coordinates' path, with no query and no fragment |
| `AtomicFile.WriteFileAtomic` | clients/go/client.go:533-571 | for every fault schedule, the result, the files at the end and every state in between are those of the specification |
| `AtomicFile.StatesOfRun` | clients/go/client.go:533-571 | in one run no state touches a file other than the destination and the temporary one, and every state shows the old destination or the whole payload unless the temporary file has the destination's name |
| `AtomicFile.EveryStateOldOrNew` | clients/go/client.go:533-571 | before the call: no fault schedule and no drawn name can show the destination half written if and only if it exists, or the payload is empty, or its name is none the system may pick |
| `AtomicFile.Ending` | clients/go/client.go:533-571 | success leaves the payload; failure leaves everything as it was, and no temporary file if it could be removed |
| `AtomicFile.DownloadArtifact` | clients/go/client.go:573-616 | each outcome exactly when its check is the first to fail; it succeeds only with the expected digest, and no file is touched before that matched |
| `AtomicFile.FoldedEqual` | clients/go/client.go:612 | the comparison passes exactly when the digests agree letter by letter up to ASCII case; for lower-case hexadecimal that is equality |
| `AtomicFile.FoldedDigits` | clients/go/client.go:612 | for hexadecimal of any case it passes exactly when the digests have the same digits by value |
| `AtomicFile.DownloadLimits` | clients/go/client.go:37-46 | a hundred mebibytes, or the declared size and one mebibyte where that is less |
| `AtomicFile.PickableNames` | clients/go/client.go:542 | the names the system may pick are the prefix followed by a 32-bit number in decimal |
| `TargetTable.PosixRoundTrip` | scripts/harden_client_contract.py:845 | a relative path written as text is read back as itself |
| `TargetAllocator.PreferDir` | scripts/harden_client_contract.py:601-626 | the loops over names and aliases find the preferred directory of the specification |
| `TargetAllocator.ChooseOne` | scripts/harden_client_contract.py:650-667 | one turn of the loop: the two repairs, then an escape error, a collision error or a directory |
| `TargetAllocator.ChooseTargetDirs` | scripts/harden_client_contract.py:629-668 | the loop with its reservations, claims and selections computes the greedy allocation; with distinct canonical directories it succeeds and the returned dictionary isolates the targets |
| `TargetAllocator.SelectionIsIsolated` | scripts/harden_client_contract.py:629-668 | for every manifest and file system the returned dictionary holds exactly the targets, each inside the root, no two at one place, none at a directory canonical for another |
| `TargetAllocator.Isolated` | scripts/harden_client_contract.py:629-668 | for every manifest and file system the chosen directories are inside the root and pairwise distinct after resolution |
| `TargetAllocator.NeverFails` | scripts/harden_client_contract.py:629-668 | with distinct canonical directories neither error is reachable, and no target gets a directory reserved for another |
| `TargetPreference.DeclaredFirst` | scripts/harden_client_contract.py:601-612 | a present directory declared under a name that counts is preferred, and the published target's own name goes before its aliases |
| `TargetPreference.ThenInOrder` | scripts/harden_client_contract.py:613-626 | without one: the canonical directory if present, else the shared one if it serves the runtime, else the first present alias, else the canonical one |
| `TargetPreference.NothingAbandoned` | scripts/harden_client_contract.py:601-626 | if a declared, the canonical or an alias directory is present, so is the preferred one, or it is the shared directory with the runtime's source |
| `TargetPreference.KeptWhenFree` | scripts/harden_client_contract.py:650-667 | every target gets its preferred directory exactly when that is inside the root, unclaimed by earlier targets and canonical for no other, and its canonical one otherwise |
| `TargetPreference.ResolveParent` | scripts/harden_client_contract.py:650-652 | `..` takes back the part before it and nothing above the root |
| `TargetPreference.ParsedParts` | scripts/harden_client_contract.py:610 | a path is read as its parts between slashes, without empty ones and dots, and is absolute if it starts with a slash |
| `ClientCoverage.ExtensionClientDirs` | scripts/harden_client_contract.py:689-712 | exactly the visible children that no target owns, in the order of their names, each once |
| `ClientCoverage.Uncovered` | scripts/harden_client_contract.py:1453-1471 | exactly the visible children that no declared directory covers, in the order of their names |
| `ClientCoverage.DeclaredCovers` | scripts/harden_client_contract.py:1262-1304 | the directories as the contract manifest writes and reads them cover every child that is owned or an extension |
| `ClientCoverage.DeclareAndCheck` | scripts/harden_client_contract.py:689-712 | each visible child is an extension exactly when no target owns it, and the check over what is then declared (lines 1453-1471) finds none uncovered |
| `ManifestMigration.MergeMissingTable` | scripts/harden_client_contract.py:671-679 | the loop over the legacy keys computes the deep merge |
| `ManifestMigration.MergeLeaf` | scripts/harden_client_contract.py:671-679 | every leaf of a merge is the current one where the current table decides the path, and the legacy one otherwise |
| `ManifestMigration.MergeAbsorbs` | scripts/harden_client_contract.py:671-679 | merging the same table again changes nothing |
| `ManifestMigration.NoAliasLeft` | scripts/harden_client_contract.py:825-854 | after the loop no alias key is left, and keys that are neither aliases nor published targets are untouched |
| `ManifestMigration.KeepsMetadata` | scripts/harden_client_contract.py:825-854 | a published target keeps every canonical leaf and every alias leaf no earlier table decides, save directory, adapter and an invalid name; no other leaf appears |
| `ManifestMigration.MigrationIsIdempotent` | scripts/harden_client_contract.py:825-854 | migrating again with the same directories changes nothing |
| `ManifestMigration.NameMatches` | scripts/harden_client_contract.py:27 | the regular expression of a target name accepts exactly the valid names |
| `ManifestRun.Manifest.EnsureRepository` | scripts/harden_client_contract.py:805-823 | the repository target after the step, with the early root contract taken in |
| `ManifestRun.Manifest.FoldAliases` | scripts/harden_client_contract.py:830-841 | the loop folds the canonical table and every alias table into one, in order, and deletes every alias |
| `ManifestRun.Manifest.MigrateTarget` | scripts/harden_client_contract.py:825-854 | one turn of the loop: aliases folded in and deleted, then directory, adapter and name |
| `ManifestRun.Manifest.EnsureManifest` | scripts/harden_client_contract.py:756-858 | a mature manifest is left alone; a directory that is not written below the root raises before the file changes; otherwise the file holds the migrated targets |
| `ManifestRun.IsMature` | scripts/harden_client_contract.py:759-787 | counting directories other than the root and those of them below `clients`: mature with thirteen safe ones and no other |
| `ManifestRun.RepositoryIdempotent` | scripts/harden_client_contract.py:805-823 | the repository step is idempotent if and only if it took in no named root contract |
| `ManifestMaturity.MatureAfter` | scripts/harden_client_contract.py:759-787 | which manifests a run that takes in a name leaves mature, read off the manifest and the directories before it |
| `ManifestMaturity.RunIsIdempotent` | scripts/harden_client_contract.py:756-858 | the whole step is idempotent if and only if, before it, the manifest is mature, or takes in no named root contract, or is about to become mature |
| `ManifestRun.NameSurvivesOneRun` | scripts/harden_client_contract.py:808-823 | the manifest on which a second run differs, for every table of targets in which `docs` is neither a target nor an alias |
| `Rerun.ChoiceIsStable` | scripts/harden_client_contract.py:601-668 | from a manifest that declares the chosen directories, choosing again gives every published target its own one, whatever else changed on disk |
| `Rerun.RunDeclares` | scripts/harden_client_contract.py:845 | the migrated manifest declares them |
| `Rerun.SecondRun` | scripts/harden_client_contract.py:601-858 | two whole runs: the same directories for the published targets, and the same manifest exactly under that condition on the first manifest and directories |
| `StandardTargets.StandardTable` | scripts/harden_client_contract.py:59-126 | the real table of twenty targets meets every condition of the theorems on allocation and migration |
| `StandardTargets.StandardAllocation` | scripts/harden_client_contract.py:629-668 | so over the real table allocation succeeds for every manifest and file system |
| `StandardTargets.LegacyClientKept` | scripts/harden_client_contract.py:601-668 | over the real table a repository with nothing but `clients/cxx` keeps it as the directory of its target |
| `StandardTargets.StandardMaturity` | scripts/harden_client_contract.py:759-787 | over the real table there are always enough safe directories, so a run that takes in a name leaves the manifest mature if and only if no foreign entry and no target lies outside `clients` |
| `StandardTargets.StandardSecondRun` | scripts/harden_client_contract.py:601-858 | two whole runs over the real table: same directories, and the same manifest if and only if no name is taken in or nothing lies outside `clients` |
| `StandardTargets.StandardNameSurvives` | scripts/harden_client_contract.py:808-823 | over the real table one run is not always a fixed point |
| `SurfaceChecks.IdentifierDecides` | scripts/harden_client_contract.py:522-525 | two lineages have one identifier if and only if they agree part by part in the characters kept |
| `DocumentationId.PartReplaces` | scripts/harden_client_contract.py:522-525 | a run of other characters between two clean parts becomes one hyphen, goes at either end, and alone becomes `item` |
| `SurfaceMetadata.Visit` | scripts/harden_client_contract.py:488-540 | the visit returns the enriched tree and reports a change exactly when there is one |
| `SurfaceFindings.SemanticErrors` | scripts/harden_client_contract.py:543-598 | the lists, loops and the two walks over the tree find nothing exactly on sound surfaces with distinct identifiers, and each finding means what it says |
| `SurfaceFindings.CollectIds` | scripts/harden_client_contract.py:575-594 | the walk lists the identifier of every place that has one, each once |
| `SurfaceMetadata.OnlyAdds` | scripts/harden_client_contract.py:488-540 | enrichment only adds metadata keys, at every depth |
| `SurfaceMetadata.EnrichIsIdempotent` | scripts/harden_client_contract.py:488-540 | enriching again changes nothing |
| `SurfaceChecks.EnrichKeepsFindings` | scripts/harden_client_contract.py:488-598 | on every surface whose symbol names are no lists or objects, enrichment changes the verdict of no check on names, references, required declarations or metadata, in either direction |
| `SurfaceChecks.IdAfter` | scripts/harden_client_contract.py:488-540 | the identifier at every place afterwards is the one there before, or else the one the lineage spells |
| `SurfaceChecks.EnrichedIdsDiffer` | scripts/harden_client_contract.py:488-540 | for every surface, identifiers are distinct afterwards if and only if the existing ones and the lineages still without one are pairwise distinct |
| `SurfaceChecks.TidyIdsDiffer` | scripts/harden_client_contract.py:488-540 | so they are on every surface without identifiers whose keys are clean and whose described objects are named |
| `SurfaceChecks.UncleanKeysCollide` | scripts/harden_client_contract.py:488-540 | a surface without identifiers on which they nevertheless collide, because an identifier does not tell its keys apart |
| `SurfaceChecks.MovedSymbolCollides` | scripts/harden_client_contract.py:488-540 | a symbol enriched at one index and moved to another collides with a new symbol of the same shape at the old index |
| `SurfaceBaseline.NamesDiffer` | scripts/harden_client_contract.py:214-380 | the nine standard names are distinct for every prefix |
| `SurfaceBaseline.BaselineHasNoFindings` | scripts/harden_client_contract.py:443-598 | for every prefix and every list of interfaces the generated surface, enriched, has no finding |
| `SurfaceBaseline.MergeStandardSymbols` | scripts/harden_client_contract.py:463-474 | the loop appends what the specification appends and reports a change exactly when there is one |
| `SurfaceBaseline.AppendedOnlyMissing` | scripts/harden_client_contract.py:463-474 | the old symbols stay in front, only standard symbols with missing names are appended, and afterwards every standard name is there |
| `SurfaceBaseline.MergeIsIdempotent` | scripts/harden_client_contract.py:463-474 | merging again appends nothing |
| `SurfaceBaseline.MergeKeepsDistinct` | scripts/harden_client_contract.py:463-474 | distinct names stay distinct |
| `SurfaceBaseline.SecondRunChangesNothing` | scripts/harden_client_contract.py:1228-1243 | for every surface and prefix, merging the standard symbols and enriching a second time changes nothing |
| `SurfaceBaseline.DeletionCollides` | scripts/harden_client_contract.py:1228-1243 | for every prefix: the enriched generated surface without the client class and the functions, merged and enriched again, holds one identifier twice |

## Left out

- HTTP transport, timeouts, cancellation, TLS, redirects, headers and tokens: library calls. A stream is the sequence of its chunks, a read of the Java stream gives at least one byte or the end.
- URL, TOML and Nix JSON parsers: parameters with a stated law (`Lawful`). Regular expressions are patterns with the usual meaning, matched against the whole string. The Nix JSON laws ask only that a parser reads back what is printed for an accepted record.
- Go tells a nil slice from an empty one; both are an empty sequence here, which accepted records print alike.
- SHA-256 outside the Swift client: a parameter.
- The orders of `localeCompare` and of Go's string comparison on invalid UTF-8: any strict total order, and the order of code points. That the two clients emit the same canonical bytes is not claimed.
- NixCanonicalTs.VerifyCanonicalJson: does not model documents of the nix-to-zed direction, which have one realized output and the same sorts of its references and signatures.
- NixAdapterGo.VerifyCanonicalJson: likewise; nor does any other member model that direction, artifact verification, or the rejection of unknown fields and nulls.
- Numbers in canonical JSON are their token text, so `-0` and other spellings of one number are outside; lone surrogates are kept as units.
- How Swift splits a string into grapheme clusters: a parameter of `MultipartBody`.
- Re-encoding of Latin-1 by the Erlang text conversion, `unicode:characters_to_binary` failures, and the exact grammar of a host: the library parameter decides.
- Case folding beyond ASCII in Go's `EqualFold`: no other character folds to a hexadecimal digit, and the computed digest is hexadecimal.
- The texts of the rejections of an envelope: `AdmissionCheck` names the check that failed first.
- Symbolic links, real paths, permissions and exactly two leading slashes: paths are lists of parts, `..` is resolved lexically, and presence is a function of the path.
- The `package` and `install` tables of the manifest, a `targets` entry that is not a table, comments and formatting of the TOML text: plain assignments or library behaviour.
- Nested manifest tables and surface objects are values, so the model does not capture that a merged legacy subtable is shared, until its owner is deleted a moment later.
- Message texts and ordering of the surface findings; kinds and behaviours that are lists or objects, which raise in the source where a set is asked, and symbol names that are, whose printed form enrichment changes; `symbols` or `methods` that are not lists.
- Scaffolds, matrix and README checks, implementation digests: text emission and presence checks.
- The other clients: repeats of the same checks.
