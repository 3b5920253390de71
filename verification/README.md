# h00ligan verification

Dafny models of the parts of h00ligan that hold state or compute graphs, with proofs about
them. Verify everything with `dafny verify dfyconfig.toml`.

Each module follows one component. Code that works by changing things is a class or a method
with loops, proved against a specification function; what the component is for is then proved
about that function, as lemmas over all inputs, runs or reachable states.

| area | modules |
|---|---|
| change impact: reverse traversal, accounting, the completeness claim | StructuralGraph, StructuralImpact, ImpactAccounting, ImpactReport |
| continuation cursors, size-bounded pages, request and indexer identities | Hex, Cursor, Paging, RequestIdentity, PathComponents, IndexerIdentity |
| semantic providers as request/response state machines | ProviderProtocol, ProviderLoops, TypeScriptProtocol, TypeScriptRuns, TypeScriptOutcomes, TypeScriptProvider, RustProtocol, RustRuns, RustOutcomes, RustProvider |
| file-system observations as authority | WorkspaceInputs, WorkspaceTrees, WorkspaceWitness, WorkspaceInputPlan, ProbeCollapse |
| reuse of Cargo output, publication of cache directories | CargoGeneration, CargoMixture, CachePublish |
| CycloneDX documents: normalization, relocation, exact-graph check | JsonTrees, SbomNormalize, SbomIsomorphism, SbomRelocation, SbomPlaceless, SbomForeign, SbomContents, SbomAcceptance, SbomGraph |
| frames, protobuf scan, audit counts | FrameCodec, ProtobufScan, AuditCoupling, AuditAuthority |
| shared by the above | Wrappers, Sets, Sorting, Splitting, Bytes |

In the provider modules a `World` holds what one request finds outside the process: runtime
configuration, files, evidence of the compiler, emitted documents. Every statement holds for
every world. SHA-256 is a function parameter; a lemma that needs it free of collisions says so.

## Where a guarantee is conditional

- Hex decoding also accepts upper case and a plus sign, so a cursor has several spellings
  (`Hex.CanonicalIff`, `Hex.PlusSignAccepted`); the payload and its checksum are unaffected.
- The exact-only and qualified-binding counts add up to the execution count exactly when no
  caller has paths of both kinds (`ImpactAccounting.ExactAndQualified`).
- The indexer identity sorts files by the components of their paths and hashes the paths as
  written. So it ignores the order of files exactly when no path is listed with two contents or
  in two spellings, as a/b beside a//b (`IndexerIdentity.FileOrderIrrelevantIff`,
  `IndexerIdentity.TwoSpellingsTell`). It tells features from files only by the key prefix
  (`IndexerIdentity.UnseparatedCollision`).
- Coalescing loses an observation exactly when a symbolic link or a parent step lies between the
  kept directory and the dropped path (`WorkspaceWitness.CoalescingLosesNothingIff`).
- Publishing is safe exactly for non-empty candidates, since rename replaces an empty directory
  (`CachePublish.SafeIffNonEmpty`).
- A reused binary is a clean compile only while nothing was compiled after the receipt was
  recorded. A build that dies, or one that finishes with the very same binary and is not
  recorded, leaves a receipt that still matches over objects that do not, and the next build
  may mix them. All builds are clean exactly if every match finds all stamps older than the
  receipt, which whoever holds the build lock can look up, or if mixing objects makes no
  difference to any binary (`CargoMixture.AlwaysCleanIff`, with the failing runs
  `CargoMixture.InterruptedBuildCanMix` and `CargoMixture.CrashBetweenStepsCanMix`). Requests
  that record every build are clean as they are (`CargoGeneration.RecordedRunsAreClean`).
- A Rust provider whose refresh fails after its epoch stays at the next authority although it
  answered with an error; repeating the request is then refused (`RustRuns.RefusedRefresh`,
  `RustRuns.RepeatedRefreshRefused`).

## Model

| member | source | states |
|---|---|---|
| `StructuralImpact.CollectStructuralImpact` | crates/h00ligan-engine/src/code_intel_assess.rs:900-959 | The breadth-first loop fails exactly when some node within the bound is not in the store, naming such a node; otherwise the paths are exactly the nodes at shortest reverse distance 1 to the bound, each a real chain of that length, and the cutoffs exactly the nodes at bound + 1 |
| `StructuralImpact.TraverseCorrect` | crates/h00ligan-engine/src/code_intel_assess.rs:909-959 | The same exactness for the specification function, for every graph, target and bound: soundness, shortest paths, completeness, exact cutoffs |
| `StructuralImpact.TraverseOrderIndependent` | crates/h00ligan-engine/src/code_intel_assess.rs:909-932 | Two stores that list the same incoming edges in any order give the identical traversal, paths included |
| `StructuralImpact.ZeroCutoffIffClosure` | crates/h00ligan-engine/src/code_intel_assess.rs:933-959 | The cutoff set is empty if and only if the paths cover the whole reverse-reachable closure |
| `StructuralImpact.ExpandHead` | crates/h00ligan-engine/src/code_intel_assess.rs:917-956 | The inner loop over the ordered dependents of one node is the fold of the single-edge admission, visited, cutoff and failure cases included |
| `StructuralGraph.ProjectionExact` | crates/h00ligan-engine/src/code_intel_assess.rs:961-973 | A dependent is kept if and only if some incoming edge has that source and a kind that counts as structural impact |
| `StructuralGraph.ProjectionMultiset` | crates/h00ligan-engine/src/code_intel_assess.rs:910-916 | The projection keeps multiplicities, so it depends on the edges as a multiset only |
| `StructuralGraph.OrderedDependentsStable` | crates/h00ligan-engine/src/code_intel_assess.rs:917-932 | The order in which dependents are expanded does not depend on the order of the store |
| `StructuralGraph.FollowedInOrder` | crates/h00ligan-engine/src/code_intel_assess.rs:917-932 | Edges are followed by the file of the dependent, its name, the kind of relation and its id, in that order of weight |
| `ImpactAccounting.MergeImpacts` | crates/h00ligan-engine/src/code_intel_assess.rs:420-475 | The two merging loops succeed exactly when every node and symbol needed exists, and then compute the declarative accounting: one impact per admitted id with the last listed call path and the structural path, and the six populations |
| `ImpactAccounting.AccountingPartition` | crates/h00ligan-engine/src/code_intel_assess.rs:420-475 | Items and filtered-out symbols are disjoint and together count the union of both path populations; the items are exactly execution plus structural |
| `ImpactAccounting.ExactAndQualified` | crates/h00ligan-engine/src/code_intel_assess.rs:437-442 | Exact-only and qualified-binding symbols cover the execution population, and their counts add up to it if and only if no caller has both an exact and a qualified path |
| `ImpactAccounting.WellFormedEvidenceSplits` | crates/h00ligan-engine/src/code_intel_assess.rs:868-898 | For evidence with one path per caller the two counts always add up |
| `ImpactAccounting.ResolvableIff` | crates/h00ligan-engine/src/code_intel_assess.rs:424-474 | Merging succeeds exactly when every node the evidence names is in the graph and everything that will be shown, steps of structural paths included, has a source identity |
| `ImpactAccounting.CountedIn` | crates/h00ligan-engine/src/code_intel_assess.rs:424-460 | Into which of the populations a symbol goes, by what the filter admits of its reachability and by its call paths and structural path |
| `ImpactAccounting.EntryHolds` | crates/h00ligan-engine/src/code_intel_assess.rs:443-474 | What the entry of a symbol holds: its identity and reachability, the chain of the call path listed last, the structural path step for step |
| `ImpactReport.OrderItems` | crates/h00ligan-engine/src/code_intel_assess.rs:476-499 | One item for each impacted symbol and no other, sorted by depth, document, name, symbol id |
| `ImpactReport.ShownInOrder` | crates/h00ligan-engine/src/code_intel_assess.rs:483-499 | No item stands after one that is deeper or, equally deep, later by document, name and symbol id in byte order |
| `ImpactReport.DepthOfItem` | crates/h00ligan-engine/src/code_intel_assess.rs:1012-1021 | The depth of an item is the length of its only path or the shorter of its two; it lies between 1 and the bound and is never more than its true structural distance |
| `ImpactReport.ReportedWitness` | crates/h00ligan-engine/src/code_intel_assess.rs:989-1010 | The structural path shown with an item is connected, leads from its own symbol to the symbol of the target, and is as long as its true structural distance |
| `ImpactReport.CompleteIff` | crates/h00ligan-engine/src/code_intel_assess.rs:500-522 | Completeness is claimed if and only if inventory, structural coverage and calls authority are complete, calls apply, no call path was cut off and no node lies one step beyond the bound |
| `ImpactReport.CompletePopulationCoversClosure` | crates/h00ligan-engine/src/code_intel_assess.rs:508-522 | When completeness is claimed, every transitive structural dependent and every provider caller is an item or filtered out, never both, and nothing else is either |
| `ImpactReport.CutoffWithholdsClaim` | crates/h00ligan-engine/src/code_intel_assess.rs:517-522 | With a cutoff completeness is never claimed, and a dependent one step beyond the bound is named that is missing unless a call path found it |
| `ImpactReport.Assess` | crates/h00ligan-engine/src/code_intel_assess.rs:415-522 | Traverse, merge, order and claim: succeeds exactly when the traversal does and every symbol resolves; the items are those of the accounting in order; the completeness claim holds exactly under its six conditions and then the whole closure is accounted for |
| `Paging.SelectAssessPage` | crates/h00ligan-engine/src/code_intel_assess.rs:587-850 | The loop over descending limits returns the page of the largest limit at or below the requested one that fits with or without previews, as many items as that limit or as are left from where the cursor points; the cursor error at the first limit that meets one; or the smallest size tried, which is over the bound |
| `Paging.SelectPage` | crates/h00ligan-engine/src/code_intel_find.rs:287-350 | The same without previews (also the loop of the audit): largest fitting limit, cursor error, or the size of the one-item page |
| `Paging.PageWindowIff` | crates/h00ligan-engine/src/code_intel_cursor.rs:48-96 | A window is exactly the page of its limit: from the cursor or the beginning, that many items or what is left, with a continuation to its end that expires in 900 seconds if and only if something is left; refused exactly for a cursor that does not decode or points past the end |
| `Paging.PageIssued` | crates/h00ligan-engine/src/code_intel_cursor.rs:48-96 | Whatever limit was chosen, the page states its own window, advances if anything is left, and carries a cursor to exactly its end if and only if it is not the last |
| `Paging.ContinuationHonoured` | crates/h00ligan-engine/src/code_intel_cursor.rs:48-96 | A continuation is accepted for the same query exactly until it expires and resumes exactly where its page ended |
| `Paging.ChainPartitions` | crates/h00ligan-engine/src/code_intel_cursor.rs:48-96 | Following the cursor, for any limits of at least 1, any clocks and any sizes: the pages shown so far are exactly a prefix of the items, every page makes progress, and the last page is the one without more and completes the list |
| `Cursor.IssuedCursorDecodes` | crates/h00ligan-engine/src/code_intel_cursor.rs:98-141 | An issued cursor decodes to its own payload if and only if operation, request and generation are its own and it has not expired; otherwise exactly one of the three errors, in that precedence |
| `Cursor.DecodedIff` | crates/h00ligan-engine/src/code_intel_cursor.rs:104-141 | For any text, issued or not: malformed exactly when it carries no payload, otherwise the first of version, checksum, request, generation and expiry that fails, and accepted exactly when none does |
| `Cursor.ChecksumPreimageInjective` | crates/h00ligan-engine/src/code_intel_cursor.rs:143-153 | Payloads that differ anywhere but in the checksum have different checksum preimages |
| `Cursor.AcceptedChecksumIdentifies` | crates/h00ligan-engine/src/code_intel_cursor.rs:104-153 | Two accepted cursors carry the same checksum if and only if they carry the same payload |
| `Hex.RoundTrip` | crates/h00ligan-engine/src/code_intel_cursor.rs:155-183 | Decoding undoes encoding for all bytes |
| `Hex.CanonicalIff` | crates/h00ligan-engine/src/code_intel_cursor.rs:155-167 | An accepted text is what encoding would have written if and only if it has lower-case digits only |
| `Hex.PlusSignAccepted` | crates/h00ligan-engine/src/code_intel_cursor.rs:155-167 | The parser also takes a plus sign, so decoding is only a left inverse: a text that decodes although nothing encodes to it |
| `Hex.CaseIgnored` | crates/h00ligan-engine/src/code_intel_cursor.rs:155-167 | Upper-case digits read like lower-case ones |
| `RequestIdentity.RequestDigest` | crates/h00ligan-engine/src/code_intel_cursor.rs:36-46 | Feeding operation and fields to a hasher one by one hashes the length-prefixed preimage |
| `RequestIdentity.RequestPreimageInjective` | crates/h00ligan-engine/src/code_intel_cursor.rs:36-46 | Operation and field list can both be read back from the preimage |
| `RequestIdentity.ValidFindIff` | crates/h00ligan-engine/src/code_intel_find.rs:127-165 | A Find request is refused for the first field out of bounds, and accepted exactly when none is |
| `RequestIdentity.ResolvedIff` | crates/h00ligan-engine/src/code_intel_find.rs:171-183 | Whether the query is taken for a path, and what it resolves to |
| `RequestIdentity.FindIdentityIff` | crates/h00ligan-engine/src/code_intel_find.rs:127-240 | For two validated and resolved Find requests the preimages are equal if and only if query, mode, kind and definitions flag are |
| `RequestIdentity.EmptyKindWouldCollide` | crates/h00ligan-engine/src/code_intel_find.rs:228-240 | Without the validation of the kind an absent and an empty one would share an identity |
| `RequestIdentity.AssessIdentityIff` | crates/h00ligan-engine/src/code_intel_assess.rs:1033-1064 | Valid Assess requests have equal preimages if and only if they are the same request, the joined section list included |
| `RequestIdentity.JoinInjective` | crates/h00ligan-engine/src/code_intel_assess.rs:1038-1043 | Comma-free names can be read back from their comma-separated list |
| `IndexerIdentity.Calculate` | crates/h00ligan-engine/build_support/indexer_identity.rs:5-36 | Sorting features by bytes and files by path components and feeding the hasher hashes the preimage of target, features and files |
| `IndexerIdentity.IdentityIff` | crates/h00ligan-engine/build_support/indexer_identity.rs:5-43 | Two inputs share a preimage if and only if targets and the sorted feature and file lists, run together, are equal |
| `IndexerIdentity.SeparableIdentityIff` | crates/h00ligan-engine/build_support/indexer_identity.rs:5-43 | When feature keys carry the CARGO_FEATURE_ prefix and file paths do not: if and only if targets, features as a multiset and files in the order of their path components are each equal |
| `IndexerIdentity.UnseparatedCollision` | crates/h00ligan-engine/build_support/indexer_identity.rs:13-30 | Without that convention a feature and a file are interchangeable |
| `IndexerIdentity.FeaturesReorder` | crates/h00ligan-engine/build_support/indexer_identity.rs:13-18 | Reordering features never changes the identity |
| `IndexerIdentity.FileOrderIrrelevantIff` | crates/h00ligan-engine/build_support/indexer_identity.rs:19-30 | Reordering files changes nothing for every order if and only if no path, compared by components, is listed in two spellings or with two contents |
| `IndexerIdentity.SortStable` | crates/h00ligan-engine/build_support/indexer_identity.rs:19-30 | The file sort keeps the relative order of the entries of one path, however spelled |
| `IndexerIdentity.FeaturesInOrder` | crates/h00ligan-engine/build_support/indexer_identity.rs:13-14 | Features stand in the byte order of their keys, then of their values |
| `IndexerIdentity.FilesInOrder` | crates/h00ligan-engine/build_support/indexer_identity.rs:19-20 | Files stand in the order of their paths, component by component |
| `PathComponents.PathLeqIff` | crates/h00ligan-engine/build_support/indexer_identity.rs:20-20 | One path comes before another exactly when it ends where the other goes on or has the earlier component where they part, root before dot before dots before names in byte order |
| `IndexerIdentity.TwoSpellingsTell` | crates/h00ligan-engine/build_support/indexer_identity.rs:19-30 | One file listed under a path and the same path with a doubled slash: the order of the two counts, even with the same contents |
| `PathComponents.SamePath` | crates/h00ligan-engine/build_support/indexer_identity.rs:20-20 | A doubled slash or an inner dot leaves the components of a path as they are, so such paths tie in the sort |
| `PathComponents.ChildrenFirst` | crates/h00ligan-engine/build_support/indexer_identity.rs:20-20 | The files of a directory sort strictly before a file whose name continues the name of the directory, as src/foo/mod.rs before src/foo.rs |
| `ProviderProtocol.PopulationOrderFree` | providers/go/shared/h00provider/protocol.go:379-403 | The population digest is a function of the sources as a population, whatever order lists them |
| `ProviderProtocol.PopulationDigestIdentifies` | providers/go/shared/h00provider/protocol.go:379-403 | Without collisions two accepted populations share a digest if and only if they are the same |
| `ProviderProtocol.PopulationAcceptedIff` | providers/go/shared/h00provider/protocol.go:379-403 | A digest is given exactly for one to 4096 sources on distinct safe paths, each with a language, an identity and a digest |
| `ProviderProtocol.SafePathIff` | providers/go/shared/h00provider/protocol.go:807-820 | A path is safe exactly when it is relative, has no backslash, and nothing between two of its slashes is empty, a dot or two dots |
| `ProviderProtocol.Sha256Iff` | providers/go/shared/h00provider/protocol.go:778-790 | A digest is well-formed exactly when it is what 32 bytes are written as in lower-case hexadecimal |
| `ProviderProtocol.OverrideAt` | providers/typescript/h00_semantic_provider.go:456-462 | After an epoch a changed path has exactly the source its last change announces |
| `ProviderProtocol.ExportOutcomes` | providers/typescript/h00_semantic_provider.go:524-547 | One outcome per path in its place, present exactly for the paths that produced a document, numbered 0, 1, 2, ... so that every attachment is claimed by exactly the outcome carrying its digest |
| `TypeScriptRuns.OpenConsistent` | providers/typescript/h00_semantic_provider.go:319-390 | An admitted session holds exactly the declared sources, and its population digest and every retained byte string match them |
| `TypeScriptRuns.EpochConsistent` | providers/typescript/h00_semantic_provider.go:416-492 | An accepted epoch is the in-order override of the sources, keeps their domain and the consistency, and moves to exactly the announced authority: epoch + 1, nothing else but the population digest |
| `TypeScriptRuns.EpochAttachmentsBijective` | providers/typescript/h00_semantic_provider.go:431-471 | An admissible epoch uses its attachments as a bijection with its changes, each carrying the recorded digest |
| `TypeScriptRuns.RequestKeeps` | providers/typescript/h00_semantic_provider.go:140-317 | A reply that does not close the process leaves a consistent session and has opened it, moved it by one accepted epoch or not touched it; so any failure after the engine began to change is terminal |
| `TypeScriptRuns.ReplayIff` | providers/typescript/h00_semantic_provider.go:158-161 | A request is refused as a replay exactly when its id is zero or not above the last one, and then nothing changes |
| `TypeScriptRuns.RunsStayConsistent` | providers/typescript/h00_semantic_provider.go:97-137 | In every state of a run in which a request can be read, population digest, retained bytes and compiler texts match the sources |
| `TypeScriptRuns.RunLineage` | providers/typescript/h00_semantic_provider.go:416-492 | Over a run a later session descends from an earlier one: same source domain, as many epochs on as were accepted, every other authority field but the digest constant |
| `TypeScriptRuns.FreshRequestIdsIncrease` | providers/typescript/h00_semantic_provider.go:158-161 | The ids of requests not refused as replays strictly increase |
| `TypeScriptRuns.AtMostOneSessionOpens` | providers/typescript/h00_semantic_provider.go:203-219 | One process opens at most one session |
| `TypeScriptRuns.ServedRequestsNameTheCurrentAuthority` | providers/typescript/h00_semantic_provider.go:416-502 | An epoch, refresh or certification is served only if it names exactly the current authority |
| `TypeScriptRuns.SupersededAuthorityNeverServed` | providers/typescript/h00_semantic_provider.go:421-430 | An authority once left behind is never served again in the run, even when an edit restores earlier bytes |
| `TypeScriptRuns.ServedExportsAnswer` | providers/typescript/h00_semantic_provider.go:494-552 | A served refresh or certification answers exactly the requested paths, or exactly all sources, once each in path order, present ones numbered in turn with the right digests |
| `TypeScriptRuns.ReplacementsSucceedIff` | providers/typescript/h00_typescript_engine.go:597-631 | Replacing succeeds exactly when the engine is live, something is replaced, all of it is UTF-8 and every reload succeeds; then all of it is done |
| `TypeScriptOutcomes.AnnouncedIsCurrent` | providers/typescript/h00_semantic_provider.go:203-301 | Every authority a reply announces is the one the session then holds: the next one of the request after an epoch or refresh, the one named by a certification; a refresh repeats the parent snapshot, and only exports carry attachments |
| `TypeScriptOutcomes.HeardOnly` | providers/typescript/h00_semantic_provider.go:158-190 | A request is dispatched exactly when it is new, addressed to this provider and session, and runtime and evidence are as they were; otherwise the refusal, the process state and whether the process ends |
| `TypeScriptOutcomes.OpenedIff` | providers/typescript/h00_semantic_provider.go:203-390 | A session is opened exactly when there is none and every check on the request, the roots, the sources on disk and the observed evidence passes; it then holds the announced authority completed by the two observed digests, each in its place, and each source with its bytes at version one |
| `TypeScriptOutcomes.CarriesOutIff` | providers/typescript/h00_semantic_provider.go:416-492 | An epoch is carried out exactly when it moves on from the held authority by one epoch, every change fits its source and its own attachment, the digest is that of the sources it leads to, all reloads succeed and the evidence stays |
| `TypeScriptOutcomes.EpochMoves` | providers/typescript/h00_semantic_provider.go:456-492 | What an epoch leaves: changed paths have the announced source, the bytes of the attachment, also told to the compiler, and the next 32-bit version; everything else is as it was |
| `TypeScriptOutcomes.AppliedIff` | providers/typescript/h00_semantic_provider.go:229-242 | An epoch reply is given exactly when a session is open and the epoch is carried out |
| `TypeScriptOutcomes.ExportsIff` | providers/typescript/h00_semantic_provider.go:494-552 | Documents are exported exactly when they are one to 4096 distinct sources on safe paths, the compiler emitted at most one document for each path and something for each requested one it emitted, and the evidence stays |
| `TypeScriptOutcomes.RefreshedIff` | providers/typescript/h00_semantic_provider.go:243-278 | A refresh is answered exactly when its epoch is carried out, no analysis is asked for, its documents can be exported and the runtime stays |
| `TypeScriptOutcomes.CertifiedIff` | providers/typescript/h00_semantic_provider.go:279-301 | A certification is answered exactly when it names the held authority, asks for no analysis, attaches nothing and all sources can be exported |
| `TypeScriptOutcomes.GreetedIff` | providers/typescript/h00_semantic_provider.go:193-202 | Greetings and goodbyes are answered exactly when heard and well-formed |
| `TypeScriptOutcomes.RefusedIff` | providers/typescript/h00_semantic_provider.go:140-317 | A new request is called invalid exactly when it is misaddressed, foreign or ill-formed for its operation; a reply ends the process exactly when it says goodbye, reports a failure or refuses a foreign session |
| `TypeScriptProvider.Engine.ApplyReplacements` | providers/typescript/h00_typescript_engine.go:597-631 | The two loops over the engine fields: compiler texts first, then adoption, leaving exactly what had been done when one fails |
| `TypeScriptProvider.Engine.Adopt` | providers/typescript/h00_typescript_engine.go:619-630 | The adopting loop overwrites sources, bytes and versions up to and including the first replacement whose reload fails |
| `TypeScriptProvider.ReadSources` | providers/typescript/h00_typescript_engine.go:208-227 | All bytes are read exactly when every source lies inside the execution root, is readable and has its declared digest |
| `TypeScriptProvider.Session.VerifyAuthorityInputs` | providers/typescript/h00_semantic_provider.go:399-414 | Accepts exactly evidence equal to that recorded at open, from a live engine |
| `TypeScriptProvider.Session.PrepareEpoch` | providers/typescript/h00_semantic_provider.go:431-471 | Succeeds exactly when every change is valid, attachments are claimed once each and none is left; then yields the override and the replacements |
| `TypeScriptProvider.Session.ApplyEpoch` | providers/typescript/h00_semantic_provider.go:416-492 | The whole new session state, for a served, a refused and a half-done epoch |
| `TypeScriptProvider.Session.ExportDocuments` | providers/typescript/h00_semantic_provider.go:494-552 | The answer or refusal of an export, checks in order, from the sorted paths and the filed documents |
| `TypeScriptProvider.CollectDocuments` | providers/typescript/h00_semantic_provider.go:517-523 | Documents filed by path, refused exactly when one path was emitted twice |
| `TypeScriptProvider.BuildOutcomes` | providers/typescript/h00_semantic_provider.go:524-547 | The loop over the paths builds exactly the specified outcomes and attachments |
| `TypeScriptProvider.OpenTypeScriptSession` | providers/typescript/h00_semantic_provider.go:319-390 | A fresh session exactly when it is admissible, in exactly the specified state |
| `TypeScriptProvider.Provider.HandleOpen` | providers/typescript/h00_semantic_provider.go:203-219 | New state and reply of an open, a second open being terminal |
| `TypeScriptProvider.Provider.HandleEpoch` | providers/typescript/h00_semantic_provider.go:229-242 | New state and reply of an epoch request |
| `TypeScriptProvider.Provider.HandleRefresh` | providers/typescript/h00_semantic_provider.go:243-278 | New state and reply of a refresh, whose epoch stays applied when the export fails |
| `TypeScriptProvider.Provider.HandleCertify` | providers/typescript/h00_semantic_provider.go:279-301 | Reply of a certification, whatever order the sources are listed in |
| `TypeScriptProvider.Provider.HandleOperation` | providers/typescript/h00_semantic_provider.go:192-317 | New state and reply for each operation |
| `TypeScriptProvider.Provider.Handle` | providers/typescript/h00_semantic_provider.go:140-317 | New state and reply of any request, checks in order; unless the reply closes, the process is valid for the next one |
| `RustProtocol.CoordinatesInverse` | providers/rust-analyzer/h00ligan_ra_provider.rs:1261-1279 | A repository path has an execution path exactly when adding the prefix gives it back; the two mappings are inverse |
| `RustProtocol.CleanShaByListing` | crates/h00ligan-provider-protocol/src/lib.rs:1541-1571 | The digest of a source map is that of any listing of it |
| `RustProvider.IsValidRequest` | crates/h00ligan-provider-protocol/src/lib.rs:1283-1424 | The request checks, decided exactly |
| `RustProvider.ValidateAnalyses` | crates/h00ligan-provider-protocol/src/lib.rs:1426-1441 | Accepts exactly analyses with valid texts and no id twice |
| `RustProvider.ValidateEpochTransition` | crates/h00ligan-provider-protocol/src/lib.rs:1444-1510 | The transition checks, every path and every attachment claimed at most once, decided exactly |
| `RustProvider.ValidateLoadedSources` | providers/rust-analyzer/h00ligan_ra_provider.rs:1058-1090 | Accepts exactly distinct paths that are all loaded as declared, and files them by path |
| `RustProvider.OpenRootSession` | providers/rust-analyzer/h00ligan_ra_provider.rs:247-313 | A fresh session exactly when it is admissible, in exactly the specified state |
| `RustProvider.Session.PrepareEpoch` | providers/rust-analyzer/h00ligan_ra_provider.rs:1126-1174 | Replacements exactly when every change fits sources and host |
| `RustProvider.Session.ApplyEpoch` | providers/rust-analyzer/h00ligan_ra_provider.rs:1119-1187 | All of the epoch or nothing: the whole new state |
| `RustProvider.Session.Exportable` | providers/rust-analyzer/h00ligan_ra_provider.rs:1197-1206 | Decides whether every path is a source with a file in the host |
| `RustProvider.Session.ExportDocuments` | providers/rust-analyzer/h00ligan_ra_provider.rs:1189-1259 | The answer or refusal of an export |
| `RustProvider.CollectDocuments` | providers/rust-analyzer/h00ligan_ra_provider.rs:1216-1227 | Emitted documents filed by repository path, refused when one is not requested or comes twice |
| `RustProvider.BuildOutcomes` | providers/rust-analyzer/h00ligan_ra_provider.rs:1229-1257 | The loop builds exactly the specified outcomes and attachments, refused exactly when a document has no encoding |
| `RustProvider.Provider.HandleOpen` | providers/rust-analyzer/h00ligan_ra_provider.rs:247-326 | New state and reply of an open |
| `RustProvider.Provider.HandleApply` | providers/rust-analyzer/h00ligan_ra_provider.rs:330-343 | New state and reply of an epoch |
| `RustProvider.Provider.HandleRefresh` | providers/rust-analyzer/h00ligan_ra_provider.rs:344-374 | New state and reply of a refresh, whose epoch stays applied when what follows it fails |
| `RustProvider.Provider.HandleCertify` | providers/rust-analyzer/h00ligan_ra_provider.rs:375-394 | Reply of a certification |
| `RustProvider.Provider.HandleRequest` | providers/rust-analyzer/h00ligan_ra_provider.rs:205-402 | New state and reply of any valid request |
| `RustProvider.Provider.Handle` | providers/rust-analyzer/h00ligan_ra_provider.rs:105-158 | New state and reply of any request; whatever it answers, the process stays valid |
| `RustRuns.OpenConsistent` | providers/rust-analyzer/h00ligan_ra_provider.rs:1046-1091 | An opened session has sources, host texts and population digest that agree |
| `RustRuns.EpochConsistent` | providers/rust-analyzer/h00ligan_ra_provider.rs:1119-1187 | An applied epoch keeps that agreement, the source and host domains, and is the override of the sources |
| `RustRuns.HostNeverDrifts` | providers/rust-analyzer/h00ligan_ra_provider.rs:1155-1163 | For a consistent session the check of the host text never refuses a change that the source checks accept: what a change needs is exactly its source identity, a claimed attachment and UTF-8 |
| `RustRuns.RequestKeeps` | providers/rust-analyzer/h00ligan_ra_provider.rs:205-403 | Every request, error or not, leaves a consistent session, unmoved, opened or one epoch on |
| `RustRuns.RefusedRefresh` | providers/rust-analyzer/h00ligan_ra_provider.rs:344-374 | After an error reply to a refresh the session is at the next authority with all of the epoch applied exactly when the epoch itself was carried out, and otherwise at the previous one untouched |
| `RustRuns.RepeatedRefreshRefused` | providers/rust-analyzer/h00ligan_ra_provider.rs:344-374 | Sending such a refresh again is refused and changes nothing |
| `RustRuns.RunsStayConsistent` | providers/rust-analyzer/h00ligan_ra_provider.rs:105-158 | In every reachable state, errors included, the population digest matches the sources and the host |
| `RustRuns.RunLineage` | providers/rust-analyzer/h00ligan_ra_provider.rs:105-158 | Over a run a session stays open over the same sources and each move takes it one epoch on, nothing else of the authority changing but the digest |
| `RustRuns.SupersededAuthorityNeverServed` | providers/rust-analyzer/h00ligan_ra_provider.rs:1093-1105 | An authority once left behind is refused for the rest of the run, whatever is sent, without touching the session |
| `RustRuns.ServedExportsAnswer` | providers/rust-analyzer/h00ligan_ra_provider.rs:1189-1259 | A served refresh or certification answers exactly the requested paths, or exactly all sources, once each in order |
| `RustOutcomes.WellFormedIff` | crates/h00ligan-provider-protocol/src/lib.rs:1283-1510 | The request checks accept exactly the requests in which every text, digest, path, authority, change and selection is within its bounds, attachments included |
| `RustOutcomes.HeardOnly` | providers/rust-analyzer/h00ligan_ra_provider.rs:116-240 | A request is dispatched exactly when it is well-formed, new, for this provider, and runtime and inputs are as they were; otherwise which refusal it gets |
| `RustOutcomes.OpenedIff` | providers/rust-analyzer/h00ligan_ra_provider.rs:247-326 | A session is opened exactly when there is none and the roots, the configuration and every loaded source are as announced; session and reply then hold the announced authority with the workspace digest and the semantic-inputs digest of what was loaded, each in its place |
| `RustOutcomes.CarriesOutIff` | providers/rust-analyzer/h00ligan_ra_provider.rs:1119-1187 | In a consistent session an epoch is applied exactly when it names the held authority, every change fits its recorded source with UTF-8 text, and the digest is that of the sources it leads to |
| `RustOutcomes.AppliedIff` | providers/rust-analyzer/h00ligan_ra_provider.rs:330-343 | An epoch reply is given exactly when a session is open and the epoch is carried out, and announces the next authority, which the session then holds |
| `RustOutcomes.EpochMoves` | providers/rust-analyzer/h00ligan_ra_provider.rs:1149-1187 | A changed file of the host holds the attachment of its change, every other file what it held |
| `RustOutcomes.FileEmissionIff` | providers/rust-analyzer/h00ligan_ra_provider.rs:1216-1227 | Emitted documents are filed exactly when each is requested and none comes twice, and then under their own paths and no others |
| `RustOutcomes.RefreshedIff` | providers/rust-analyzer/h00ligan_ra_provider.rs:344-374 | A refresh is answered exactly when its epoch is carried out, no analysis is asked for, the documents are sources that can be exported, and inputs and runtime stay; it announces the next authority and repeats the parent snapshot |
| `RustOutcomes.CertifiedIff` | providers/rust-analyzer/h00ligan_ra_provider.rs:375-394 | A certification is answered exactly when it names the held authority, asks for no analysis and all sources can be exported |
| `RustOutcomes.AnsweredIff` | providers/rust-analyzer/h00ligan_ra_provider.rs:105-158 | When each of the remaining answers is given: greeting, goodbye, and the three refusals; and what becomes of the last request id |
| `WorkspaceInputs.WrittenCancel` | providers/rust-analyzer/h00ligan_ra_provider.rs:954-1027 | The field stream written for a tree is uniquely decodable: from any two streams the same path, the same tree and the same rest can be cut off |
| `WorkspaceTrees.ObserveIff` | providers/rust-analyzer/h00ligan_ra_provider.rs:928-1027 | A path is observed exactly when what lies at and below it is a tree of missing paths, links, files and sorted directories, and it with what was observed before stays within two million paths and 64 GiB; the observation is that tree |
| `WorkspaceTrees.PlanObservedIff` | providers/rust-analyzer/h00ligan_ra_provider.rs:714-742 | A plan has a digest exactly when all its paths together can be so observed and each variable reads as recorded |
| `WorkspaceTrees.PathPieces` | providers/rust-analyzer/h00ligan_ra_provider.rs:718-720 | Between the slashes of a written path stand its components |
| `WorkspaceWitness.ObservedBelow` | providers/rust-analyzer/h00ligan_ra_provider.rs:954-1027 | What was observed at a directory fixes what is at every name below it, down to the absence of a file |
| `WorkspaceWitness.DroppedBelowKept` | providers/rust-analyzer/h00ligan_ra_provider.rs:901-919 | Every dropped path lies below a kept directory |
| `WorkspaceWitness.DigestIdentifiesPlan` | providers/rust-analyzer/h00ligan_ra_provider.rs:714-742 | Equal plan digests mean equal trees at every path of the plan and equal variables |
| `WorkspaceWitness.CoalescingWitnesses` | providers/rust-analyzer/h00ligan_ra_provider.rs:706-742 | With equal digests, whatever is reached below a kept directory through ordinary directories is the same in both file systems, missing, link, file content or subtree |
| `WorkspaceWitness.WitnessedIffFixed` | providers/rust-analyzer/h00ligan_ra_provider.rs:901-919 | A path is reached that way from an ancestor if and only if no component on the way is a symbolic link or a parent step |
| `WorkspaceWitness.UnfixedPathsAreNotWitnessed` | providers/rust-analyzer/h00ligan_ra_provider.rs:901-919 | When there is one, another coherent file system agrees on everything kept and shows something else at the dropped path: the condition is necessary |
| `WorkspaceWitness.CoalescedPlanWitnesses` | providers/rust-analyzer/h00ligan_ra_provider.rs:706-742 | End to end: with the plan coalesced from the original paths and equal digests, every original path reached by names from the kept directory above it is observed alike |
| `WorkspaceWitness.CoalescingLosesNothingIff` | providers/rust-analyzer/h00ligan_ra_provider.rs:901-919 | For an original path: equal digests always mean equal observations of it if and only if no symbolic link and no parent step lies between the kept directory and it |
| `WorkspaceInputPlan.SurvivesCoalescing` | providers/rust-analyzer/h00ligan_ra_provider.rs:904-916 | The walk to the parents keeps a path exactly when no listed directory lies above it |
| `WorkspaceWitness.KeptIff` | providers/rust-analyzer/h00ligan_ra_provider.rs:901-919 | A listed path is dropped exactly when another listed path above it is a directory, a link to one not counting |
| `WorkspaceInputPlan.Coalesce` | providers/rust-analyzer/h00ligan_ra_provider.rs:901-919 | The result is exactly the set of kept paths |
| `WorkspaceInputPlan.WorkspaceHasher.ObserveEntry` | providers/rust-analyzer/h00ligan_ra_provider.rs:928-937 | Counts one entry and fails exactly past the limit |
| `WorkspaceInputPlan.WorkspaceHasher.ReadFile` | providers/rust-analyzer/h00ligan_ra_provider.rs:982-995 | Reading chunk by chunk fails exactly when the file exceeds what is left of the byte budget |
| `WorkspaceInputPlan.WorkspaceHasher.HashWorkspacePath` | providers/rust-analyzer/h00ligan_ra_provider.rs:954-1027 | The recursive hash over the mutable budget appends exactly the fields of the observed tree, or fails |
| `WorkspaceInputPlan.WorkspaceHasher.HashEntries` | providers/rust-analyzer/h00ligan_ra_provider.rs:997-1011 | The same for the sorted entries of a directory |
| `WorkspaceInputPlan.ObservePlan` | providers/rust-analyzer/h00ligan_ra_provider.rs:714-742 | The field stream of a plan exists exactly when every input can be observed within the limits, and is the specified one |
| `WorkspaceInputPlan.HashEnvironment` | providers/rust-analyzer/h00ligan_ra_provider.rs:723-740 | Variables are appended exactly when all of them are unchanged |
| `ProbeCollapse.NearestExisting` | providers/typescript/h00_typescript_engine.go:559-575 | The walk to an existing ancestor computes the specified coordinate or error |
| `ProbeCollapse.CollapseFindsNearestAncestor` | providers/typescript/h00_typescript_engine.go:555-575 | The walk stays inside the root and ends at the nearest existing ancestor, everything between being missing; it fails only through something that is no directory or with a vanished root |
| `ProbeCollapse.CoordinateIff` | providers/typescript/h00_typescript_engine.go:541-588 | A tracked path is stood in for exactly by its nearest existing ancestor, when it lies in the repository, runs through nothing that is no directory and the ancestor may be named |
| `ProbeCollapse.CollapsedProbeStillAbsent` | providers/typescript/h00_typescript_engine.go:559-588 | In any coherent later tree with the same immediate membership there, the original probe is still absent |
| `ProbeCollapse.ObserveTracked` | providers/typescript/h00_typescript_engine.go:541-588 | The collected coordinates are exactly those of the tracked paths outside the sources, failing exactly when one has none |
| `ProbeCollapse.TrackedProbesStillAbsent` | providers/typescript/h00_typescript_engine.go:415-424 | When the membership of every collected coordinate is unchanged, every tracked probe that was absent still is; sources may be files or links that are read as files |
| `CargoGeneration.FreshnessFloor` | scripts/manage-h00ligan-cargo-generation.py:65-82 | The floor is the least time not before the clock and strictly after every stamp and the binary |
| `CargoGeneration.Workspace.TouchInputs` | scripts/manage-h00ligan-cargo-generation.py:143-145 | Every input gets the one time, contents unchanged |
| `CargoGeneration.Workspace.Prepare` | scripts/manage-h00ligan-cargo-generation.py:125-150 | A match leaves everything alone; a mismatch moves every input to the least time past every stamp; an empty candidate is refused |
| `CargoGeneration.MatchIsRight` | scripts/manage-h00ligan-cargo-generation.py:101-122 | A match means the binary has the bytes asked for, and if nothing was compiled since the receipt the objects too |
| `CargoGeneration.RecordedMatches` | scripts/manage-h00ligan-cargo-generation.py:101-122 | What was recorded is matched by the very same target, build key and source key over a binary of the recorded size and digest, and by nothing else |
| `CargoGeneration.BuildLeaves` | scripts/manage-h00ligan-cargo-generation.py:125-188 | A build compiles and stamps what it rebuilds, leaves all else alone, and links again unless there was nothing to do |
| `CargoGeneration.MismatchInvalidatesEverything` | scripts/manage-h00ligan-cargo-generation.py:142-145 | After a mismatch every unit of the candidate is stale |
| `CargoGeneration.BuildIsRight` | scripts/manage-h00ligan-cargo-generation.py:125-188 | A build that rebuilds at least what is stale leaves the clean binary, over objects that fit or after everything was stale |
| `CargoGeneration.StepKeepsGood` | scripts/manage-h00ligan-cargo-generation.py:125-188 | Prepare, build, a build that dies, record and crashes between them each keep the invariant of receipt, stamps, objects and binary |
| `CargoGeneration.EveryBuildIsClean` | scripts/manage-h00ligan-cargo-generation.py:65-188 | In every run, wherever requests crash, each finished build has left exactly the clean compile of its own candidate, if every match finds all stamps older than the receipt, or if the toolchain has no mixtures |
| `CargoGeneration.RecordedRunsUndisturbed` | scripts/manage-h00ligan-cargo-generation.py:101-188 | If each build that compiles anything is recorded before the next request, every match finds all stamps older than the receipt |
| `CargoGeneration.RecordedRunsAreClean` | scripts/manage-h00ligan-cargo-generation.py:65-188 | Such runs, which may crash after prepare and after record, are clean without any further check |
| `CargoMixture.AlwaysCleanIff` | scripts/manage-h00ligan-cargo-generation.py:65-188 | For every toolchain without collisions: all builds of all runs are clean if and only if matches are so guarded or no objects of different builds link to a binary that is not the clean one |
| `CargoMixture.MixtureSpoilsARun` | scripts/manage-h00ligan-cargo-generation.py:101-150 | Any objects that make such a difference do so in some run of requests that die while compiling |
| `CargoMixture.UnrecordedBuildSpoilsARun` | scripts/manage-h00ligan-cargo-generation.py:101-150 | Two generations that link to one binary spoil a run without any build dying: the second crashes before it is recorded |
| `CargoMixture.InterruptedBuildCanMix` | scripts/manage-h00ligan-cargo-generation.py:101-150 | A run of a collision-free toolchain in which a build dies, the recorded generation matches and the next build is not clean |
| `CargoMixture.CrashBetweenStepsCanMix` | scripts/manage-h00ligan-cargo-generation.py:101-150 | The same with every build finished and a crash before one is recorded |
| `CachePublish.CachePaths.Rename` | scripts/publish-h00ligan-cache-directory.py:65-65 | POSIX rename of a directory: over nothing or an empty directory it succeeds, otherwise nothing moves |
| `CachePublish.CachePaths.Publish` | scripts/publish-h00ligan-cache-directory.py:52-74 | Fails exactly without a candidate; published exactly when the rename succeeds, otherwise the destination is kept; the candidate is gone either way |
| `CachePublish.StepKeepsGood` | scripts/publish-h00ligan-cache-directory.py:52-74 | Every step of every publisher keeps the invariant, and an existing destination never changes |
| `CachePublish.ExactlyOnePublisher` | scripts/publish-h00ligan-cache-directory.py:52-74 | In every interleaving of publishers with non-empty candidates at most one publishes, one has once any has finished, the destination holds the candidate of the winner, and finished candidates are gone |
| `CachePublish.ReplayedMeansLost` | scripts/publish-h00ligan-cache-directory.py:64-72 | Whoever replays has lost to another publisher |
| `CachePublish.ActionsRunOut` | scripts/publish-h00ligan-cache-directory.py:52-74 | Every action brings its publisher nearer to its end |
| `CachePublish.CanFinish` | scripts/publish-h00ligan-cache-directory.py:52-74 | From any state, whatever has crashed, a publisher still at work can finish by itself |
| `CachePublish.DestinationNeverChanges` | scripts/publish-h00ligan-cache-directory.py:52-74 | Once it exists the destination never changes |
| `CachePublish.NoPublisherRaises` | scripts/publish-h00ligan-cache-directory.py:52-74 | No publisher ever fails |
| `CachePublish.EmptyCandidateIsOverwritten` | scripts/publish-h00ligan-cache-directory.py:52-74 | With an empty candidate two publishers can both publish, the second over the first |
| `CachePublish.SafeIffNonEmpty` | scripts/publish-h00ligan-cache-directory.py:52-74 | With two or more publishers at most one ever publishes, in every run, if and only if every candidate is non-empty |
| `SbomNormalize.CollectRenaming` | scripts/normalize-h00ligan-sbom.py:72-125 | The collecting loop computes the specified renaming, refusals included |
| `SbomNormalize.HasRepeats` | scripts/normalize-h00ligan-sbom.py:178-184 | Decides whether a reference comes twice |
| `SbomNormalize.MentionedRefs` | scripts/normalize-h00ligan-sbom.py:186-195 | Collects exactly the references the dependencies mention |
| `SbomNormalize.NamesThisMachine` | scripts/normalize-h00ligan-sbom.py:162-176 | Decides whether some text still names a root or a file URL |
| `SbomNormalize.Normalize` | scripts/normalize-h00ligan-sbom.py:46-200 | Collect, replace, record provenance and check: the specified document, or refusal |
| `SbomContents.NormalizedContents` | scripts/normalize-h00ligan-sbom.py:72-160 | An accepted document is the input with reference and URL of each local component replaced throughout by the URL without qualifiers, and its place, under the label of its root, recorded last in its properties; other components keep theirs, and nothing else is touched |
| `SbomContents.ClaimedAs` | scripts/normalize-h00ligan-sbom.py:81-125 | Whatever parts a reference path+<uri>/<path>#<version> and its URL are read as, they are the ones used |
| `SbomAcceptance.RootsIff` | scripts/normalize-h00ligan-sbom.py:51-61 | Roots are admissible exactly when labels are well-formed and no two share a label, a place or a part of one |
| `SbomAcceptance.RenamedIff` | scripts/normalize-h00ligan-sbom.py:62-128 | A document is renamed exactly when its parts have the right kinds of values, something is local, each local component is a package of its root and no two are the same package |
| `SbomAcceptance.DocumentPlacedIff` | scripts/normalize-h00ligan-sbom.py:139-160 | Places can be recorded exactly when component lists are lists and local components have lists of properties that state no place yet |
| `SbomAcceptance.NormalizedIff` | scripts/normalize-h00ligan-sbom.py:162-200 | A renamed document is accepted exactly when, with its places, no text names a root or a file URL, no reference stands twice and the dependencies mention components only |
| `SbomAcceptance.DocumentEdgesIff` | scripts/normalize-h00ligan-sbom.py:186-195 | What a dependency list says: an edge for each child that an entry with a reference lists, and which references are mentioned |
| `SbomAcceptance.RefListedIff` | scripts/normalize-h00ligan-sbom.py:178-184 | The references of a document are exactly those of its components |
| `SbomAcceptance.ContainsIff` | scripts/normalize-h00ligan-sbom.py:162-176 | A text contains what stands somewhere in it |
| `SbomIsomorphism.NormalizationRenames` | scripts/normalize-h00ligan-sbom.py:130-200 | Accepted normalization renames component references injectively, maps the dependency lists entry by entry and leaves nothing dangling |
| `SbomIsomorphism.GraphsIsomorphic` | scripts/normalize-h00ligan-sbom.py:130-200 | An edge stands between two components after normalization if and only if it stood between them before |
| `SbomIsomorphism.PlacedDocumentKeeps` | scripts/normalize-h00ligan-sbom.py:139-160 | Recording provenance neither adds, drops nor renames a reference or a dependency |
| `SbomRelocation.SameTemplate` | scripts/normalize-h00ligan-sbom.py:51-61 | Against admissible roots different templates are written differently |
| `SbomRelocation.ClaimRelocates` | scripts/normalize-h00ligan-sbom.py:81-124 | What is read off a local component is the same for other roots |
| `SbomRelocation.PurlRelocates` | scripts/normalize-h00ligan-sbom.py:105-120 | What a package URL says does not depend on where its root is |
| `SbomPlaceless.CollectedTogether` | scripts/normalize-h00ligan-sbom.py:72-125 | The renaming collected for other roots is the same with its references moved |
| `SbomPlaceless.RelocationInvariant` | scripts/normalize-h00ligan-sbom.py:46-200 | A document accepted for some roots is normalized to the identical output for any others |
| `SbomForeign.ForeignRefused` | scripts/normalize-h00ligan-sbom.py:130-200 | A document with a text that names a local URI other than by a root is refused |
| `SbomForeign.NormalizationIsPlaceless` | scripts/normalize-h00ligan-sbom.py:46-200 | Accepted or refused, a document moved to other non-overlapping roots normalizes alike, foreign file URIs included |
| `SbomGraph.ReachablePackages` | scripts/check-h00ligan-sbom.py:66-74 | The worklist ends with exactly the packages reachable over admitted edges, or with a missing node exactly when one is reachable |
| `SbomGraph.AdmittedEdgeIff` | scripts/check-h00ligan-sbom.py:58-74 | An edge counts exactly when one of its kinds is unset, normal or build |
| `SbomGraph.CargoDependencyGraph` | scripts/check-h00ligan-sbom.py:47-92 | The coordinate graph is the injective image of the reachable id graph; every refusal has its stated cause |
| `SbomGraph.IndexComponents` | scripts/check-h00ligan-sbom.py:101-120 | No failure exactly when components are complete with distinct references and coordinates |
| `SbomGraph.WellNamedFields` | scripts/check-h00ligan-sbom.py:101-120 | Components are well named exactly when each has a reference, a name and a version and no two share a reference or both name and version |
| `SbomGraph.CollectEdges` | scripts/check-h00ligan-sbom.py:125-146 | The edges are exactly those between known references; no failure exactly when every entry is known, none repeats and none is missing |
| `SbomGraph.WellLinkedFields` | scripts/check-h00ligan-sbom.py:125-146 | Entries are well linked exactly when each names components only, no two the same, and there is one for each component |
| `SbomGraph.SbomDependencyGraph` | scripts/check-h00ligan-sbom.py:95-147 | No failure exactly when the document is well-formed, and then the graph is its graph |
| `SbomGraph.ValidateExactGraph` | scripts/check-h00ligan-sbom.py:150-170 | No failure if and only if root, packages and edges are all equal, each failure exactly for its own difference |
| `SbomGraph.AcceptedDocumentIsTheCargoGraph` | scripts/check-h00ligan-sbom.py:60-92 | The components of an accepted document carry exactly the names and versions of the packages the product reaches, the described one that of the product, and an entry lists one below another exactly along admitted dependencies |
| `FrameCodec.ReadUndoesWrite` | scripts/h00_semantic_provider_test_harness.py:103-153 | Reading undoes writing for all frames within bounds, whatever follows |
| `FrameCodec.WriteUndoesRead` | scripts/h00_semantic_provider_test_harness.py:130-153 | Every accepted frame writes back to exactly the bytes it was read from |
| `FrameCodec.FramesReadBack` | scripts/h00_semantic_provider_test_harness.py:103-153 | Consecutive frames are read back as the same sequence |
| `FrameCodec.WrittenLayout` | scripts/h00_semantic_provider_test_harness.py:103-114 | A written frame starts with the eight magic bytes and the big-endian lengths of payload, metadata and attachment list, and then the metadata |
| `FrameCodec.ParseFaults` | scripts/h00_semantic_provider_test_harness.py:130-153 | Exactly when a stream ends early, starts with other bytes, announces more than 128 MiB or holds metadata that is no JSON |
| `FrameCodec.Descriptor.ReadExact` | scripts/h00_semantic_provider_test_harness.py:117-127 | Exactly that many bytes however the stream is cut, nothing exactly when it ends first |
| `FrameCodec.Descriptor.ReadFrame` | scripts/h00_semantic_provider_test_harness.py:130-153 | Frame, error and rest of the stream as the parser has them, for any chunking |
| `FrameCodec.ReadAttachments` | scripts/h00_semantic_provider_test_harness.py:144-152 | The cursor walk yields the attachments exactly when it ends where the payload does |
| `ProtobufScan.ReadVarint` | scripts/h00_semantic_provider_test_harness.py:26-36 | The loop over seven-bit groups computes the base-128 value, at most ten bytes |
| `ProtobufScan.VarintReadBack` | scripts/h00_semantic_provider_test_harness.py:26-36 | An encoded varint is read back, whatever stands around it |
| `ProtobufScan.VarintEnds` | scripts/h00_semantic_provider_test_harness.py:26-36 | A varint ends at its first byte below 128; oversized exactly when ten bytes are not, truncated exactly when the data ends before |
| `ProtobufScan.BodyFaults` | scripts/h00_semantic_provider_test_harness.py:39-65 | Which fields cannot be read, and for which of the causes |
| `ProtobufScan.LengthDelimitedFields` | scripts/h00_semantic_provider_test_harness.py:39-65 | The scanning loop computes the specified fields or error |
| `ProtobufScan.ScanConcatenates` | scripts/h00_semantic_provider_test_harness.py:39-65 | Scanning a complete message followed by another is scanning each in turn |
| `ProtobufScan.ScanFindsContents` | scripts/h00_semantic_provider_test_harness.py:39-65 | Scanning a written message finds the contents of the field asked for, in order |
| `AuditCoupling.CouplingCounts.Record` | crates/h00ligan-engine/src/code_intel_audit.rs:202-212 | The counters move by exactly the one edge, in its part and the total |
| `AuditCoupling.CouplingCounts.AddAssign` | crates/h00ligan-engine/src/code_intel_audit.rs:214-219 | Counters are added part by part |
| `AuditCoupling.RecordEdge` | crates/h00ligan-engine/src/code_intel_audit.rs:241-252 | One more edge in one scope, the total over scopes added up afresh |
| `AuditCoupling.RecordKeepsBalance` | crates/h00ligan-engine/src/code_intel_audit.rs:241-252 | At every step all is the sum of the three scopes and each total the sum of its parts |
| `AuditCoupling.CollectFanIn` | crates/h00ligan-engine/src/code_intel_audit.rs:475-484 | The one-pass map is the per-node count over the edges, with an entry exactly for the nodes that have one |
| `AuditCoupling.BreakdownPermutes` | crates/h00ligan-engine/src/code_intel_audit.rs:475-484 | The counts of a node depend on the edges as a multiset only |
| `AuditCoupling.CollectHotspots` | crates/h00ligan-engine/src/code_intel_audit.rs:468-528 | Exactly the considered nodes at or above the minimum, sorted, and the number considered |
| `AuditCoupling.HotspotsOrderFree` | crates/h00ligan-engine/src/code_intel_audit.rs:468-528 | The hotspot list is the same whatever order nodes and edges come in |
| `AuditCoupling.HotspotsSay` | crates/h00ligan-engine/src/code_intel_audit.rs:458-528 | The hotspots are exactly the nodes, tests left out of an audit of production code, with at least the minimum of edges in the scope asked for; each once, its counters the numbers of calls and field uses by scope |
| `AuditCoupling.HotspotsInOrder` | crates/h00ligan-engine/src/code_intel_audit.rs:511-521 | No hotspot stands after one with fewer edges or, with as many, after one later by path, line, name, kind and id |
| `AuditAuthority.AuthorityByLanguage` | crates/h00ligan-engine/src/code_intel_audit.rs:626-638 | The loop tallies every unit under its language |
| `AuditAuthority.TalliesAddUp` | crates/h00ligan-engine/src/code_intel_audit.rs:622-654 | Over all languages the tallies add up to the aggregate counts |
| `AuditAuthority.OverallStatus` | crates/h00ligan-engine/src/code_intel_audit.rs:639-662 | Overall complete exactly when every unit is authoritative, and so when every language is; unavailable exactly when there are units and none is |
| `AuditAuthority.ThresholdMatchesShownRatio` | crates/h00ligan-engine/src/code_intel_audit.rs:688-712 | The inclusive percentage test holds if and only if the basis points shown are at least a hundred times the percentage; they are the floor of ten thousand times the share |

## Left out

- SHA-256 itself, JSON text syntax and the wire decoding of requests: a digest function, an abstract codec with a round trip where one is needed (`Codec.Faithful`), and flags for undecodable or ill-formed requests.
- Clocks, timeouts, process spawning, signals, liveness threads and channels between them.
- rust-analyzer, gopls, the TypeScript compiler and SCIP contents: a host is a map from path to text, an exported document is opaque bytes, and reload, load and emission results come from the world.
- Health fields of replies, the `close` of the TypeScript engine and cancellation while a file text is read.
- `admittedPath` of the TypeScript file system view: a single containment check.
- The producer of provider call paths: its result is a parameter; where distinct callers or path lengths matter, `WellFormedEvidence` says so.
- The symbol cache of the impact report: it only avoids repeated lookups.
- ImpactReport.Assess: the target is already resolved, and the failure causes of traversal and merging are one refusal; warnings, sections and summaries of the answer are not modelled.
- Paging.SelectPage: the audit loop is the same loop over its sections; what an answer serializes to is an arbitrary size function.
- IndexerIdentity.Calculate: paths are split and compared as on Unix; the prefixes and second separator of Windows are not modelled.
- TypeScriptProvider.ReadSources: files are what the world says at open; a file changing while it is read is not modelled.
- RustProvider.IsValidRequest: the provider identity a request names and the semantic inputs it predeclares are validated by field lists of their own, which enter as well-formedness flags.
- WorkspaceInputPlan.WorkspaceHasher.HashWorkspacePath: file systems do not change while they are hashed, so the stamps that detect this are not modelled.
- WorkspaceWitness.CoalescedPlanWitnesses: what lies behind a symbolic link or a parent step is left open; these are exactly the paths shown not to be witnessed.
- ProbeCollapse.CollapsedProbeStillAbsent: a directory witness is the set of names found directly below it, not its digest.
- CargoGeneration.EveryBuildIsClean: of Cargo only its staleness by modification time is modelled, and stamps, binary and receipt are regular files; the clock may stand still but not run backwards, since the order of stamps and receipt means nothing otherwise.
- CachePublish.ExactlyOnePublisher: synchronization to disk, the lock subcommands and the checks of path ownership are not part of this model.
- SbomNormalize.Normalize: the document is a value, so appending a property in place is modelled as building the new document, and values of the wrong JSON kind are refused as malformed.
- SbomForeign.NormalizationIsPlaceless: a text that names a root at one place and something foreign at the other is not the same text moved, and is not compared.
- SbomGraph.SbomDependencyGraph: the subprocess that produces Cargo metadata and the lists of required and forbidden package names are not modelled.
- FrameCodec.Descriptor.ReadFrame: the deadline of a read is not modelled; whether metadata is JSON is a parameter.
- AuditCoupling.RecordEdge: the breakdown of a node is a value that the map replaces, not an object changed in place.
- AuditAuthority.AuthorityByLanguage: which units are authoritative comes from the liveness resolver and is a parameter; top files, guidance and the order of reported units are left out.
- Cargo discovery, callable liveness, the CI, release and binary checkers and the benchmark harnesses: fixed lists and single branches, with no property that spans them.
