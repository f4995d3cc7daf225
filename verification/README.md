# Verified models of the repository's oracles and builders

This project models seven Python programs that carry the repository's canonical algorithms, and proves what they
promise. The programs are the independent oracles of the conformance vectors and the builders of tracked reports:

| files | program | what is proved |
|---|---|---|
| `Impact*.dfy` | complete-root closure judgment | `judge` decides an order-free conjunction of rules, and each of its codes means exactly one rule; the direct edges are exactly an inductive "mentions" relation; acceptance partitions the namespaces into one tree per owner and isolates packages; transitive impact is reflexive-transitive reachability |
| `Repro*.dfy` | multi-host attestation report | over every sequence of rebuilds no host disappears and the file settles; the report does not depend on input order; when a rebuild is a fixed point, exactly; what is admitted, field by field, and when each code refuses |
| `Snapshot*.dfy` | `SLEYIDX1` index snapshot record | the inspector accepts exactly the printed records, in work linear in the candidate, and says why it refuses the others; where every row stands; the reverse index inverts the edges; the preimage is injective |
| `Capsule*.dfy` | `SLEYCCP1` context capsule | both parsers of a response record agree; dictionary compression loses nothing; a reader of the layout gets the capsule and the facts back, so the preimage is injective |
| `Register*.dfy` | finding register | exactly which names can supersede each other in a cycle; what the fold of failed rounds decides; what an accepted chain of re-stated claims looks like |
| `Spdx*.dfy` | SPDX expression recogniser | soundness, completeness and unambiguity against an abstract grammar; what a `/`-joined declaration means after normalising, and when its parts are expressions |
| `Limits*.dfy` | declared-limit fixed point | termination within one round more than there are declarations, order independence, a finite derivation of every value, exactly when a name is lost and a value goes stale, and that no two numbers share a spelling |

`Order`, `Reachability`, `Bytes`, `Cursors`, `Text` and `Wrappers` hold what several models share. `dafny verify
dfyconfig.toml` checks everything.

## How the programs appear here

- A Python exception is a returned code or `None`. Loops that fill sets, dictionaries and queues are methods with
  loops; each is proved against a specification that names no loop, and the theorems are lemmas about that
  specification. `Walker`, the byte cursors and the report file are classes with mutable fields; the register's rows
  are folded in place in an array.
- Identities of the complete-root model are ordered values, because the oracle only compares fixed-width hexadecimal
  strings. A field the oracle reads with `get` and finds absent is an identity that the root does not bind.
- Hashes are deterministic function parameters. Git ancestry is a predicate parameter; lemmas that need a strict partial
  order say so. Whether a tracked report's stored digest equals the recomputed one is a field of the file's model, and
  a report just written has it.
- A byte string is a `seq<int>` under the predicate `IsBytes`. Packing an integer that does not fit, which raises
  in the script, is an error of the model.
- Where a loop body of a script is a method of its own here (`Visit`, `Turn`, `Take`, `OwnedRoots`, `TakeRow`, `Folded` and
  similar), the split serves the proof; the branches are those of the script.

## Where the code and its intent part

Each of these is a lemma, and the code is modelled as it is.

- A report can become impossible to rebuild. The shape check of an attestation matches a commit with `$`, which also
  matches before a final newline; the check of a superseded entry matches in full. A run that leaves such an
  attestation behind writes a report that every later run refuses. A further run of the same candidate succeeds if and
  only if the first left no such newline behind (`RerunExactly`, `Wedged`, `NewlineRunExists`).
- A declared limit can keep a stale value. A name with two values is meant to be unavailable to references, but a value
  taken from it while it had one stays (`StaleExample`). It happens if and only if, in some round in which the name is
  known, a declaration of it gives another value (`LostExactly`, `StaleExactly`).
- Supersession is not free of cycles (`MutualExample`). Names supersede each other in a cycle, of any length, if and only
  if one of them carries both an early and a late token and another, not early, has a strictly larger core
  (`CyclesExactly`).
- A later row of a PASS's own section and field, as two paths of the summary can spell one, replaces the PASS's date and
  scope and can reopen the round it closed (`FoldReopens`). Other rows reopen a folded round if and only if no PASS
  among them closes it by the note that counts there (`FoldReopensExactly`); rows that keep the notes never do
  (`FoldMonotone`).
- The cursor encoder and the cursor skipper of the capsule oracle agree on the known arms only. For any other tag
  the encoder writes 36 bytes more than the skipper passes over (`SkipsPrinted`, `UnknownArm`).
- The underscored spelling of a negative number detaches its sign when its digits fill their groups of three
  (`SignDetached`, `HundredDetached`).
- A kind of 0 that a response record states cannot be told from no kind in the capsule's tables (`TablesRestore`,
  `ZeroKindLost`); only the copied record still holds it.
- A capsule whose response returned more than it counted cannot be packed (`PacksExactly`, `ReturnedAboveTotal`): the
  subtraction goes negative.
- No length stands before the identities of a capsule's preimage. One of another width than the profile's 32 bytes
  slides into its neighbour: a byte moved from the schema epoch to the workspace leaves the preimage as it was
  (`BoundarySlides`). Among identities of 32 bytes the preimage binds everything (`CapsuleBinds`).
- `build_record` compares with `sorted(...)`, so repeated identities and edges pass although strict order is meant
  (`RepeatsAccepted`); what it builds is in strict order if and only if nothing is repeated (`StrictExactly`). `inspect`
  checks framing only, so it accepts any well-framed record (`InspectExact`).
- The comment of `package_restated_claims` admits a retired target, the code refuses it. The model follows the code
  (`AcceptedChains`).
- `supersedes` says that a PASS on a part never closes the overall round it belongs to. It does if and only if that round
  is early and the PASS is not (`SupersedesExactly`, `SliceClosesOverall`).
- A `/`-joined license declaration can be accepted although no part of it is an expression (`PartsNotNecessary`). All its
  parts are expressions if and only if it is accepted and every part holds as many `(` as `)` (`DeclarationParts`).

## Model

| member | source | states |
|---|---|---|
| `ImpactEdges.Walker.Add` | scripts/check_complete_entity_impact_vector.py:157-163 | fails with the code of an unbound or wrongly kinded target, otherwise adds exactly that edge |
| `ImpactEdges.Walker.Type` | scripts/check_complete_entity_impact_vector.py:165-193 | walking a nested type expression adds exactly the edges of its flattened references, or fails with the first reference that does not resolve |
| `ImpactEdges.Walker.Const` | scripts/check_complete_entity_impact_vector.py:195-222 | the same for a nested constant and the types inside it |
| `ImpactEdges.Walker.Walk` | scripts/check_complete_entity_impact_vector.py:228-249 | the same for all rows, type fields and constant fields of one entity, in that order |
| `ImpactEdges.WalkAll` | scripts/check_complete_entity_impact_vector.py:225-249 | the failure of the whole walk is the first reference, in walk order, that does not resolve; without one, the edges of all entities and no others |
| `ImpactModel.EdgeOrder` | scripts/check_complete_entity_impact_vector.py:250 | edges are ordered as triples: by dependent, then dependency, then kind |
| `ImpactEdges.DirectEdges` | scripts/check_complete_entity_impact_vector.py:225-250 | on success the strictly ascending listing of the edge set |
| `ImpactMentions.RowsExact` | scripts/check_complete_entity_impact_vector.py:45-84 | the edge rows of every kind, field by field: which target, which edge kind, which required kind, and no others |
| `ImpactMentions.FieldsExact` | scripts/check_complete_entity_impact_vector.py:121-139 | which fields of every kind hold type expressions and which hold constants |
| `ImpactMentions.NodeRefsExact` | scripts/check_complete_entity_impact_vector.py:165-222 | the recursion lists a reference if and only if some node on a path of direct containment names it |
| `ImpactMentions.EntityRefsExact` | scripts/check_complete_entity_impact_vector.py:229-249 | an entity's references are exactly its row references and those mentioned inside its types and constants |
| `ImpactMentions.EdgeSetExact` | scripts/check_complete_entity_impact_vector.py:225-250 | an edge is present if and only if an entity mentions its target with that edge kind, where "mentions" is the inductive relation and not the recursion |
| `ImpactMentions.MentionsResolve` | scripts/check_complete_entity_impact_vector.py:157-163 | on success every mention resolves to a bound entity of the kind its place demands |
| `ImpactMentions.C2Exactly` | scripts/check_complete_entity_impact_vector.py:225-250 | the walk meets no failure if and only if every mention of every entity resolves to a bound entity of the kind its place demands |
| `ImpactTyped.C2Typed` | scripts/check_complete_entity_impact_vector.py:157-163 | C2 holds if and only if every field of every entity and every node nested in one names bound entities of the sort its place calls for, said without edge kinds and kind numbers |
| `ImpactTyped.CanonicalFields` | scripts/check_complete_entity_impact_vector.py:85-90 | which list fields must be strictly ascending |
| `ImpactTyped.ForbiddenSorts` | scripts/check_complete_entity_impact_vector.py:91 | what no namespace may hold as a member |
| `ImpactRules.BodiesExact` | scripts/check_complete_entity_impact_vector.py:274-276 | with strictly ascending ids the dictionary of bodies holds exactly the entities |
| `ImpactRules.ResolvedAfterC2` | scripts/check_complete_entity_impact_vector.py:283-289 | once C2 has passed, parents and roots are namespaces and members and dependencies are bound, so the later dictionary accesses cannot fail |
| `ImpactForest.CounterExact` | scripts/check_complete_entity_impact_vector.py:322-328 | a parent chain with more links than there are namespaces never ends: the step counter is an exact cycle detector |
| `ImpactForest.TreeIsClimb` | scripts/check_complete_entity_impact_vector.py:253-265 | what is found downwards from a root over member links is exactly what climbs to it over parent links |
| `ImpactForest.ForestPartition` | scripts/check_complete_entity_impact_vector.py:301-343 | every namespace lies in the tree of exactly one owner (the workspace or a package), and lies in it exactly when its parent chain reaches that owner's root |
| `ImpactForest.ExportsDisjoint` | scripts/check_complete_entity_impact_vector.py:336-343 | no entity is exported by two packages |
| `ImpactForest.ExportOutsideOtherTrees` | scripts/check_complete_entity_impact_vector.py:329-343 | an export of a package is a member of no namespace in another owner's tree |
| `ImpactForest.BindingIsolated` | scripts/check_complete_entity_impact_vector.py:350-360 | every dependency binding has exactly one owning package, and that package's tree is the only package tree that contains the binding's local namespace |
| `ImpactJudge.SortedUnique` | scripts/check_complete_entity_impact_vector.py:100-106 | comparing neighbours decides strict ascent of the whole list |
| `ImpactJudge.CheckBodySets` | scripts/check_complete_entity_impact_vector.py:280-282 | passes if and only if every list field that must be canonical is strictly ascending |
| `ImpactJudge.CheckC4` | scripts/check_complete_entity_impact_vector.py:296-300 | passes if and only if the workspace lists exactly the packages, ascending, and every package names it |
| `ImpactJudge.OwnedRoots` | scripts/check_complete_entity_impact_vector.py:302-307 | gives every owner's root its one owner, or some owner's root is not a parentless namespace or is an earlier owner's |
| `ImpactJudge.CheckC5` | scripts/check_complete_entity_impact_vector.py:301-310 | passes if and only if owners' roots are parentless namespaces, no two owners share one, and no other namespace is parentless |
| `ImpactJudge.CheckC6` | scripts/check_complete_entity_impact_vector.py:311-328 | passes if and only if parent and member links mirror each other and every parent chain ends |
| `ImpactJudge.ChainEndsInTime` | scripts/check_complete_entity_impact_vector.py:322-328 | the counted loop decides whether the parent chain ends at all |
| `ImpactJudge.AssignOwners` | scripts/check_complete_entity_impact_vector.py:330-335 | fails if and only if some listed item is forbidden or listed twice; otherwise maps every listed item to its one lister |
| `ImpactJudge.CheckC7` | scripts/check_complete_entity_impact_vector.py:329-335 | passes if and only if no member has a forbidden kind and no two namespaces share a member; the dictionary is then the ownership relation |
| `ImpactJudge.NamespaceTree` | scripts/check_complete_entity_impact_vector.py:253-265 | the breadth-first search returns exactly what is reachable down the member links, and fails only when the root is no namespace |
| `ImpactJudge.CheckC8` | scripts/check_complete_entity_impact_vector.py:336-343 | passes if and only if every export is a member of a namespace in the exporting package's tree; the trees are the reachable sets |
| `ImpactJudge.CheckC11` | scripts/check_complete_entity_impact_vector.py:350-360 | passes if and only if every binding has one owning package whose tree contains the binding's local namespace |
| `ImpactJudge.JudgeClosure` | scripts/check_complete_entity_impact_vector.py:290-360 | each code of C3 to C11 is returned if and only if its rule fails and every rule before it holds, said of the set of bound entities; no visiting order decides |
| `ImpactJudge.Judge` | scripts/check_complete_entity_impact_vector.py:268-371 | accepts if and only if the canonical-form checks, C1, C2 and C3 to C11 hold; fails with a code if and only if that code's rule fails and every rule before it holds, for each of the fourteen codes; an accepted judgment holds the direct edges, the workspace, the counts and the reverse index |
| `ImpactJudge.CodesExactly` | scripts/check_complete_entity_impact_vector.py:268-360 | the verdict carries a code if and only if its rule fails and every earlier rule holds; an unresolved reference and a wrongly kinded one are told apart by the first failing reference of the walk |
| `ImpactJudge.AcceptedExactly` | scripts/check_complete_entity_impact_vector.py:268-371 | a request is accepted if and only if it meets the conjunction of the canonical-form checks, C1, C2 over the mention relation, and C3 to C11, which gives every rule the forest and isolation theorems assume |
| `ImpactJudge.BuildReverse` | scripts/check_complete_entity_impact_vector.py:361-363 | the reverse index lists, for each entity, the dependents of its edges in edge order |
| `ImpactJudge.Transitive` | scripts/check_complete_entity_impact_vector.py:374-383 | terminates with the ascending listing of exactly what is reachable from the seeds |
| `ImpactJudge.TransitiveMeaning` | scripts/check_complete_entity_impact_vector.py:361-383 | reachability through the reverse index is reachability over the inverted direct edges |
| `ImpactJudge.TransitiveLaws` | scripts/check_complete_entity_impact_vector.py:374-383 | the impact of an impact list is that list, and the impact of two joined seed lists is the ascending listing of both impact lists |
| `Order.LexExactly` | scripts/build_reproducibility_report.py:498 | texts and byte strings are ordered by their first difference, and without one the shorter is less |
| `Text.SpaceCodes` | scripts/build_reproducibility_report.py:177 | the code points of white space |
| `ReproListing.SortByKey` | scripts/build_reproducibility_report.py:498 | the result is ordered by host and commit and keeps the order of the entries of each key |
| `ReproListing.Supersede` | scripts/build_reproducibility_report.py:496-517 | refuses if and only if an entry of a host that does not attest again names the current commit or contradicts the digest of its key; otherwise lists the first entry of every such key, ascending |
| `ReproListing.SupersededUnique` | scripts/build_reproducibility_report.py:496-517 | there is one such listing |
| `ReproRun.CarriedAttestations` | scripts/build_reproducibility_report.py:400-518 | when and with which code carrying refuses; what is carried, and that the listing is the one of the left-behind and the tracked entries |
| `ReproRun.ByLabel` | scripts/build_reproducibility_report.py:289-295 | refuses if and only if an attestation is malformed or a label repeats; otherwise indexes every attestation |
| `ReproRun.GroupByCommit` | scripts/build_reproducibility_report.py:296-308 | refuses if and only if one commit has two digests; otherwise every commit has its digest and its hosts in report order |
| `ReproRun.MultiHost` | scripts/build_reproducibility_report.py:309 | some commit has at least two hosts if and only if two attestations share a commit |
| `ReproRun.BuildReport` | scripts/build_reproducibility_report.py:287-338 | when and with which code building refuses, and otherwise the report of exactly the given attestations, ascending by label |
| `ReproRun.LoadExplicit` | scripts/build_reproducibility_report.py:554 | loads all explicit files if and only if each is well-formed |
| `ReproRun.ExplicitOfCurrentCommit` | scripts/build_reproducibility_report.py:521-536 | passes if and only if every explicit attestation names the local commit |
| `ReproRun.ReportFile.Rebuild` | scripts/build_reproducibility_report.py:547-604 | the run refuses with the first check that fails and then leaves the file as it was, or writes the report of the merged attestations |
| `ReproShapes.ShapeExactly` | scripts/build_reproducibility_report.py:142-200 | what an admitted attestation is, field by field, for the current artifact and for an earlier release |
| `ReproShapes.ReleaseNameExactly` | scripts/build_reproducibility_report.py:139 | the pattern of a release artifact matches exactly a prefix, three numerals between dots, the platform's ending and perhaps one newline |
| `ReproShapes.TrackedExactly` | scripts/build_reproducibility_report.py:348-397 | which tracked files are read on, field by field |
| `ReproShapes.HostsExactly` | scripts/build_reproducibility_report.py:297-308 | the hosts of a commit are the labels that attest it, ascending |
| `ReproShapes.LeftBehindExactly` | scripts/build_reproducibility_report.py:447-475 | the entries a run adds, with their reasons: one for every attestation of another artifact, and of another commit whose host does not attest afresh |
| `ReproShapes.WrittenAdmitted` | scripts/build_reproducibility_report.py:142-200 | every attestation of a written report has a clean tree, no differing member and every other field as admitted, and the run's commit |
| `ReproShapes.FreshRunExactly` | scripts/build_reproducibility_report.py:539-578 | a first run without explicit files passes if and only if its local attestation is admitted, field by field |
| `ReproShapes.RefusedExactly` | scripts/build_reproducibility_report.py:400-537 | each of the two codes refuses a run if and only if the checks that carry it say so: shapes, commits, the tracked file, contradicted entries, repeated labels and different digests, in their order |
| `ReproShapes.EligibleExactly` | scripts/build_reproducibility_report.py:221-252 | what a selection can return: the admitted attestations that name the commit and bind the candidate in all four fields |
| `ReproShapes.BlockersExactly` | scripts/build_reproducibility_report.py:329-333 | the second-host blocker stands exactly while no two attestations share a commit, the other three always |
| `ReproTheorems.AttestedHosts` | scripts/build_reproducibility_report.py:496-559 | the hosts of the new report are exactly those whose listing entries the run retires |
| `ReproTheorems.HostsKept` | scripts/build_reproducibility_report.py:400-518 | a host attested or listed before a successful run is attested or listed after it |
| `ReproTheorems.HostsKeptForever` | scripts/build_reproducibility_report.py:539-604 | over every sequence of runs, refused ones included, no host disappears |
| `ReproTheorems.RunSettles` | scripts/build_reproducibility_report.py:400-559 | a written report names one commit and one digest; its listing is unique by host and commit, about other hosts, and never names the current commit |
| `ReproTheorems.SettledForever` | scripts/build_reproducibility_report.py:539-604 | from the first successful run on the file stays of that shape |
| `ReproTheorems.ReportUnique` | scripts/build_reproducibility_report.py:287-338 | the report is determined by the set of attestations and the listing |
| `ReproTheorems.BuildOrderFree` | scripts/build_reproducibility_report.py:287-338 | neither the refusal and its code nor the report depends on the order of the attestations |
| `ReproSelect.CountHosts` | scripts/build_reproducibility_report.py:274-276 | counts for every commit how many attestations name it |
| `ReproSelect.SelectAttestation` | scripts/build_reproducibility_report.py:221-284 | the first attestation of least host label among those of the one commit with strictly more eligible attestations than any other, or nothing when the pool is empty or commits tie |
| `ReproSelect.SelectionOfWritten` | scripts/build_reproducibility_report.py:255-284 | selecting from a written report without a candidate never ties and returns its first attestation |
| `ReproRerun.WritesUnique` | scripts/build_reproducibility_report.py:547-577 | the file and the input determine the written report |
| `ReproRerun.FixedPoint` | scripts/build_reproducibility_report.py:400-559 | running again with the same local attestation on a well-formed listing writes the same report |
| `ReproRerun.ListingOkExactly` | scripts/build_reproducibility_report.py:384-397 | the new listing is well-formed if and only if the run left behind no attestation with a newline in its commit or digest |
| `ReproRerun.Wedged` | scripts/build_reproducibility_report.py:374-442 | with a malformed entry in the listing every later run refuses, whatever its input |
| `ReproRerun.RerunExactly` | scripts/build_reproducibility_report.py:539-604 | a further run of the same candidate succeeds if and only if the first left no newline behind, and then rewrites the same report |
| `ReproRerun.NewlineRunExists` | scripts/build_reproducibility_report.py:33-34 | a successful run that leaves such a newline behind exists |
| `Bytes.ByteAt` | scripts/check_complete_root_index_snapshot_vector.py:60-65 | packed integers are big-endian: byte i of n is the (n - 1 - i)-th digit in base 256 |
| `SnapshotCodec.ReadPrintedBody` | scripts/check_complete_root_index_snapshot_vector.py:90-100 | the printed sections read back, unless a reader that checks kinds meets one outside 1..18 |
| `SnapshotCodec.PrintReadBody` | scripts/check_complete_root_index_snapshot_vector.py:150-161 | sections that read to the end of the data are the print of what was read, byte for byte |
| `SnapshotInspect.SkipMembers` | scripts/check_complete_root_index_snapshot_vector.py:150-153 | the counted loop succeeds as the reader does, turns once for every member when it succeeds, and pays 36 bytes for each turn but for one that fails |
| `SnapshotInspect.SkipGroups` | scripts/check_complete_root_index_snapshot_vector.py:156-159 | the same for the nested loops: one turn for every group and one for every group member |
| `SnapshotInspect.Inspect` | scripts/check_complete_root_index_snapshot_vector.py:123-163 | the failure code of every candidate, in the order of the checks; all loops together turn at most (length + 72) / 36 times, whatever counts are declared, and exactly once for every entry, edge, group and group member of a body that reads to its end |
| `SnapshotInspect.InspectRecord` | scripts/check_complete_root_index_snapshot_vector.py:123-163 | what the inspector says about any record, from the record's own fields |
| `SnapshotInspect.InspectExact` | scripts/check_complete_root_index_snapshot_vector.py:123-163 | a candidate is accepted if and only if it fits the size cap and is the record of some snapshot of the expected context with modeled kinds |
| `SnapshotCodes.InspectCodes` | scripts/check_complete_root_index_snapshot_vector.py:123-163 | the inspector refuses with a code if and only if the fields the candidate holds, at their places, say so |
| `SnapshotCodes.OtherContext` | scripts/check_complete_root_index_snapshot_vector.py:146-147 | any record within the cap inspected against another epoch or root is a context mismatch |
| `SnapshotCodes.OtherWord` | scripts/check_complete_root_index_snapshot_vector.py:133-149 | the code of a record whose version, profile, limits, option or arm word is overwritten with another |
| `SnapshotCodes.OtherTrailer` | scripts/check_complete_root_index_snapshot_vector.py:162-163 | a record of modeled kinds with another trailer is a digest mismatch |
| `SnapshotLayout.RecordLayout` | scripts/check_complete_root_index_snapshot_vector.py:85-101 | where every header word and every row of the inventory, the edges and the reverse groups stands in a record |
| `SnapshotInspect.PreimageInjective` | scripts/check_complete_root_index_snapshot_vector.py:85-100 | the preimage determines epoch, root, arm, inventory, edges and groups |
| `SnapshotBuild.InOrder` | scripts/check_complete_root_index_snapshot_vector.py:77-81 | decides equality with the sorted list |
| `SnapshotBuild.GroupLinks` | scripts/check_complete_root_index_snapshot_vector.py:82-100 | group keys ascend strictly, every group holds exactly the dependents of its key in edge order, and every dependency has a group |
| `SnapshotLayout.EdgesAsBytes` | scripts/check_complete_root_index_snapshot_vector.py:78-80 | edges are ordered exactly as the bytes a record holds for them |
| `SnapshotBuild.BuildCodes` | scripts/check_complete_root_index_snapshot_vector.py:72-80 | each code refuses an input if and only if its check fails and the earlier ones pass; arm 1 takes the kinds 4 to 15 and no others |
| `SnapshotBuild.BuildRecord` | scripts/check_complete_root_index_snapshot_vector.py:68-101 | the refusals in order, and otherwise the record of the given inventory and edges with their inversion |
| `SnapshotBuild.StrictExactly` | scripts/check_complete_root_index_snapshot_vector.py:77-81 | what is not refused is strictly ascending if and only if no identity, and no edge, is repeated |
| `SnapshotBuild.RepeatsAccepted` | scripts/check_complete_root_index_snapshot_vector.py:77-81 | an inventory that repeats an identity and a list that repeats an edge are not refused |
| `SnapshotBuild.UngroupSame` | scripts/check_complete_root_index_snapshot_vector.py:82-100 | un-grouping gives back the same edges, each as often |
| `SnapshotBuild.SizesAddUp` | scripts/check_complete_root_index_snapshot_vector.py:96-100 | the group sizes sum to the number of edges |
| `SnapshotBuild.GroupsSorted` | scripts/check_complete_root_index_snapshot_vector.py:80-84 | sorted edges leave every group sorted |
| `SnapshotBuild.RoundTrip` | scripts/check_complete_root_index_snapshot_vector.py:68-163 | inspecting a built record in its own context accepts exactly when it fits the size cap, is of the complete-root arm and has only modeled kinds; otherwise the code is that of the first of these that fails |
| `CapsuleDecode.OptionCursor` | scripts/check_context_capsule_vector.py:122-130 | passes over exactly the bytes the tags announce, or fails on a short record |
| `CapsuleDecode.SkipsPrinted` | scripts/check_context_capsule_vector.py:52-60 | an encoded cursor is passed over to its last byte if and only if its arm is known; of any other, 36 bytes remain |
| `CapsuleDecode.UnknownArm` | scripts/check_context_capsule_vector.py:122-130 | of an encoded cursor of tag 4 the skipper passes over 40 of 76 bytes |
| `CapsuleDecode.SkippedIsPrinted` | scripts/check_context_capsule_vector.py:122-130 | what is passed over is some cursor's encoding if and only if its option and cursor tags are known |
| `CapsuleDecode.TakePayload` | scripts/check_context_capsule_vector.py:157-193 | the facts of every class and where its payload ends, or failure on a short record |
| `CapsuleDecode.DecodePayload` | scripts/check_context_capsule_vector.py:133-196 | the decoded facts of every record; and on acceptance the two counts it passes over are the ones `total_and_returned` reads |
| `CapsuleDecode.TotalAndReturned` | scripts/check_context_capsule_vector.py:251-255 | reads the two counts behind the first cursor |
| `CapsuleHeader.ParsersAgree` | scripts/check_context_capsule_vector.py:133-255 | on a record that opens with a printed header one parser stops exactly behind it and the other returns exactly its two counts |
| `CapsuleHeader.AcceptedHeaderIsPrinted` | scripts/check_context_capsule_vector.py:133-149 | an accepted header is the print of some header if and only if the tags of both cursors are known |
| `CapsuleRows.ListingRecordExactly` | scripts/check_context_capsule_vector.py:168-195 | a record of any listing class (all but 1, 2 and 3) is accepted if and only if its count times the row width of the class accounts for every byte behind the count |
| `CapsuleRows.ListedFacts` | scripts/check_context_capsule_vector.py:168-196 | what an accepted listing states, row by row and in order, and nothing else: bindings with their roots, entities with the kind their last row states, pairs, roots, edges with their ends, or plain identities |
| `CapsuleRows.SummaryExactly` | scripts/check_context_capsule_vector.py:157-158 | a summary is accepted if and only if it has its one length, and states no facts |
| `CapsuleRows.SubjectExactly` | scripts/check_context_capsule_vector.py:159-164 | a subject record is accepted if and only if its fingerprint option ends it, and states kind, object and fingerprint |
| `CapsuleRows.FingerprintExactly` | scripts/check_context_capsule_vector.py:165-167 | a fingerprint record is accepted if and only if its option ends it, and states that fingerprint only |
| `CapsuleTables.DecodedNamed` | scripts/check_context_capsule_vector.py:133-218 | whatever a record of a query's class decodes to, no lookup in the dictionary of identities can fail |
| `CapsuleTables.KindTable` | scripts/check_context_capsule_vector.py:208-214 | every entity's place holds the subject's kind, its decoded kind, or 0 |
| `CapsuleTables.BuildTables` | scripts/check_context_capsule_vector.py:207-218 | the entity table is the strictly ascending listing of exactly the identities named by response or question; relationships, objects and fingerprints point into it |
| `CapsuleTables.TablesRestore` | scripts/check_context_capsule_vector.py:207-218 | all indices are in range and reading back through the table restores edges in order, identities, roots, object and fingerprint; the kinds come back if and only if none is 0 |
| `CapsuleExamples.ZeroKindLost` | scripts/check_context_capsule_vector.py:208-214 | a class 8 record that lists the entity asked about with kind 0 and one that lists nothing both decode, to different facts, and get the same tables |
| `CapsuleTables.SameTables` | scripts/check_context_capsule_vector.py:207-218 | two sets of facts get the same tables if and only if they agree up to order and repetition of identities and roots, and kinds of 0 |
| `CapsuleBuild.Build` | scripts/check_context_capsule_vector.py:199-248 | the refusals in order, and otherwise the record of the capsule that answers the vector; completeness, truncation and the omitted count |
| `CapsuleBuild.WrittenFacts` | scripts/check_context_capsule_vector.py:219-246 | a reader of the layout finds in a written capsule the vector's context, question, record and counts, and tables that give the record's facts back |
| `CapsuleBuild.PacksExactly` | scripts/check_context_capsule_vector.py:219-246 | packing fails if and only if the question or next cursor holds an integer of the wrong width, more was returned than counted, the total is out of 64 bits, or the record, the entity table or a place in it is too large |
| `CapsuleBuild.FewPlaces` | scripts/check_context_capsule_vector.py:207-218 | with fewer than 2^32 identities the entity table and every place in it fit |
| `CapsuleExamples.ReturnedAboveTotal` | scripts/check_context_capsule_vector.py:219-246 | a response record that decodes, states one returned of none counted, and has no capsule that can be packed |
| `CapsuleBuild.CapsuleBinds` | scripts/check_context_capsule_vector.py:228-247 | equal preimages of 32-byte identities were built for the same context, session, question, response record and counts |
| `CapsuleExamples.BoundarySlides` | scripts/check_context_capsule_vector.py:228-230 | every capsule with a nonempty schema epoch shares its preimage with one of another context, whose workspace took a byte of the schema epoch |
| `CapsulePreimage.QuestionSame` | scripts/check_context_capsule_vector.py:73-94 | an encoded question determines the question and needs no length in front |
| `CapsulePreimage.TablesRead` | scripts/check_context_capsule_vector.py:240-245 | the six tables stand where the counts in front of them say, row by row: dependent, dependency and kind, place and identity |
| `CapsulePreimage.CapsuleReads` | scripts/check_context_capsule_vector.py:219-246 | reading every field and row off its place in a preimage gives the capsule back |
| `CapsulePreimage.PreimageInjective` | scripts/check_context_capsule_vector.py:228-246 | the preimage determines the capsule with all its tables |
| `Register.SupersedesExactly` | scripts/build_finding_register.py:211-226 | when one round supersedes another, for each way their subjects can compare |
| `Register.LaterRevisionCloses` | scripts/build_finding_register.py:214-222 | of two numbered rounds of one name the one with the larger number supersedes the other, and never the reverse |
| `Register.SliceClosesOverall` | scripts/build_finding_register.py:226 | a PASS on a part supersedes the early overall round |
| `Register.OtherStepsDescend` | scripts/build_finding_register.py:192-226 | any step of supersession but from a mixed name to a strictly more qualified one that is not early descends from not-early to early, then to a larger core, then to an earlier revision |
| `Register.CyclesExactly` | scripts/build_finding_register.py:192-226 | some of a set of names supersede each other in a cycle, of any length, if and only if one of them is mixed and another is not early and has a strictly larger core |
| `Register.CyclesNeedMixed` | scripts/build_finding_register.py:192-226 | every cycle of supersession, of any length, goes through a name with both an early and a late token |
| `Register.MutualExactly` | scripts/build_finding_register.py:192-226 | two names supersede each other if and only if one carries both tokens, the other is not early, and the other's core is strictly larger |
| `Register.MutualExample` | scripts/build_finding_register.py:192-226 | two such names |
| `RegisterFold.CollectNotes` | scripts/build_finding_register.py:421-426 | the dictionaries hold for every section and field the last row's date and scope |
| `RegisterFold.FindSuperseder` | scripts/build_finding_register.py:431-441 | the first PASS, in row order, that passes every guard |
| `RegisterFold.Fold` | scripts/build_finding_register.py:429-446 | rewrites every failed round from the rows as they were before the loop, and no other row |
| `RegisterFold.FoldedExactly` | scripts/build_finding_register.py:416-447 | a failed round becomes historical if and only if a PASS of its section and lane supersedes it within every chronology guard, by the last note of the PASS's section and field, names the first such PASS in row order, and is otherwise open |
| `RegisterFold.ClosedExactly` | scripts/build_finding_register.py:169-189 | a PASS closes a round if and only if every guard holds of its last note: not dated before, strictly descending when both record a scope, and both recorded between numbered rounds |
| `RegisterFold.FoldMonotone` | scripts/build_finding_register.py:429-446 | further rows that keep the notes of every section and field never reopen a folded round |
| `RegisterFold.FoldReopensExactly` | scripts/build_finding_register.py:429-446 | a folded round is open again under other rows if and only if no PASS among them closes it by its last note |
| `RegisterFold.UniqueKeepsNotes` | scripts/build_finding_register.py:421-426 | rows of distinct sections and fields keep the notes of the rows among them |
| `RegisterFold.FoldReopens` | scripts/build_finding_register.py:421-446 | a further row of the PASS's own section and field with an earlier date reopens the round |
| `RegisterLedger.BuildLinks` | scripts/build_finding_register.py:1762 | the dictionary of links, the last entry of a claim winning |
| `RegisterLedger.Walk` | scripts/build_finding_register.py:1763-1769 | terminates on every dictionary of links, with the end of the chain or, if and only if the chain has no end, with a cycle |
| `RegisterLedger.CheckSection` | scripts/build_finding_register.py:1689-1781 | accepts a list if and only if every entry is well-shaped, passes every check and has a chain that ends at an open claim |
| `RegisterLedger.AcceptedClaims` | scripts/build_finding_register.py:1703-1761 | a list is accepted if and only if every claim in it is neither open nor closed, of the section's severity, a carry that names the first seven characters of the commit its target stands at, meets the other conditions, and ends its chain at an open claim |
| `RegisterLedger.ClaimsDescend` | scripts/build_finding_register.py:1756-1761 | along an accepted chain every claim descends strictly from every tagged claim behind it |
| `RegisterLedger.AcceptedChains` | scripts/build_finding_register.py:1726-1780 | every entry of an accepted list has a finite chain that repeats no claim, keeps one finding key, descends strictly between tagged claims, and ends at an open claim |
| `Spdx.ParsePrimary` | scripts/build_standards_sbom.py:149-175 | the position the reader of a primary ends at |
| `Spdx.ParseAnd` | scripts/build_standards_sbom.py:177-181 | the loop ends where the recursive reader of a conjunction does |
| `Spdx.ParseOr` | scripts/build_standards_sbom.py:183-187 | the loop ends where the recursive reader of a disjunction does |
| `Spdx.RecognisedExactly` | scripts/build_standards_sbom.py:149-194 | the descent ends at the last token if and only if the tokens print some tree of the grammar in which WITH binds tighter than AND and AND tighter than OR |
| `Spdx.ValidTokens` | scripts/build_standards_sbom.py:190-194 | a token list is accepted if and only if it is the print of some tree |
| `Spdx.PrintInjective` | scripts/build_standards_sbom.py:149-187 | the grammar is unambiguous |
| `SpdxText.ValidSpdxExpression` | scripts/build_standards_sbom.py:140-194 | an expression is valid if and only if its tokens print some tree |
| `SpdxRender.LicenseExactly` | scripts/build_standards_sbom.py:155-173 | which texts are licenses and which are exceptions |
| `SpdxRender.RenderedValid` | scripts/build_standards_sbom.py:189-194 | every tree written out with single spaces is a valid expression and tokenises back to that tree |
| `SpdxRender.MitOrApache` | scripts/build_standards_sbom.py:140-194 | `MIT OR Apache-2.0` is valid |
| `SpdxText.TokensSqueeze` | scripts/build_standards_sbom.py:130 | squeezing white space does not change the tokens |
| `SpdxText.DeclarationAccepted` | scripts/build_standards_sbom.py:216-222 | a declaration is accepted if and only if, without `/`, its tokens print a tree, and with `/`, no part is blank and the parts' tokens joined by OR print a tree |
| `SpdxText.PartsSuffice` | scripts/build_standards_sbom.py:119-137 | when every `/`-part is an expression, the declaration is accepted as their disjunction |
| `SpdxParts.PartsNotNecessary` | scripts/build_standards_sbom.py:119-137 | the declaration `(A/B)` is accepted although neither of its parts is an expression |
| `SpdxParts.SplitPrinted` | scripts/build_standards_sbom.py:183-187 | a printed tree split at an OR outside parentheses gives two printed trees |
| `SpdxParts.TokenDepth` | scripts/build_standards_sbom.py:189-190 | the tokens of a text hold as many more opening than closing parentheses as the text |
| `SpdxParts.PartsExactly` | scripts/build_standards_sbom.py:119-137 | every part is an expression if and only if the parts' disjunction is one and every part holds as many opening as closing parentheses |
| `SpdxParts.DeclarationParts` | scripts/build_standards_sbom.py:216-222 | the parts of a `/`-joined declaration are all expressions if and only if the declaration is accepted and every part holds as many opening as closing parentheses |
| `SpdxText.NormalizeIdempotent` | scripts/build_standards_sbom.py:119-137 | normalising twice is normalising once |
| `Limits.DenotesExactly` | scripts/check_declared_limits.py:94-121 | the number each form of initializer stands for |
| `Limits.Pow2Adds` | scripts/check_declared_limits.py:114-120 | a shift of one doubles, and shifts add up: the two facts that fix every power |
| `Limits.KnownOnce` | scripts/check_declared_limits.py:181-185 | a name is known with at most one value ever |
| `Limits.ContributesOnce` | scripts/check_declared_limits.py:94-121 | a declaration contributes at most one value over the whole run |
| `Limits.StableSoon` | scripts/check_declared_limits.py:175-187 | some round within the number of declarations adds nothing |
| `Limits.FinalOrderFree` | scripts/check_declared_limits.py:173-187 | the final values depend on the set of declarations only |
| `Limits.ValuesDerived` | scripts/check_declared_limits.py:173-187 | every value has a finite derivation that starts at a literal, each step applying an initializer to the value before |
| `LimitsRun.Pass` | scripts/check_declared_limits.py:177-180 | one pass adds exactly the values the declarations give under the names known before it |
| `LimitsRun.KnownOf` | scripts/check_declared_limits.py:181-185 | exactly the names with one value are known |
| `LimitsRun.Resolve` | scripts/check_declared_limits.py:173-187 | ends within one round more than there are declarations, with the least stable set of values and the names that have one |
| `LimitsRun.LostIsAmbiguous` | scripts/check_declared_limits.py:169-185 | a name that was known is lost if and only if it ends with two values |
| `LimitsRun.LostExactly` | scripts/check_declared_limits.py:177-185 | a name loses its standing if and only if, in some round in which it is known, a declaration of it gives another value |
| `LimitsRun.StaleExactly` | scripts/check_declared_limits.py:104-113 | a declaration keeps a value its reference no longer gives if and only if, in some round in which the referred name is known, a declaration of that name gives another value |
| `LimitsRun.NothingLost` | scripts/check_declared_limits.py:169-172 | when every name declared in two ways has only literal initializers, no name is ever lost |
| `LimitsSpellings.NumeralReads` | scripts/check_declared_limits.py:67 | the numeral of a number reads as that number and starts with no zero |
| `LimitsSpellings.PowerTexts` | scripts/check_declared_limits.py:80-82 | the four texts of a power form |
| `LimitsSpellings.GroupLoop` | scripts/check_declared_limits.py:69-74 | the loop yields the groups of three characters counted from the end |
| `LimitsSpellings.Spellings` | scripts/check_declared_limits.py:65-83 | the forms are the plain, grouped and underscored numeral and every power-of-two form `2^n + 1` or `2^n - 1` that denotes the value |
| `LimitsSpellings.GroupsRejoin` | scripts/check_declared_limits.py:68-75 | taking the separators out of the joined groups gives the numeral back |
| `LimitsSpellings.SpellingsDisjoint` | scripts/check_declared_limits.py:65-83 | a string that spells two numbers spells one: no form is shared |
| `LimitsSpellings.SignDetached` | scripts/check_declared_limits.py:69-75 | the first group is a lone sign if and only if the number is negative and its digit count is a multiple of three |
| `LimitsSpellings.HundredDetached` | scripts/check_declared_limits.py:69-75 | -100 is spelled `-_100` |
| `LimitsRun.StaleExample` | scripts/check_declared_limits.py:169-187 | three declarations after which an alias keeps the value 5 of a name that ends with the values 5 and 6 |

## Left out

- NothingLost: gives a condition on the declarations alone, in one direction; the exact condition is about a round of the run (`LostExactly`, `StaleExactly`).
- FoldMonotone: is about rows that keep the notes, because a later row of one section and field replaces the date and scope of an earlier one (`FoldReopens`).
- ClaimsDescend: a claim without a tag of its own, which only the last of a chain can be, has no scope to compare.
- CapsuleBinds: for vectors of 32-byte identities, which the profile has and the script does not check; without that it is false (`BoundarySlides`).
- Missing JSON keys and wrongly typed fields, which raise inside the complete-root and capsule oracles, and Python's recursion limit.
- The non-ASCII digits that `\d` and `isdigit` accept, and a final newline after a numbered revision round of a field name.
- `--check` and `--emit-attestation` runs, evidence reading, `publication_authorized` and the constant texts of the report.
- The walk of the summary that collects review obligations, their sorting, and the prose readers (states, dates, scopes, finding keys, carried markers), which are given functions or fields.
- `package_restated_claims` over all sections: one section and severity is modelled, the others repeat it.
- `package_open_findings`, which counts distinct keys.
- `check_constant` and the search of the specification texts, which looks for a spelling inside longer text.
- The assembly of SPDX and CycloneDX documents and the admission of release candidates.
- The comparison of built records with frozen vectors in each script's `main`, and all JSON, file, git and argument handling.
- The other builders and drift checkers, whose claims are finite case tables, and the Rust crates.
- The strength of BLAKE3 and SHA-256: they are arbitrary functions here.
