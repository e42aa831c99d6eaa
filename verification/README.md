# Verification model of Arc

Arc is a version control system whose history is a DAG of *changes*. A change holds *atoms* that insert,
delete or record nodes under paths; a *view* names a set of head changes; the content of a view is what
replaying its ancestors in topological order leaves in a map from paths to bytes. Two views merge without a
merge commit when every pair of changes in their exclusive deltas passes a local, syntactic commutation
check. This project models that machinery in Dafny and proves what the check is for.

`dafny verify dfyconfig.toml` checks everything.

## What is modelled

* **The change graph** (`Reach`, `Kahn`, `Graph`): the class with its three maps,
  breadth-first ancestors, Kahn's algorithm with in-degree counters, lowest common ancestors. Each method is
  proved against a function of the edges, and the functions against reachability.
* **Replay and commutation** (`Cells`, `Algebra`): `apply_change` over state and blame maps with its error
  returns and the ignore gate for AI authors. `Cells` shows once that a replay is decided key by key.
* **Histories** (`History`): for every finite, acyclic, dependency-closed, conflict-free set of changes,
  confluence of replay, the outcome of merges in any order and grouping, and blame.
* **The repository** (`Repository`, `Runs`): the handle with its graph, store and views, and the same
  operations as a state machine whose invariant holds in every state of every run. A set of changes is
  *sound* when it is complete in the store, conflict-free and replays without an error.
* **The working directory** (`Paths`, `Diff`, `WorkingDirectory`): the item diff of a file, the delta of a whole working
  directory, any staged part of it, and whether the recorded change can be replayed.
* **The richer patch algebra** (`PatchAlgebra`, `PatchHistory`, `PatchInverse`, `PatchSparse`, `SparsePatterns`):
  eight atoms over a blob store, blob-aware commutation of changes and of whole histories, inversion, sparse
  replay and the patterns that bound it.
* **Transfer** (`Fetch`, `Push`): the two bounded walks that stop at what the receiver already has.
* **Encodings** (`Endian`, `Ewah`, `EwahBits`, `ContentHash`): EWAH bitmaps and the byte stream that is hashed.

Identities are 32-byte arrays read as numbers, so `<` is their byte order. An id determines its change, and an
id that nobody wrote yet is not named as a dependency by anybody, so the graph is acyclic. Sets and maps are
iterated in an arbitrary order everywhere: what is proved does not depend on it. Hash functions, the ignore
rules and the clean-working-directory check are parameters.

Five properties one would expect hold only under a condition. Each has its exact condition, for all inputs,
and an input that shows where it fails:

* `cherry_pick` promises (`src/store/repo.rs:849-853`) to ask for dependencies in the view and commutation with
  what is beside them. It keeps that promise exactly when the change is already loaded or has no
  dependencies: `Repository.PickIsExact`, `Repository.FreshHandleRefuses`.
* A snap does not ask the ignore gate that replay asks (`src/store/repo.rs:322-332` against
  `src/algebra/apply.rs:49-70`), so a view stays replayable exactly when the author may touch all that was
  staged: `WorkingDirectory.SnapOfWorkKeepsInv`, `WorkingDirectory.BlockedSnapBreaks`.
* Sparse replay skips blobs. Where the full replay succeeds, the sparse one succeeds exactly when at every
  tracked file inside the boundary that file's own atoms succeed without the skipped blobs, and it is the
  projection of the full one exactly when they leave what the full replay leaves: `PatchSparse.SparseSucceedsIff`,
  `PatchSparse.SparseProjectsIff`, `PatchSparse.DeletedBlobFails`, `PatchSparse.HiddenBlobBreaks`.
* Normalising a sparse path twice is normalising it once exactly when what is left before its slashes are
  trimmed has no white space right inside them and no further `./` behind the leading ones:
  `SparsePatterns.NormalTwiceIff`, `SparsePatterns.NormalTwiceDiffers`.
* A push or fetch that broke off half way is repaired by doing it again exactly when the second walk still
  finds everything that what was written depends on; it stops at what was written. `Push.RetryIff`,
  `Push.RetryDangles`, `Fetch.RetryIff`.

## Model

| member | source | states |
|---|---|---|
| Graph.ChangeGraph.AddChange | src/store/graph.rs:39-51 | the reverse edges stay the exact transpose of the edges, ghosts included, and the node is added |
| Graph.ChangeGraph.AncestorsInclusive | src/store/graph.rs:141-159 | the walk terminates and returns exactly what is reachable from the heads |
| Reach.AncIff | src/store/graph.rs:141-159 | an id is an ancestor if and only if a dependency path leads to it from a head |
| Reach.AncIsLeast | src/store/graph.rs:141-159 | the ancestors are the least dependency-closed set holding the heads (`AncIsClosed` is the other half) |
| Reach.WalkedIsAll | src/network/sync.rs:47-55 | a walk that stops at known ids finds every ancestor that is not known, when the known ids are closed |
| Reach.SecondWalkIff | src/network/sync.rs:42-71 | after a broken-off walk a second one completes the heads if and only if it still finds all that the first one's ids depend on |
| Graph.ChangeGraph.TopologicalSort | src/store/graph.rs:83-129 | for any iteration order, counters and queue compute one function of edges and heads, without underflow or a missing entry; the ids come out as they become ready, those that become ready together in ascending order |
| Graph.ChangeGraph.Peel | src/store/graph.rs:109-125 | one turn counts each child down once and queues, sorted, exactly those that became ready |
| Kahn.KahnOrderLinear | src/store/graph.rs:77-129 | on an acyclic graph that function lists each reachable id exactly once, dependencies first |
| Kahn.KahnOrderTies | src/store/graph.rs:80-82 | along the order the pairs of the place of an id's last listed dependency (-1 for a root) and the id ascend |
| Kahn.OneOrder | src/store/graph.rs:80-129 | there is only one linear order of a set with that property |
| Kahn.KahnOrderAgrees | src/store/graph.rs:83-129 | the order depends on nothing but the edges of the listed ids |
| Kahn.KahnOrderAppends | src/store/graph.rs:83-129 | the order of a new id on top of the heads is the order of the heads followed by that id |
| Graph.InsertionOrderIrrelevant | src/store/graph.rs:39-51 | the same changes added in any order, with repetitions, give the same topological order |
| Graph.ChangeGraph.MergeBase | src/store/graph.rs:170-214 | the nested walks return exactly the common ancestors below no other common ancestor |
| Kahn.MergeBaseSpans | src/store/graph.rs:165-214 | the merge base is an antichain and its ancestors are exactly the common ancestors |
| Kahn.DeltasUnrelated | src/store/repo.rs:488-512 | no dependency path links the two exclusive deltas, in either direction |
| Cells.RunSucceeds | src/algebra/apply.rs:72-105 | a replay succeeds if and only if it has no error atom and the writes of every key succeed on their own |
| Cells.RunAt | src/algebra/apply.rs:72-105 | each key ends as its own writes leave it |
| Algebra.Workspace.ApplyChange | src/algebra/apply.rs:37-106 | succeeds exactly when its writes run; the new state and blame are those of the writes; on an error the atoms before the failing one, and only those, took effect |
| Algebra.Workspace.Execute | src/algebra/apply.rs:72-103 | what each atom writes to state and blame, and that a failing one changes nothing |
| Algebra.TouchesRestricted | src/algebra/apply.rs:49-70 | the gate loop finds a restricted path if and only if the atom has one |
| Algebra.GateIff | src/algebra/apply.rs:43-70 | an atom is refused if and only if its author is an AI and it names a file or directory path whose second segment is `.agentignore` or is ignored as a file or directory |
| Algebra.GateExact | src/algebra/apply.rs:43-70 | an AI author's change that names such a path never replays; any other change replays as a human's would |
| Algebra.IgnoreFileIsSafe | src/algebra/apply.rs:58-69 | whatever the ignore rules say, an AI author's change to the ignore file never replays |
| Algebra.AtomMeans | src/algebra/apply.rs:72-103 | what each atom that passes the gate does to the cell of every key, and exactly when it fails |
| Algebra.AtomMarks | src/algebra/apply.rs:72-96 | whom it leaves blamed for every key |
| Algebra.PathsAreNamed | src/algebra/mod.rs:39-47 | the paths of an atom are exactly the fields that are paths |
| Algebra.CommutesIff | src/algebra/commute.rs:11-44 | the check passes if and only if neither change names the other and no touched path of one is a prefix of one of the other |
| Algebra.CommutesSwap | src/algebra/commute.rs:11-44 | two changes that pass the check replay to the same state in both orders, or fail in both |
| History.Confluence | src/store/repo.rs:159-174 | every two linear orders of a conflict-free history give the same state and the same blame, or both fail |
| History.PartDecides | src/store/repo.rs:159-174 | a key that nobody outside a closed part writes sees exactly the writes of that part |
| History.MergeLosesNothing | src/store/repo.rs:514-564 | the merged history replays, and each key holds the value (or absence) of the side whose delta touches it |
| History.OneDeltaTouches | src/store/repo.rs:514-530 | in a conflict-free union at most one of the two deltas touches a key |
| History.AcceptanceIsExact | src/store/repo.rs:502-548 | for two conflict-free sides no pair fails the check if and only if the union of the histories is conflict-free |
| History.PlanOutcome | src/store/repo.rs:550-557 | whether any sequence or grouping of merges goes through, and the heads it ends with, depends only on the heads that take part |
| History.SameKeys | src/algebra/apply.rs:72-95 | state and blame have the same keys after every prefix of a replay |
| History.BlameIsLastWriter | src/store/repo.rs:198-224 | in every linear order each live key is blamed on the one writer that depends on all its other writers |
| Repository.Handle.constructor | src/store/repo.rs:52-78 | a new repository has an empty store and graph and an empty view `main` |
| Repository.Handle.Open | src/store/repo.rs:80-95 | an opened repository has its store and views, and nothing loaded |
| Repository.Handle.HydrateHeads | src/store/repo.rs:127-147 | on any loaded graph it adds exactly what the walk finds that stops at loaded changes, and fails exactly when one of those is not stored; on a closed graph these are all ancestors |
| Repository.Handle.ReplayOrder | src/store/repo.rs:164-171 | replays the listed changes; succeeds exactly when all are loaded and the replay succeeds |
| Repository.Handle.MaterializeHeads | src/store/repo.rs:159-174 | returns the state of the heads' history, or an error when they are not loaded or do not replay |
| Repository.GraphOrder | src/store/repo.rs:161 | the order from a partly loaded closed graph is the order of the whole store |
| Repository.LoadedHistory | src/store/repo.rs:121-147 | a closed part of the store knows the ancestors, the order and the completeness of its heads |
| Repository.Handle.Snap | src/store/repo.rs:253-335 | the outcome of every case in the order of the checks: which error, nothing, or a change with exactly the old heads, the delta, the message, the author and their hash as id, which becomes the only head and materialises to the old state with the change applied |
| Repository.Handle.CreateView | src/store/repo.rs:403-419 | forks the current heads under a new name and refuses an existing one |
| Repository.Handle.Deltas | src/store/repo.rs:488-512 | the deltas computed through the merge base are the exclusive ancestors of each side |
| Repository.Handle.FailingPairs | src/store/repo.rs:514-530 | lists exactly the pairs of the two deltas that do not commute |
| Repository.Handle.MergeHeads | src/store/repo.rs:474-564 | the outcome of every case in the order of the checks: a missing view or change, a replay error, a dirty tree, exactly the failing pairs recorded as the conflict, or the united heads and what they materialise to; what is not said to change stays |
| Repository.MergeVerdict | src/store/repo.rs:502-561 | with sound sides an empty list of failing pairs means that the union is conflict-free and materialises |
| Repository.Handle.CherryPick | src/store/repo.rs:858-916 | the outcome of every case in the order of the checks; succeeds exactly when the change is pickable given what is loaded and the new heads replay; adds just that head |
| Repository.PickIsExact | src/store/repo.rs:847-904 | for every change and view a pick is accepted if and only if the documented conditions hold and the change is loaded or has no dependencies |
| Repository.PromiseIsConflictFree | src/store/repo.rs:849-853 | for a change not yet in the view the documented conditions are its dependencies and a conflict-free union of histories |
| Repository.PickReplays | src/store/repo.rs:906-914 | an accepted pick of sound histories replays |
| Repository.UnloadedIsRefused | src/store/repo.rs:886-904 | a change that is not loaded and has dependencies is always refused |
| Repository.FreshHandleRefuses | src/store/repo.rs:886-904 | two changes for which the documented conditions hold and the pick on a fresh handle is refused |
| Repository.Handle.Blame | src/store/repo.rs:205-242 | lists by path exactly the live nodes of the file, each once, with the stored change that replay blames |
| Paths.SortByPath | src/store/repo.rs:240 | sorts the entries by path, losing and repeating none |
| Paths.PathLessIff | src/ast/rust_plugin.rs:77-88 | paths are ordered by the first segment in which they differ, a path before what extends it |
| Paths.StrLessIff | src/ast/rust_plugin.rs:77-88 | segments are ordered by the first character in which they differ, a prefix before what extends it |
| Repository.BlamedAreStored | src/store/repo.rs:228-240 | whatever blame names can be read from the store |
| Runs.SnapOrder | src/store/repo.rs:322-334 | the topological order of a new change is that of its dependencies' history, then the change |
| Runs.SnapAppends | src/store/repo.rs:319-334 | materialising a new change is applying it to the old state; conflicts play no part |
| Runs.RecordKeepsInv | src/store/repo.rs:322-334 | recording a change that applies keeps every view sound |
| Runs.MergeKeepsInv | src/store/repo.rs:474-564 | an accepted merge keeps every view sound |
| Runs.HeadsAreSound | src/store/repo.rs:469-474 | any heads whose histories are complete and conflict-free together replay, whoever put them together |
| Runs.PickKeepsInv | src/store/repo.rs:858-916 | an accepted cherry-pick keeps every view sound, however little of the history was loaded |
| Runs.StepKeepsInv | src/store/repo.rs:403-564 | every operation keeps every view sound (snap, stash, create, switch, merge of a view or of any conflict-free heads, stash pop, cherry-pick, refusals) |
| Runs.RunsAreSafe | src/store/repo.rs:253-916 | in every state of every run each view is complete in the store, conflict-free and replays without an error |
| Diff.DiffItems | src/ast/rust_plugin.rs:42-91 | three loops in any map order and a stable sort give a sorted list with, per path, the delete, the insert or both in that order |
| Diff.StableSort | src/ast/rust_plugin.rs:77-88 | sorted by path, and the atoms of each path keep their order |
| Diff.KeyIsFirstPath | src/ast/rust_plugin.rs:78-87 | an atom is sorted by the first path it names |
| Diff.DiffHas | src/ast/rust_plugin.rs:42-76 | a delete of exactly the old items that are gone or differ, an insert of exactly the new items that are new or differ, each once, the delete before the insert |
| Diff.DiffUnique | src/ast/rust_plugin.rs:77-91 | two item maps have one diff, whatever order the maps were iterated in |
| Diff.PrefixIs | src/store/repo.rs:976-991 | every path of a prefixed atom is the old one behind the file's two segments, and nothing else changes |
| Diff.DiffReplays | src/store/repo.rs:976-991 | the prefixed diff succeeds on the old items, makes them the new ones, and changes no other key |
| WorkingDirectory.WorkingDelta | src/store/repo.rs:342-400 | the delta has, at every path, exactly the atoms that file contents, missing files and empty directories call for |
| WorkingDirectory.DeltaReplays | src/store/repo.rs:342-400 | the delta applies to the state it was computed from, and every key then holds what the working directory has |
| WorkingDirectory.DeltaTarget | src/store/repo.rs:342-400 | every changed file then has its new items, a missing file no nodes, a missing directory is gone, a new empty one is there, and nothing else changed |
| WorkingDirectory.DeltaHas | src/store/repo.rs:342-400 | the delta has an atom for exactly what differs between the state and the working directory |
| WorkingDirectory.StagedConcat | src/store/repo.rs:268-300 | staging keeps the chosen atoms in their order (`StagedOne` is the case of one atom) |
| WorkingDirectory.StagedReplays | src/store/repo.rs:266-300 | whatever part of the delta the user stages applies to that state |
| WorkingDirectory.RecordedApplies | src/store/repo.rs:319-334 | a recorded part replays if and only if its author passes the ignore gate on all of it |
| WorkingDirectory.SnapOfWorkKeepsInv | src/store/repo.rs:253-335 | a snap of any staged part keeps every view sound if and only if its author passes the gate on all of it |
| WorkingDirectory.BlockedSnapBreaks | src/store/repo.rs:322-332 | an AI author's snap in an ignored file is recorded and its view no longer replays |
| PatchAlgebra.Workspace.ApplyChangeScoped | crates/arc-algebra/src/apply.rs:64-179 | the gate, then the boundary, then the atom: succeeds exactly when the writes in scope run, with the state and blame they leave; on an error the atoms in scope before the failing one, and only those, took effect |
| PatchAlgebra.Workspace.Execute | crates/arc-algebra/src/apply.rs:107-176 | what each of the eight atoms writes to state and blame, when it fails, and that a failing one changes nothing |
| PatchAlgebra.Workspace.ApplyChange | crates/arc-algebra/src/apply.rs:50-58 | without a boundary all atoms are in scope; state and blame after success and after an error |
| PatchAlgebra.IsBlocked | crates/arc-algebra/src/apply.rs:78-99 | the gate loop refuses exactly an AI author's atom with a restricted path |
| PatchAlgebra.GateIff | crates/arc-algebra/src/apply.rs:78-99 | an atom is refused if and only if its author is an AI and it names a file or directory path whose second segment is `.agentignore` or is ignored as a file or directory |
| PatchAlgebra.GateExact | crates/arc-algebra/src/apply.rs:78-99 | an AI author's change that names such a path never replays; any other change replays as a human's would |
| PatchAlgebra.IgnoreFileIsSafe | crates/arc-algebra/src/apply.rs:87-97 | whatever the ignore rules say, an AI author's change to the ignore file never replays |
| PatchAlgebra.AtomMeans | crates/arc-algebra/src/apply.rs:107-176 | what each of the eight atoms does to the cell of every key, and exactly when it fails |
| PatchAlgebra.AtomMarks | crates/arc-algebra/src/apply.rs:107-176 | whom it leaves blamed for every key |
| PatchAlgebra.PathsAreNamed | crates/arc-algebra-types/src/lib.rs:169-182 | the paths of an atom are exactly the fields that are paths; a blob has none |
| PatchAlgebra.MatchesAtomIff | crates/arc-algebra/src/sparse.rs:70-86 | a boundary sees an atom if and only if it is full or the atom names a file or directory node it matches |
| PatchAlgebra.InScopeIff | crates/arc-algebra/src/apply.rs:78-105 | in scope are exactly the atoms the gate refuses and those the boundary sees |
| PatchAlgebra.CommutesIff | crates/arc-algebra/src/commute.rs:18-26 | over all eight atoms: neither change names the other and, moves aside, no paths are prefix-related, no two blobs of one file differ in hash or size, and no blob's file holds a path of the other side |
| PatchAlgebra.SameBlobCommutes | crates/arc-algebra/src/commute.rs:193-198 | two unrelated changes that track the same blob commute |
| PatchAlgebra.FileOfMove | crates/arc-algebra/src/commute.rs:206-222 | the file of a move is that of its source, or of its target when the source is in none |
| PatchAlgebra.DisjointEffects | crates/arc-algebra/src/commute.rs:169-222 | two atoms that do not conflict write different keys, or the same blob token to the same key |
| PatchAlgebra.CommutesSwap | crates/arc-algebra/src/commute.rs:15-26 | over all eight atoms, changes that pass the check replay to the same state in both orders, or fail in both |
| PatchHistory.SameCell | crates/arc-algebra/src/commute.rs:15-17 | two orders leave the same cell when every two changes they list in opposite order can change places there |
| PatchHistory.Confluence | crates/arc-cli/src/repo/core.rs:746-763 | every two linear orders of a conflict-free eight-atom history replay to the same state or both fail, also when unrelated changes track one blob |
| PatchHistory.OneToken | crates/arc-algebra/src/commute.rs:169-204 | when both deltas of a conflict-free union write a key, all they write there is one blob token |
| PatchHistory.PartDecides | crates/arc-cli/src/repo/core.rs:746-763 | a closed part of a history decides a key that the rest does not write |
| PatchHistory.MergeLosesNothing | crates/arc-cli/src/repo/merge.rs:49-211 | the merged eight-atom history replays, each key holds the value of the side whose delta writes it, and where both deltas write one the two sides agree |
| PatchAlgebra.CommutePairIff | crates/arc-algebra/src/commute.rs:46-116 | the commuted pair exists if and only if the changes commute (the ghost gate refuses nothing more); it keeps dependencies and intents, is signed by the signer under the hash of its fields, and carries every atom across the other side's moves |
| PatchAlgebra.RewriteMoves | crates/arc-algebra/src/commute.rs:118-161 | a path follows the first move whose source holds it, and stays otherwise |
| PatchInverse.InvertChange | crates/arc-algebra/src/inverse.rs:66-79 | inverts the atoms in reverse order on top of the change, or returns the error of the last atom that has no inverse |
| PatchInverse.InvertAtomIs | crates/arc-algebra/src/inverse.rs:39-56 | which atoms have an inverse, what it is, and with which error the others have none |
| PatchInverse.InvertAtomsIs | crates/arc-algebra/src/inverse.rs:66-79 | the inverse lists the inverted atoms from last to first, or fails with the last atom that has none |
| PatchInverse.InvertTwice | crates/arc-algebra/src/inverse.rs:39-79 | inverting twice gives the atoms back |
| PatchInverse.UndoCell | crates/arc-algebra/src/inverse.rs:39-79 | one path is restored exactly when its edits are reversible there |
| PatchInverse.InverseRestores | crates/arc-algebra/src/inverse.rs:58-79 | running the inverse restores the state if and only if every insert hit an absent path and every first delete named the content present |
| PatchInverse.InverseLaw | crates/arc-algebra/src/inverse.rs:58-79 | the same for whole changes through the gate |
| PatchSparse.AtomProjectsIff | crates/arc-algebra/src/sparse.rs:70-86 | replaying one atom inside the boundary is the restriction of replaying it, from every state, if and only if it is not a tracked blob inside |
| PatchSparse.HiddenBlobBreaks | crates/arc-algebra/src/sparse.rs:81-86 | a tracked blob inside the boundary is missing from the sparse state |
| PatchSparse.SparseSucceedsIff | crates/arc-algebra/src/apply.rs:60-179 | given that the full replay succeeds, the sparse one does if and only if at each tracked file inside its own atoms succeed without the skipped blobs; every other key inside then holds the full state's value, and no key outside is there |
| PatchSparse.SparseProjectsIff | crates/arc-algebra/src/apply.rs:60-179 | the sparse replay is the part of the full state inside the boundary if and only if at each tracked file inside those atoms leave what the full replay leaves |
| PatchSparse.UndeletedSucceeds | crates/arc-algebra/src/apply.rs:101-126 | when no atom deletes a tracked file inside, the sparse replay succeeds wherever the full one does |
| PatchSparse.DeletedBlobFails | crates/arc-algebra/src/apply.rs:101-126 | a blob and its delete: the full replay succeeds and the sparse one fails |
| PatchSparse.SparseProjects | crates/arc-algebra/src/apply.rs:60-179 | for whole replays without a tracked file inside the boundary the sparse replay succeeds with exactly the part of the full state inside |
| SparsePatterns.Normalize | crates/arc-algebra/src/sparse.rs:89-95 | the loop and the trims compute the normal form |
| SparsePatterns.NormalIs | crates/arc-algebra/src/sparse.rs:89-95 | for every path, what the normal form is in terms of its characters: inside the outer white space, backslashes read as slashes, behind the leading `./` repetitions, between the outer slashes |
| SparsePatterns.NormalFixed | crates/arc-algebra/src/sparse.rs:89-95 | a path is its own normal form if and only if it has no backslash, no leading `./`, and no slash or white space at either end |
| SparsePatterns.NormalTwiceIff | crates/arc-algebra/src/sparse.rs:89-95 | for every path, normalising twice is normalising once if and only if what is left before the slashes are trimmed has no white space right inside them and no further `./` behind the leading ones |
| SparsePatterns.NormalTwiceDiffers | crates/arc-algebra/src/sparse.rs:89-95 | two paths that change again, `/./src` and `src /` |
| SparsePatterns.MatchesIff | crates/arc-algebra/src/sparse.rs:26-33 | a pattern matches exactly the paths whose leading segments are its own, so `app` does not match `app2` |
| SparsePatterns.JoinSegments | crates/arc-algebra/src/sparse.rs:26-33 | joined by slashes the segments give the path back; `SegmentsHoldNoSlash` makes them the pieces between the slashes |
| SparsePatterns.BoundaryIff | crates/arc-algebra/src/sparse.rs:46-78 | a node is inside the boundary if and only if no pattern is left after normalisation, or its file path lies in or below one of them |
| Fetch.FetchLocal | src/network/sync.rs:30-74 | writes, of what the walk finds that stops at local changes, what it read, each id asked for once; on success all of it; with a reliable disk it succeeds exactly when all of it is on the remote; a closed store stays closed and is complete for the heads |
| Fetch.FetchableIff | src/network/sync.rs:47-49 | from a closed store nothing out of reach is missing if and only if every ancestor is on one of the two sides |
| Fetch.RetryIff | src/network/sync.rs:47-71 | fetching again repairs a broken-off fetch if and only if the walk still finds all that what was written depends on |
| Push.Delta | crates/arc-cli/src/sync.rs:314-337 | the walk returns exactly what it finds that stops at the remote's changes, each once, and fails exactly when one of those is not stored here |
| Push.CopyBlobs | crates/arc-cli/src/sync.rs:345-369 | copies exactly missing blobs that inserts and deletes need, all of them on success, and keeps those that are there |
| Push.HasBlobsIff | crates/arc-cli/src/sync.rs:345-367 | the blobs that count are those inserts store and those deletes name |
| Push.WriteDelta | crates/arc-cli/src/sync.rs:339-370 | writes a prefix of the delta, all of it on success; every disk state on the way keeps the old objects and views |
| Push.PushLocal | crates/arc-cli/src/sync.rs:307-380 | from a closed store, at every disk state, error returns included, all ancestors of every saved head are stored, and on success the store is closed again; on success, from any store, the heads are the union, what the walk found was written and its blobs are there; with a reliable disk it succeeds |
| Push.ViewsSurvive | crates/arc-cli/src/sync.rs:339-376 | adding changes to a closed store leaves every saved view complete |
| Push.RetryIff | crates/arc-cli/src/sync.rs:323-376 | pushing again repairs a broken-off push if and only if the walk still finds all that what was written depends on |
| Push.RetryDangles | crates/arc-cli/src/sync.rs:323-376 | a child written without its dependency: the second push saves a head with a missing ancestor |
| Ewah.Decode | crates/arc-algebra/src/ewah.rs:35-59 | computes the decoding with its errors and returns the bytes after it |
| Ewah.DecodingIs | crates/arc-algebra/src/ewah.rs:35-59 | where each part lies in the input, and with which error each too short input fails |
| Endian.ToBeAt | crates/arc-algebra/src/ewah.rs:53-55 | network byte order: which byte of a number lies where |
| Ewah.DecodeEncode | crates/arc-algebra/src/ewah.rs:35-59 | decoding inverts the layout of Appendix A of gitformat-bitmap and leaves the tail untouched |
| Ewah.EncodeDecode | crates/arc-algebra/src/ewah.rs:35-59 | what was decoded, encoded again and followed by the rest, is the input |
| Ewah.RunWordFields | crates/arc-algebra/src/ewah.rs:130-147 | the three fields of a run word are read back exactly |
| EwahBits.RunWordBits | crates/arc-algebra/src/ewah.rs:130-147 | bit 0 of a run word is the run bit, bits 1 to 32 spell the run length in words, bits 33 to 63 the number of literals |
| EwahBits.BitsSpellWord | crates/arc-algebra/src/ewah.rs:108-115 | the 64 bits of a literal word, lowest first, spell the word |
| EwahBits.WordOfBits | crates/arc-algebra/src/ewah.rs:108-115 | a literal word packed from any 64 bits has exactly those bits |
| EwahBits.ExpandPacked | crates/arc-algebra/src/ewah.rs:74-119 | packing any runs and literals into words and expanding the words gives the bits back |
| Ewah.ForEachSetBit | crates/arc-algebra/src/ewah.rs:74-119 | for any words, truncated ones included, the callback sees what is due of the run/literal expansion, up to its first refusal |
| Ewah.OnesExact | crates/arc-algebra/src/ewah.rs:71-73 | what is due is strictly ascending and holds exactly the set positions below the limit |
| Ewah.DeliveredIs | crates/arc-algebra/src/ewah.rs:73-119 | what the callback sees is a prefix of what is due: all of it, or ending with the first refusal |
| Ewah.AllSetBitsSeen | crates/arc-algebra/src/ewah.rs:71-119 | a callback that never refuses sees exactly the set positions below the limit, in order |
| ContentHash.HashUpdate | crates/arc-change/src/content_hash.rs:51-156 | every implementation appends exactly the stream of its value |
| ContentHash.StreamIs | crates/arc-change/src/content_hash.rs:51-156 | the bytes of every type: little-endian numbers, lengths in eight bytes, tags 0 and 1, sorted digests, ordinals in four bytes |
| ContentHash.ItemsConcat | crates/arc-change/src/content_hash.rs:120-127 | items follow each other with nothing between them (`OneItem` is the case of one) |
| ContentHash.FieldsCons | crates/arc-content-hash-derive/src/content_hash.rs:26-53 | fields follow each other in declaration order |
| ContentHash.DigestAt | crates/arc-change/src/content_hash.rs:99-104 | each digest is fed as its length 32 in eight bytes and then its bytes |
| Endian.ToLeAt | crates/arc-change/src/content_hash.rs:63-97 | little-endian: which byte of a number lies where |
| ContentHash.FeedSet | crates/arc-change/src/content_hash.rs:147-156 | the stream of a set is the same for every iteration order |
| ContentHash.FeedFields | crates/arc-content-hash-derive/src/content_hash.rs:24-134 | derived implementations append the fields in declaration order |
| ContentHash.UniquelyDecodable | crates/arc-change/src/content_hash.rs:27-156 | two values of one type with equal streams, whatever follows, are equal, and so is what follows |
| ContentHash.MembersDecodable | crates/arc-change/src/content_hash.rs:147-156 | sets with the same member digests have the same members |
| ContentHash.FieldsDecodable | crates/arc-content-hash-derive/src/content_hash.rs:118-134 | the streams of field lists of one type determine the fields |

## Left out

- Repository.Handle.Snap: `delta` stands for the working-directory comparison, whose own model is in `WorkingDirectory`; the interactive prompt is an arbitrary choice of atoms there.
- Runs.RunsAreSafe: excludes `resolve_conflict`, which joins conflicting changes into one history on purpose; heads merged that are not those of a view must be conflict-free among themselves; recorded changes must apply to the state they were computed from (`WorkingDirectory.RecordedApplies` says when they do).
- WorkingDirectory.DeltaReplays: the old items of a changed file are those of the state, that is, printing and reparsing a file is faithful.
- PatchHistory.Confluence: the state only; when unrelated changes track the same blob, whom blame names depends on the order.
- PatchHistory.MergeLosesNothing: the first-class conflict change that a refused merge records is not modelled.
- PatchAlgebra.CommutePairIff: says how atoms are carried across moves, and nothing about replaying the pair, because `Move` has no replay to compare with.
- Push.PushLocal: only the blobs of inserts and deletes are followed, as in the code; `Blob` atoms are not copied by it. After a broken-off push closure holds only as `Push.RetryIff` says.
- Fetch.FetchLocal: after a broken-off fetch closure holds only as `Fetch.RetryIff` says.
- ContentHash.UniquelyDecodable: digests of set members are assumed not to collide, and a bincode serialisation is taken as an injective byte string.
- `switch_view`, `stash` and `stash_pop` are steps of runs (`Runs.Step`) and not methods of the handle.
- `pull` end to end: fetch adds a change where it stops to the graph without its ancestors, and loading stops at such changes.
- `fetch_http`, `push_http` and the other HTTP, SQLite, Git-import and CLI code: plumbing around the same loops or libraries.
- Signatures and key handling: an id is a hash parameter of the fields and no signature is checked.
- Parsing and printing of source files: the item maps of a file are inputs.
- Heads as an antichain: merge and cherry-pick unite heads without pruning, so ancestor sets are used instead.
- Which characters are white space is a parameter of `SparsePatterns`; replay inside a boundary is proved for every file matcher, those of `SparsePatterns.FromPatterns` among them.
- The library sorts are modelled by `Kahn.SortIds`, `Paths.SortByPath` and `Diff.StableSort`; writing the working directory after a merge or pick is not modelled.
