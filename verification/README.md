# Multi-algorithm Merkle log: a Dafny model

The repository keeps one log under many hash algorithms at once. Each algorithm can be
added late, frozen and reopened; positions where it was inactive hold a null digest. Per
algorithm the log is a k-ary Merkle mountain range (`spine`, `cml`); the per-algorithm
roots and the activity timeline are bound into one combined root (`polydigest`). The same
commitment can be kept over mutable cells with a digest cache (`cmt`), and the log can
live in a git repository with checkpoints and crash recovery (`storage-git`).

The model has four linked parts.

1. **The log over storage.** `Ledger` is the specification: a map of members (hasher, epoch
   timeline, one digest per position), changed by the steps append, add, freeze and reopen.
   `Log.NaryMerkleLog` is the program: stacks, coordinates and a storage object, with every
   method tied to one step of the specification. `Engine` and `Views` hold the algorithms
   in between: carry, reads, proof producers, and `Reopening` the rebuilding of a frozen
   algorithm. `Representation` states what storage and views mean; `LogScenarios` runs the
   log into a reopening that goes wrong.
2. **Proof producers and verifiers.** `Topology` (frontiers in base k), `Shapes` and
   `Mountain` (bagging, skeletons), `Blocks`, `Consistency`, `Subtrees` (completeness),
   `Soundness` (what acceptance implies) and `Binding` (what a combined root determines).
3. **The mutable tree and the timeline algebra.** `Rebalanced`, `MutableTree`, `Epochs`,
   `NullRuns`, `Filling`.
4. **The git backend.** `Storage` is the in-memory map every backend must agree with;
   `GitLayout`, `GitTree` and `GitBuild` refine it to a tree of blobs. `GitCheckpoint` holds
   the disk and its invariant, `GitRuns` the step relation of every write, opening, death
   and power loss with what holds over all its runs, `GitStorage` (module `GitStore`) the
   program, each of whose methods is such a run, and `GitScenarios` runs of it through a
   failed sync and a torn ref.

Hashing: a `Hasher` is a record of arbitrary functions over free-term digests.
Completeness, refinement and permanence hold for every hasher. Soundness assumes
`CollisionFree` (equal node hashes have equal children) and, for tampering, `NoFixpoint`
(no node hash equals one of its children); `FreeHasherIsSound` shows that a hasher with
both exists. What the combined root binds also assumes `HashInjective`: equal hashes have
equal bytes, and no hash of bytes is a node hash.

Loops of the source are loops here, each proved equal to a recursive specification
function; the theorems are about those functions. `dafny verify dfyconfig.toml` checks
the whole project.

## Where the code and its documentation differ

The model follows the code in each case.

- **Uniqueness of inclusion paths** (`spine/src/proof.rs:26-35`): without a subtree prefix
  and without a collapsing step the accepting path is unique. With a prefix it is not, even
  without a collapse; paths then differ exactly when their positions do
  (`Soundness.PrefixNotUnique`, `Soundness.PathsByPosition`).
- **Consistency** (`cml/src/consistency.rs:127-225`): collapse lets a wrong old root be
  accepted (`Soundness.CollapseForgesOldRoot`). An accepted proof is the genuine one exactly
  when both evaluations collapse at the same nodes, and then its old root is genuine
  (`Soundness.ConsistencySound`); so it is when nothing collapses in either
  (`Soundness.PlainConsistencySound`). The old root can also be genuine without that
  agreement (`Soundness.OldRootWithoutAgreement`): all that counts are the old peaks the
  proof implies (`Soundness.OldRootByPeaks`).
- **Corruption check of missing nodes** (`cml/src/engine.rs:326-336`): `carry` does not store
  a parent equal to null, so an active block that folds to null reads as corrupted. Of the
  blocks completed since an algorithm was last opened, reads fail exactly at those
  (`Engine.ReadsExactly`); for one never reopened that is its whole tree, so roots, proofs
  and seals fail exactly there (`Views.InclusionFails` and the log's own methods). While no
  active cell is null and no node hash is, there are none (`Reopening.NothingMasked`). A
  reopening stores nulls too, and of the blocks before it reads then fail only below a stored
  block within one epoch (`Reopening.ReopenedReads`), which no later step changes
  (`Representation.SameReads`, ensured by every one).
- **Reopening on a resumed log** (`cml/src/engine.rs:806-885`): of what was sealed only the
  peaks are stored. Reopening is right exactly if every sealed peak is a single leaf, or lies
  within one epoch, or folds to null all the way down (`Reopening.ReopensExactly`,
  `Log.NaryMerkleLog.ResumeAlgorithm`), which the seal itself shows when no node hash is null
  (`Reopening.RecoverableFromSeal`). Otherwise it reports success and stores nulls over live
  digests; `LogScenarios.SealedPeakLost` goes there through the log's own operations.
- **Live against historical size** (`cml/src/engine.rs:137-142,176-191`): right after an
  algorithm is reopened the two differ; `Ledger.LiveMatchesHistorical` gives the condition.
- **Sealing** (`polydigest/src/seal.rs:72-99`): an algorithm is carried if it is still open at
  the sealed size, where the comment speaks of those active there.
- **Fill kinds** (`polydigest/src/filling.rs:250-300`): the two kinds are said to commit
  different roots; the two bags are one function (`Rebalanced.RebalancedBag`), so a fill of
  either kind is accepted.
- **A returned checkpoint is durable** (`storage-git/src/lib.rs:347-397`): not if the newest
  checkpoint ref already named the tip and was never synced, the early return at
  `storage-git/src/lib.rs:364-366`; that is exactly when it fails
  (`GitStore.GitStorage.Checkpoint`, `GitRuns.DurableIffSynced`). Such a ref is left by a
  checkpoint of the same tip that failed or died after creating it, called by the program
  or by recovery itself (`storage-git/src/lib.rs:247`), and by nothing else.
  `GitScenarios.ReturnedAndLost` is the loss as a program, on either way: two batches
  returned, one found.
- **No power loss leaves a store that fails to open** (`docs/specs/storage-git.md:713-714`):
  whether this holds depends on the ref library. A checkpoint ref torn before its sync is
  not listed (`storage-git/src/lib.rs:480`), so the next checkpoint, recovery's own included,
  takes its generation again with a create-only write (`storage-git/src/lib.rs:377-379`). Whether
  that write goes through over a ref that does not decode, neither the code nor the
  specification says.  The answer is a parameter of the repository, `tornTaken`, and every
  result of the git part holds for both answers unless it names one.
  - If it does go through (`tornTaken` false) the sentence is right of stores with a synced
    checkpoint: with a listed checkpoint and no failing write opening succeeds
    (`GitRuns.ListedOpens`), and a store in use opens after every run exactly if some
    checkpoint of it is synced (`GitRuns.OpensIffKept`).
  - If it fails (`tornTaken` true) the sentence is wrong: with a listed checkpoint and nothing
    failing, opening fails exactly if staging is complete and ahead of the newest checkpoint
    and a torn ref stands at the next generation (`GitRuns.Recovers`); above a synced
    checkpoint the store then never gets another (`GitRuns.StuckForever`).
  - Every checkpoint after the first can be torn so (`GitRuns.TornBlocks`), and
    `GitScenarios.TornRef` goes there from a new repository: under one answer it does not open,
    under the other it opens with both batches.
- **Null runs of very large trees** (`polydigest/src/root.rs:118-131`): an unchecked 64-bit
  sum wraps. The computed height is wrong exactly if some block that fits the gap stands at
  the edge: its next taller candidate is aligned, has a span that is a word, and ends past
  2^64 - 1 (`NullRuns.GrowBlock`). `NullRuns.SumWraps` runs the loop on the stretch from 2^63
  to 2^63 + 2^62: it ends at height 63 instead of 62, and the position wraps to 0. Sizes up to
  2^63 are never affected (`NullRuns.SmallNeverOverruns`), larger ones only if a timeline
  leaves such a block inactive. Built with overflow checks the sum panics instead.
- **A new log over a store in use** (`polydigest/src/tree.rs:84-108`): nothing looks at the
  store but for algorithm 0 (`Log.NaryMerkleLog.New`).

## Model

| member | source | states |
|---|---|---|
| Topology.FrontierForSize | spine/src/topology.rs:74-98 | the nested greedy loops yield the base-k digit expansion of the size: per digit that many aligned subtrees, tallest first |
| Topology.FrontierTiles | spine/src/topology.rs:64-98 | the frontier is aligned and tiles the range from 0 to the size without gap or overlap |
| Topology.MountainUnique | cml/src/mountain.rs:183-200 | exactly one frontier subtree contains an index, and it is the one found from the digits |
| Topology.FrontierFromPath | cml/src/consistency.rs:206-224 | the frontier of an index is the earlier mountains followed by the left siblings on its climb, highest first |
| Topology.ReductionCount | cml/src/schedule.rs:11-21 | the loop counts the trailing top digits: the merges of one append |
| Topology.PartialStep | cml/src/engine.rs:250-286 | before each merge of a carry the stack ends in the k children of one aligned subtree, and the merge puts that subtree in their place |
| Topology.PartialDone | cml/src/engine.rs:250-286 | after its merges the stack is the frontier of the next size |
| Topology.MergesTotal | cml/src/schedule.rs:1-21 | over n appends the merges times k - 1 are n minus the length of the frontier |
| Spine.FoldFrontier | spine/src/topology.rs:46-62 | truncating and pushing the rightmost k groups computes the recursive fold, for any merge |
| Spine.FoldMap | spine/src/topology.rs:24-62 | a map that commutes with the merge commutes with the whole fold |
| Spine.InsertCurrent | spine/src/proof.rs:185-213 | the children of a step are the siblings with the current digest at the position |
| Spine.ReconstructInclusionRoot | spine/src/proof.rs:154-214 | the verifier's loop: nothing for an over-long, misshapen or inadmissible path, else the digest the climb ends in |
| Shapes.PathLeadsToRoot | cml/src/mountain.rs:132-180 | along the siblings of a tip in any shape the climb reaches the shape's digest, and its steps are the skeleton of that tip |
| Shapes.EvalSubst | cmt/src/shape.rs:43-78 | evaluating a shape with shapes in place of its tips is evaluating it over their digests |
| Shapes.SkeletonSubst | cmt/src/shape.rs:115-143 | the skeleton in a substituted shape is the inner skeleton followed by the outer one |
| Mountain.BagIsFold | cml/src/mountain.rs:83-119 | evaluating the bag shape over the peaks is folding the peaks |
| Mountain.SkeletonLength | cml/src/mountain.rs:183-230 | a skeleton has at most one step more than the size has base-k digits, that is floor(log_k n) + 2 |
| Mountain.DigitsOfWord | spine/src/proof.rs:154-170 | a 64-bit size has at most 64 digits, so no skeleton reaches the cap of 256 steps |
| Mountain.MountainSkeleton | cml/src/mountain.rs:183-223 | the offset loop and the descent yield the skeleton, and nothing for a bad arity or index |
| Mountain.DescendBag | cml/src/mountain.rs:232-268 | the descent finds a peak exactly if the shape holds it and pushes its skeleton from the top |
| Mountain.FindMountain | cml/src/mountain.rs:183-200 | the search finds the mountain of an index, and none exactly if the index is out of range |
| Blocks.PeaksPermanent | cml/src/engine.rs:609-631 | later cells change neither peaks nor root of an earlier size |
| Blocks.PeakPathClimbs | cml/src/engine.rs:545-584 | the bisection steps between two heights climb from one block on the way up to the other, with the digits as positions |
| Blocks.InclusionVerifies | cml/src/engine.rs:347-411 | for every size and index the genuine path matches the skeleton and verifies |
| Blocks.WitnessSurvives | cml/src/engine.rs:347-411 | the within-mountain part of an old proof, stitched to the rest of a newer proof, verifies at the newer size |
| Consistency.ReconstructConsistencyRoots | cml/src/consistency.rs:127-225 | the loop form, with every early return, equals the recursive definition; it gives nothing unless the old size is positive and below the new one and the arity is in range |
| Consistency.ConsistencyComplete | cml/src/engine.rs:447-542 | for all 0 < m < n the genuine proof yields the two genuine roots, and the derived old peaks are exactly the peaks of size m |
| Soundness.FreeHasherIsSound | spine/src/mr.rs:36-71 | free terms satisfy both hasher assumptions |
| Soundness.ConsistencySound | cml/src/consistency.rs:75-225 | a proof accepted against the genuine new root is the genuine proof if and only if both evaluations collapse alike; if they do, its old root is genuine |
| Soundness.PlainConsistencySound | cml/src/consistency.rs:75-225 | so it is if no node collapses in either evaluation |
| Soundness.OldRootByPeaks | cml/src/consistency.rs:204-224 | an accepted proof implies as many old peaks as there are; where their bag collapses as the genuine one does, the old root claimed is genuine exactly if they are the genuine peaks |
| Soundness.OldRootWithoutAgreement | cml/src/consistency.rs:127-225 | a proof accepted with the genuine old root that does not collapse alike, over any cells whose first k are equal |
| Soundness.CollapseForgesOldRoot | spine/src/mr.rs:61-65 | for every arity and cells, a collapsing climb gets the new root accepted as the old one |
| Soundness.InclusionSound | spine/src/proof.rs:109-214 | a skeleton-long accepted path is the genuine path for the genuine cell if and only if its climb collapses where the genuine one does |
| Soundness.PositionsDeterminePath | spine/src/proof.rs:26-35 | without collapse, position list and root determine leaf and path |
| Soundness.InclusionUnique | spine/src/proof.rs:26-35 | with no subtree prefix there is at most one accepting path without collapse |
| Soundness.PathsByPosition | spine/src/proof.rs:26-35 | with any prefix, accepting paths without collapse are equal if and only if their positions are |
| Soundness.PrefixNotUnique | spine/src/proof.rs:26-35 | a root under which two accepting, non-collapsing paths lead from one leaf |
| Soundness.NaryMrOneChild | spine/src/mr.rs:36-71 | the merge is injective in each single child, even where it collapses |
| Soundness.LeafTamper | spine/src/proof.rs:175-213 | another leaf under the same path gives another root |
| Soundness.SiblingTamper | spine/src/proof.rs:175-213 | one changed sibling gives another root with the same steps |
| Soundness.PeakTamper | cml/src/mountain.rs:99-119 | one changed peak gives another bag |
| Soundness.ConsistencyTamper | cml/src/consistency.rs:157-224 | changing one digest or the split index of an accepted proof makes it rejected, for every claimed old root |
| Soundness.InclusionTamper | spine/src/proof.rs:109-214 | changing the leaf or one sibling of an accepted proof makes it rejected |
| Subtrees.WithinSubtreePath | spine/src/mr.rs:100-140 | the path inside an appended tree, and none exactly if the index is past its leaves |
| Subtrees.WithinNode | spine/src/mr.rs:110-140 | the loop over children with its running leaf count finds the child and offset of the index |
| Subtrees.WithinClimbs | spine/src/mr.rs:75-140 | the path climbs from the leaf's hash to the tree's digest |
| Subtrees.SubtreeProofVerifies | spine/src/proof.rs:26-35 | a path through the appended tree followed by the log path verifies if and only if it has at most 256 admissible steps |
| Epochs.ValidateEpochs | cml/src/engine.rs:662-703 | the validating loop accepts exactly the well-formed timelines |
| Epochs.CommittedEpochs | cml/src/engine.rs:203-216 | the loop yields the timeline as it stood at a size |
| Epochs.SnapshotActivity | cml/src/engine.rs:203-216 | a snapshot is well-formed at its size and has the same activity below it |
| Epochs.SnapshotNow | cml/src/engine.rs:203-216 | the snapshot at the present size is the timeline itself |
| Epochs.ValidateCommittedEpochs | polydigest/src/root.rs:260-283 | the loops accept exactly the valid committed timelines |
| Epochs.VerifyEpochEvolution | polydigest/src/evolution.rs:26-82 | the loops with early returns decide the evolution relation |
| Epochs.EvolutionReflexive | polydigest/src/evolution.rs:26-82 | every valid timeline evolves to itself |
| Epochs.EvolutionTransitive | polydigest/src/evolution.rs:26-82 | accepted evolutions compose |
| Epochs.EvolutionActivity | polydigest/src/evolution.rs:8-82 | acceptance implies the same activity at every position below the old size, and none there for new algorithms |
| Epochs.SnapshotsEvolve | cml/src/engine.rs:203-216 | snapshots of an evolved timeline at growing sizes evolve |
| Epochs.SameBelow | polydigest/src/tree.rs:565-596 | closing an open timeline changes no activity below its size |
| Epochs.ReopenBelow | polydigest/src/tree.rs:604-625 | reopening a closed timeline changes no activity below its size |
| Epochs.EffectiveInTree | cml/src/engine.rs:137-191 | the historical size of an algorithm never exceeds its live tree size |
| Epochs.EffectiveIs | cml/src/engine.rs:176-191 | the historical size is the size asked for while the algorithm is active at its last position or has not begun, else where its latest epoch before it ended |
| Epochs.LastEndIs | cml/src/engine.rs:183-190 | the greatest epoch end below a size, which is unique |
| Epochs.RangeIs | cml/src/engine.rs:154-159 | a range is met exactly if it holds an active position or an epoch opened and closed at one size strictly inside it |
| NullRuns.ClipAndSort | polydigest/src/root.rs:79-87 | clipping and sorting keep the activity of arbitrary intervals below the size |
| NullRuns.Merge | polydigest/src/root.rs:88-94 | merging gives disjoint, separated intervals with the same activity |
| NullRuns.GrowBlock | polydigest/src/root.rs:118-131 | the loop in 64-bit sums ends at the tallest aligned block that fits, exactly unless some block that fits stands at the edge of the words; there it ends too tall |
| NullRuns.WordExact | polydigest/src/root.rs:118-131 | the same of the loop from any height that fits |
| NullRuns.DecomposeInactiveGap | polydigest/src/root.rs:114-135 | over any 64-bit gap the loops append its greedy decomposition, exactly unless an edge block lies in the gap; then what they have is not it |
| NullRuns.NullRunsForAlg | polydigest/src/root.rs:72-106 | for arbitrary intervals and every 64-bit size the interval-wise loops equal the position-by-position scan, exactly unless the timeline leaves an edge block inactive |
| NullRuns.SmallNeverOverruns | polydigest/src/root.rs:118-131 | which no size up to 2^63 allows |
| NullRuns.SumWraps | polydigest/src/root.rs:118-131 | on the stretch from 2^63 to 2^63 + 2^62 in base 2 the loop, run from height 0, ends at height 63 where 62 is right, and the next position wraps to 0 |
| NullRuns.NullRunsExact | polydigest/src/root.rs:50-106 | the runs are, in order, exactly the maximal aligned inactive blocks |
| NullRuns.ExactUnique | polydigest/src/root.rs:50-106 | no other list has that property |
| NullRuns.RunsAreActivity | polydigest/src/root.rs:60-72 | two timelines have the same runs if and only if they have the same activity |
| NullRuns.CollectNullRuns | polydigest/src/root.rs:143-162 | every algorithm's non-empty runs, by id, or nothing exactly if some timeline leaves an edge block inactive |
| NullRuns.AlreadySorted | polydigest/src/root.rs:143-162 | on a timeline in id order the sort changes nothing |
| NullRuns.SortedById | polydigest/src/root.rs:159 | the sort puts the same entries in id order |
| NullRuns.WriteNullRuns | polydigest/src/root.rs:190-209 | the writing loops produce the specified bytes, under the same condition |
| NullRuns.SerializeInjective | polydigest/src/root.rs:177-209 | the bytes determine arity, size and every run |
| NullRuns.SerializedLayout | polydigest/src/root.rs:164-209 | which field lies at which offset: arity, size and number of entries, then per entry its id, its number of runs and each run's left edge and height, big-endian, and nothing more |
| NullRuns.BytesBindActivity | polydigest/src/root.rs:177-209 | equal bytes of two valid timelines imply equal activity of every algorithm in both |
| NullRuns.FoldCombinedRoot | polydigest/src/root.rs:239-253 | the children folded: where some algorithm was inactive, the member roots and the hash of the bytes of the null runs, else the member roots alone; their node hash, or the one digest if they are all the same or only one; always for sizes up to 2^63, above them under the same condition |
| NullRuns.AnyRuns | polydigest/src/root.rs:143-162 | there are no runs exactly if no algorithm was inactive anywhere below the size |
| NullRuns.CombinedIs | polydigest/src/root.rs:239-253 | the combined root in both cases |
| Binding.CombinedRootBinds | polydigest/src/root.rs:211-253 | without collisions, equal combined roots over equally many member roots, neither fold collapsing nor promoting, have equal member roots, arity and size, and equal activity of every algorithm in both timelines |
| Binding.LogBinds | polydigest/src/tree.rs:1349-1390 | so two logs with the same combined root of a size have the same member roots there and the same activity below it |
| Ledger.StepOk | polydigest/src/tree.rs:520-813 | every step keeps timelines well-formed and cells null exactly where it should, and only extends what was there |
| Ledger.PastRootsPermanent | polydigest/src/tree.rs:1349-1390 | along any run, member and combined roots of past sizes never change; of the present size not until an algorithm is added |
| Ledger.LiveMatchesHistorical | cml/src/engine.rs:137-191 | when the historical size of an algorithm at the present size is its live tree size |
| Ledger.CommittedEvolves | polydigest/src/evolution.rs:26-82 | any two committed timelines along one run are accepted as an evolution |
| Ledger.RunEvolves | polydigest/src/evolution.rs:26-82 | each algorithm's own timeline evolves along any run, and later ones start later |
| Ledger.TimelineEntries | polydigest/src/tree.rs:997-1005 | a committed timeline holds exactly the algorithms registered by that size, in id order |
| Ledger.RootsAreActive | polydigest/src/tree.rs:1323-1390 | the folded roots are those of the algorithms active at the last position |
| Ledger.ResumeSimulates | polydigest/src/tree.rs:159-276 | after a seal, appending single-leaf trees gives every carried algorithm the same root at every size as never sealing |
| Ledger.SealedEntries | polydigest/src/seal.rs:72-99 | a seal holds exactly the open algorithms, in id order, each with its peaks |
| Storage.InsertAllGet | polydigest/src/storage.rs:330-452 | after a batch of node writes a key reads as its last write, or as before |
| Storage.AcceptedExactly | polydigest/src/storage.rs:330-400 | a batch is accepted exactly if every append names the position the log has reached, every algorithm added is new, every one removed or resumed is known, and a seed comes to a store without history; then the payloads follow in order and the count and algorithms are those |
| Storage.MemoryStorage.Validate | polydigest/src/storage.rs:330-400 | the validating projections accept a batch exactly if its ops apply one by one |
| Storage.MemoryStorage.Apply | polydigest/src/storage.rs:330-452 | a batch succeeds exactly if one-by-one application does, with that result, and otherwise changes nothing |
| Engine.ReadsAreTruthful | cml/src/engine.rs:289-340 | whatever a read inside the tree returns is the block's value |
| Engine.ReadsSucceed | cml/src/engine.rs:289-340 | a read of a known subtree never fails for a block that does not fold to null |
| Engine.ReadsExactly | cml/src/engine.rs:289-340 | a read of a subtree completed since the algorithm was last opened or sealed fails exactly if it holds an active cell and folds to null |
| Engine.OneEpochReads | cml/src/engine.rs:289-340 | for an algorithm never reopened and not sealed away that is every read inside its tree |
| Engine.BisectionPath | cml/src/engine.rs:545-584 | the descent reads siblings into the genuine path, and fails exactly if one of them cannot be read |
| Engine.InclusionProof | cml/src/engine.rs:347-411 | nothing outside the tree; else the genuine inclusion path, failing exactly if a node it reads cannot be read |
| Engine.ConsistencyProofFor | cml/src/engine.rs:447-542 | nothing outside the tree; else the genuine consistency proof, failing exactly if a node it reads cannot be read |
| Engine.RootForAt | cml/src/engine.rs:609-631 | the member root at the historical size, failing exactly if a peak cannot be read |
| Engine.DescendBagPath | cml/src/mountain.rs:145-180 | the descent pushes the siblings on the way to a peak |
| Engine.Carry | cml/src/engine.rs:238-286 | one append turns the stacks of n cells into those of n + 1 and emits the merged nodes |
| Engine.CarryWritesAre | cml/src/engine.rs:250-286 | every emitted node is a completed block with its value, not null, and every completed block that is not null is emitted |
| Views.AppendActive | polydigest/src/tree.rs:691-752 | an append keeps an open algorithm's view and stored nodes right |
| Views.AppendFrozen | polydigest/src/tree.rs:691-752 | an append keeps a frozen algorithm's view and stored nodes right, its new cell being null |
| Views.Remove | polydigest/src/tree.rs:565-596 | closing the timeline keeps view and nodes right |
| Views.Register | polydigest/src/tree.rs:520-557 | the null stacks of a late algorithm are right for its null cells |
| Views.ReconstructView | cml/src/engine.rs:716-770 | over any store a view is rebuilt exactly if its timeline is well-formed and its frontier reads, with the digests as stored |
| Views.ReadBackIsLive | cml/src/engine.rs:716-770 | from what a log in order stored it is the live view, and it is rebuilt exactly if its peaks read |
| Views.FrontierIncomplete | cml/src/engine.rs:447-542 | a frontier subtree is inside the size and its parent is not |
| Views.ReadAt | cml/src/engine.rs:289-340 | every aligned block inside the tree reads as its value, if no active block folds to null |
| Views.InclusionReadsOk | cml/src/engine.rs:347-411 | from the seeded peaks and later nodes alone every read of an inclusion proof for an index not sealed away succeeds |
| Views.ConsistencyReadsOk | cml/src/engine.rs:447-542 | likewise for every consistency proof from a size not below the seal's |
| Views.MaskedNeverWritten | cml/src/engine.rs:262-286 | carry never writes a block that folds to null |
| Views.RootFails | cml/src/engine.rs:609-631 | for an algorithm never reopened the root of a size fails exactly if one of its peaks is masked |
| Views.InclusionFails | cml/src/engine.rs:347-411 | and an inclusion proof exactly if one of the blocks it reads is |
| Views.ConsistencyFails | cml/src/engine.rs:447-542 | and a consistency proof likewise |
| Views.NullPayloadMasks | cml/src/engine.rs:262-336 | on every such log begun with k payloads whose hash is the null digest, their block reads as corrupted |
| Reopening.ReconstructSubtreeRoot | cml/src/engine.rs:782-896 | the recursion computes the specified digest and writes of an aligned subtree |
| Reopening.HeightOfPower | cml/src/engine.rs:837-854 | the loops find the exponent of a power of k, and that any other size is none |
| Reopening.PowerFound | cml/src/engine.rs:837-854 | every power has its exponent |
| Reopening.ReconstructRange | cml/src/engine.rs:782-933 | any range of positions: nothing, one subtree, null, or the bag of the subtrees it falls into |
| Reopening.RangeRight | cml/src/engine.rs:897-933 | on a recoverable log the range from the start to any size not below the seal's resolves to the member root of that size |
| Reopening.WritesAre | cml/src/engine.rs:855-896 | every node written is a touched aligned subtree of more than one leaf, with what it itself resolves to |
| Reopening.Rewritten | cml/src/engine.rs:855-896 | a touched subtree is written exactly if no subtree over it lies within one epoch and is stored |
| Reopening.ResolveRight | cml/src/engine.rs:782-896 | on a recoverable log every subtree the log can know resolves to its value, and the writes are right and complete |
| Reopening.PeakRight | cml/src/engine.rs:806-885 | a sealed peak that has to be rebuilt is right if it folds to null all the way down |
| Reopening.LostIsWritten | cml/src/engine.rs:806-896 | below a sealed peak that is none of these every touched subtree is stored as null |
| Reopening.ReopensRight | polydigest/src/tree.rs:604-683 | on a recoverable log the rebuilt frontier is the genuine one and the stored nodes are in order |
| Reopening.ReopensExactly | polydigest/src/tree.rs:604-683 | the stored nodes are in order afterwards exactly if the log is recoverable |
| Reopening.ReopensPeaks | polydigest/src/tree.rs:604-683 | and then stay such that the condition decides every later reopening |
| Reopening.RecoverableFromSeal | polydigest/src/tree.rs:604-683 | if no node hash is null, the sealed peaks and the timeline alone decide it |
| Reopening.ReopenedReads | cml/src/engine.rs:289-340 | after a reopening a read succeeds exactly for a stored block and for one with no stored block within one epoch over it |
| Reopening.NothingMasked | cml/src/engine.rs:262-336 | if no node hash and no active cell is null, no active block folds to null |
| Reopening.KnownIsFrontier | cml/src/engine.rs:447-542 | a subtree inside the sealed size with its parent outside is a sealed peak |
| Representation.AppendRepresents | polydigest/src/tree.rs:691-813 | storing an append's batch represents the next specification state |
| Representation.AddRepresents | polydigest/src/tree.rs:520-557 | so does registering |
| Representation.FreezeRepresents | polydigest/src/tree.rs:565-596 | so does freezing |
| Representation.ReopenRepresents | polydigest/src/tree.rs:604-683 | storing a reopening represents the next specification state exactly if the algorithm is recoverable, as it always is on a log begun empty |
| Representation.AppendReads | polydigest/src/tree.rs:691-813 | an append changes no read of what was complete before |
| Representation.FreezeReads | polydigest/src/tree.rs:565-596 | nor does a freeze |
| Representation.ReopenReads | polydigest/src/tree.rs:604-683 | nor a reopening, of the other algorithms; of its own a block reads exactly if it was stored or no stored block within one epoch is over it |
| Representation.SeedsRepresent | polydigest/src/tree.rs:159-276 | the seeds of a seal represent the carried algorithms |
| Representation.LiveRoot | cml/src/engine.rs:222-230 | the live bag of an algorithm active at the last position is its member root |
| Log.NaryMerkleLog.New | polydigest/src/tree.rs:84-108 | over any store it is refused exactly for a bad arity, an algorithm 0 already there or a failing write; the log is in order exactly if the store was empty |
| Log.NaryMerkleLog.AddAlgorithm | polydigest/src/tree.rs:520-557 | succeeds exactly if the step is enabled and storage accepts; then exactly that step, else no change, and which error |
| Log.NaryMerkleLog.RemoveAlgorithm | polydigest/src/tree.rs:565-596 | likewise for freezing |
| Log.NaryMerkleLog.ResumeAlgorithm | polydigest/src/tree.rs:604-683 | succeeds exactly if the step is enabled and storage accepts, with the rebuilt view; then exactly that step; the log is in order exactly if the algorithm was recoverable; which reads succeed from then on, exactly |
| Log.NaryMerkleLog.BuildAppendState | polydigest/src/tree.rs:385-421 | one carry per open algorithm gives the next views and the batch |
| Log.NaryMerkleLog.AppendLeaf | polydigest/src/tree.rs:691-752 | succeeds exactly if some algorithm is open, capacity remains, the kind fits and storage accepts, else which error; then exactly that step: every old cell stays, the new one is the payload's hash for every open algorithm and null for every other, and the log's own proof of it verifies; else no change |
| Log.NaryMerkleLog.AppendSubtree | polydigest/src/tree.rs:759-813 | likewise for a tree: the new cell is the digest of the whole tree, and every leaf of it whose path is admissible and short enough verifies by that path and the log's own proof |
| Log.NaryMerkleLog.CommittedEpochsAt | polydigest/src/tree.rs:997-1005 | the committed timeline of the specification |
| Log.NaryMerkleLog.LiveCombinedRoot | polydigest/src/tree.rs:832-854 | the live combined root is the historical one of the present size |
| Log.NaryMerkleLog.RootForAt | polydigest/src/tree.rs:1422-1443 | the empty digest at size 0 and the hash of the null payload for every later size up to the algorithm's first activation; the member root of the size asked for if the algorithm is active at its last position or had not begun, else of where it was last frozen; with its error cases, failing exactly if a peak cannot be read; for an algorithm never reopened, if it is masked |
| Log.NaryMerkleLog.CombinedRootAt | polydigest/src/tree.rs:1349-1390 | the combined root of a past size, with its error cases; within the log it fails exactly if a peak of an algorithm active there cannot be read |
| Log.NaryMerkleLog.InclusionProofFor | polydigest/src/tree.rs:889-910 | a produced proof verifies, one is produced for every index that is known, none outside the tree; it fails exactly if a block cannot be read; for an algorithm never reopened, if one is masked |
| Log.NaryMerkleLog.ConsistencyProofFor | polydigest/src/tree.rs:971-990 | a produced proof verifies between the two genuine roots; it fails exactly if a block cannot be read; for an algorithm never reopened, if one is masked |
| Log.NaryMerkleLog.Seal | polydigest/src/seal.rs:72-99 | the seal of the specification, failing exactly if a peak of an open algorithm cannot be read |
| Log.NaryMerkleLog.FoundIs | cml/src/engine.rs:289-340 | of a subtree completed in the present stretch of any algorithm it can exactly if it does not fold to null over an active cell |
| Log.NaryMerkleLog.Resume | polydigest/src/tree.rs:159-276 | any seal is taken exactly if the store has no history, the arity is in range, its algorithms are distinct and all have hashers, else which error; every carried algorithm then has its sealed peaks and timeline, from genesis if the seal gives none; from the seal of a log, into an empty store, the new log is the carried state |
| Log.NaryMerkleLog.FromStorage | polydigest/src/tree.rs:295-374 | over any store of words it succeeds exactly if arity and hashers match, every timeline is well-formed and every frontier reads; from what a log in order left, the same views are rebuilt |
| LogScenarios.SealedPeakLost | polydigest/src/tree.rs:604-683 | an algorithm frozen for part of a sealed peak, frozen and reopened on the resumed log, has the null constant as its live root |
| Rebalanced.BuildShape | cmt/src/shape.rs:43-78 | the shape of a size, none for an empty tree or a bad arity |
| Rebalanced.ShapeSpans | cmt/src/shape.rs:43-97 | every shape is contiguous and covers exactly its size |
| Rebalanced.CoversIsHolds | cmt/src/shape.rs:97-105 | the interval test is membership |
| Rebalanced.SameCommitment | cmt/src/shape.rs:43-78 | evaluating the shape over the cells gives the log's root |
| Rebalanced.RebalancedBag | cmt/src/shape.rs:150-158 | the rebalanced bag of peaks is the log's bag |
| Rebalanced.SameSkeleton | cmt/src/shape.rs:115-143 | the shape's skeleton is the mountain skeleton |
| Rebalanced.RebalancedSkeleton | cmt/src/shape.rs:115-143 | the descent yields that skeleton, none for an empty tree, a bad arity or index |
| MutableTree.KeyNamesNode | cmt/src/tree.rs:640-649 | the interval key names one node of a shape |
| MutableTree.AlgState.EvalSubtree | cmt/src/tree.rs:607-633 | the recursion returns the digest, caches every node below and touches nothing else |
| MutableTree.AlgState.EvalOnPath | cmt/src/tree.rs:500-547 | path recomputation gives the cache of a full rebuild over the changed cell, in as many steps as the skeleton has |
| MutableTree.AlgState.RecomputeFull | cmt/src/tree.rs:455-471 | the full rebuild caches every node over all cells |
| MutableTree.AlgState.RecomputePath | cmt/src/tree.rs:473-498 | one changed cell, with the count of recomputed nodes |
| MutableTree.AlgState.SeedNull | cmt/src/tree.rs:549-562 | a tree of null digests |
| MutableTree.AlgState.AddSeeded | cmt/src/tree.rs:564-579 | a tree with only one cell hashed |
| MutableTree.Cmt.New | cmt/src/tree.rs:93-108 | an empty tree exactly for an arity in range |
| MutableTree.Cmt.RegisterAlgorithm | cmt/src/tree.rs:115-137 | a new algorithm with every cell hashed, a duplicate refused |
| MutableTree.Cmt.AddAlgorithmAt | cmt/src/tree.rs:330-391 | a new algorithm with one cell hashed, its cost the skeleton's length |
| MutableTree.Cmt.Set | cmt/src/tree.rs:139-168 | overwrites the cell at the index or appends one, every other cell as it was, refuses a gap, and keeps every cache the evaluation over the hashed cells |
| MutableTree.SetThenProve | cmt/src/tree.rs:139-276 | the proof asked for right after a write carries the hash of the payload written and verifies against the root, which is over the old digests with that one in place, or after an append over every cell's own |
| MutableTree.Cmt.Root | cmt/src/tree.rs:214-222 | the log's root over the hashed cells |
| MutableTree.Cmt.InclusionProof | cmt/src/tree.rs:252-276 | the proof verifies if the cell's raw hash is the digest committed, and without collisions only then |
| MutableTree.Cmt.NonMembershipProof | cmt/src/tree.rs:299-320 | given exactly for cells that hash to null; it verifies |
| MutableTree.Cmt.Seal | cmt/src/tree.rs:396-422 | the sealed peaks of each algorithm bag to its live root |
| MutableTree.Descend | cmt/src/proof.rs:32-118 | the path and root digest read from the cache are the genuine ones |
| MutableTree.CellProof | cmt/src/proof.rs:32-118 | a path with a given leaf verifies if the leaf is the committed digest, and without collisions only then |
| Filling.SubtreeRoot | polydigest/src/filling.rs:399-411 | the level-by-level merge of a block of leaves is its block value |
| Filling.RunsThenSingles | spine/src/seal.rs:300-306 | run extents followed by the height-0 nodes are the whole frontier |
| Filling.SortedByLeft | polydigest/src/filling.rs:373-394 | the sort puts the same subtrees in order of their left edges |
| Filling.CommittedPartition | polydigest/src/filling.rs:373-394 | the partition is the frontier and its coverage check never fails |
| Filling.SealIsWellSealed | polydigest/src/seal.rs:72-99 | the seal of a log has the shape the fill requires of seals |
| Filling.OneMember | polydigest/src/filling.rs:319-348 | without collisions, replacing one member root keeps the combined root exactly if it is the same root |
| Filling.Fill | polydigest/src/filling.rs:237-311 | without collisions accepted data rebuilds the sealed member root; data that rebuilds it is always accepted; every other error has its exact condition |
| Filling.TrueDataReproduces | polydigest/src/filling.rs:237-311 | against the log's own seal the true data of an algorithm active everywhere satisfies that condition |
| GitLayout.TrimmedKeySegments | storage-git/src/layout.rs:69-77 | stripping leading zero bytes yields the length segment and each significant byte |
| GitLayout.TrimmedPrefixFree | storage-git/src/layout.rs:52-77 | no key's segments are a prefix of another's |
| GitLayout.HexInjective | storage-git/src/layout.rs:29-44 | fixed-width hex names are distinct |
| GitLayout.PathsApart | storage-git/src/build.rs:94-112 | no path of any node, leaf, timeline or metadata key is a prefix of another key's path |
| GitLayout.MetaRoundTrip | storage-git/src/layout.rs:87-104 | decoding inverts encoding |
| GitLayout.MetaDecoded | storage-git/src/layout.rs:95-104 | ten bytes decode, no others, and only to what they encode |
| GitLayout.WriteEpochs | storage-git/src/layout.rs:110-117 | the loop writes the timeline's words |
| GitLayout.EpochsRoundTrip | storage-git/src/layout.rs:110-137 | decoding inverts encoding for every non-empty timeline |
| GitLayout.EpochsDecoded | storage-git/src/layout.rs:119-137 | what decodes is exactly a positive number of word pairs, and it decodes to the timeline they encode |
| GitTree.ResolveAtPath | storage-git/src/gitutil.rs:225-240 | the loop resolves a path in a tree of objects |
| GitTree.UpsertSame | storage-git/src/build.rs:180-373 | a path reads as what was last put there |
| GitTree.UpsertOther | storage-git/src/build.rs:180-373 | a put disturbs no path that is neither prefix nor extension of its own |
| GitTree.PutReads | storage-git/src/build.rs:94-112 | so puts by key behave as a map |
| GitTree.HexParses | storage-git/src/layout.rs:46-58 | a name of hex digits of either case parses, any other does not, and the value fits the width |
| GitTree.GetLeaf | storage-git/src/read.rs:20-40 | a leaf below the size, else nothing |
| GitTree.GetNode | storage-git/src/read.rs:42-58 | the node blob at the key, if any |
| GitTree.LoadAlgorithmMetas | storage-git/src/read.rs:61-80 | the loop over names reads back every timeline |
| GitBuild.StageOp | storage-git/src/build.rs:200-340 | one op is refused exactly if the in-memory backend refuses it, else staged with its effect |
| GitBuild.Apply | storage-git/src/build.rs:180-373 | over single-kind histories a batch succeeds exactly if it does in memory, and the new tree answers every read as the in-memory state; the legacy entry is dropped |
| GitCheckpoint.ChangedCovers | storage-git/src/gitutil.rs:164-201 | the changed objects and what the old tree reaches together are everything the new tree reaches |
| GitCheckpoint.ChangedObjects | storage-git/src/gitutil.rs:169-201 | the recursion collects the changed objects; over a complete old tree it fails exactly if something is missing |
| GitCheckpoint.CrashKeeps | storage-git/src/lib.rs:320-397 | power loss, dropping unsynced objects and dropping, keeping or tearing unsynced refs, keeps the safety invariant |
| GitCheckpoint.UnsyncedMayRevert | storage-git/src/lib.rs:320-397 | what a power loss may make of an unsynced ref write: staging moved, torn or as it was; a new checkpoint ref there, torn or gone; a dropped one gone or as it was |
| GitCheckpoint.SafeCreate | storage-git/src/lib.rs:370-380 | creating a checkpoint ref, over none or a torn one, is safe once its objects and staging are synced |
| GitCheckpoint.SafeDelete | storage-git/src/lib.rs:385-397 | dropping an older checkpoint is safe once a newer one is kept |
| GitCheckpoint.NewestIsLast | storage-git/src/lib.rs:160-250 | the newest listed checkpoint is the latest that can survive, and no older than the promise |
| GitCheckpoint.SnapIs | storage-git/src/lib.rs:512-542 | a ref reads as a snapshot exactly if its tree and the metadata entry are there and the entry encodes this arity and the count; one of another arity is told apart |
| GitRuns.StepGood | storage-git/src/lib.rs:143-397 | every write, sync, creation over a torn ref, opening, death and power loss keeps the disk safe, for every place that has to stay recoverable |
| GitRuns.RunGood | storage-git/src/lib.rs:143-397 | so does every run of them |
| GitRuns.SyncedIsDurable | storage-git/src/lib.rs:347-397 | once the newest checkpoint is synced, its state or a later one, complete, is found at the end of every run |
| GitRuns.UnsyncedIsLost | storage-git/src/lib.rs:364-366 | while it is not, one batch and a power loss leave no checkpoint at its state or later, and staging torn |
| GitRuns.DurableIffSynced | storage-git/src/lib.rs:364-366 | so where the newest checkpoint names the tip, that state is durable over all runs if and only if the ref is synced |
| GitRuns.UnsyncedOrLost | storage-git/src/lib.rs:375-397 | a ref created and not synced is such a one; after a power loss there is none |
| GitRuns.ListedOpens | storage-git/src/lib.rs:143-250 | if a create-only write goes through over a torn ref, a store with a listed checkpoint opens unless a write fails |
| GitRuns.KeptOpens | storage-git/src/lib.rs:143-397 | and with a synced one it does after every run |
| GitRuns.OpensIffKept | storage-git/src/lib.rs:143-397 | a store in use opens after every run if and only if some checkpoint is synced |
| GitRuns.NeverBlocked | storage-git/src/lib.rs:377-379 | then the next generation is always free |
| GitRuns.TornBlocks | storage-git/src/lib.rs:377-381 | whenever a checkpoint after the first creates its ref, a power loss before the sync can leave it torn, with staging complete and ahead; the store is then blocked exactly if a torn ref counts as taken |
| GitRuns.StuckForever | storage-git/src/lib.rs:377-381 | if it does, above a synced checkpoint a torn ref stays in every run, and no checkpoint is created again |
| GitRuns.TornNeverOpens | storage-git/src/lib.rs:170-250 | if it does, such a store does not open |
| GitStore.ListCkpts | storage-git/src/lib.rs:470-510 | the scan finds the newest valid checkpoint |
| GitStore.GitStorage.Apply | storage-git/src/lib.rs:710-731 | succeeds exactly if the batch is legal and the ref update goes through, then holds the new state; its writes are a run, and the checkpoint refs stay as they were |
| GitStore.GitStorage.Checkpoint | storage-git/src/lib.rs:347-397 | returns exactly if there is nothing to do, or nothing fails and the next generation is free, as the ref library takes a torn ref, else which error; the state it returns for is durable over all runs exactly unless the newest ref already named the tip and was never synced; where it makes a checkpoint, listed afterwards are that one, the newest before it and the older ones whose deletion failed, all but the new one as they were, and no other |
| GitStore.GitStorage.Advance | storage-git/src/lib.rs:366-397 | the durable part: after it the newest checkpoint is synced and stands for the tip and all but the newest earlier one are gone, save those whose deletion failed, or what failed is told |
| GitStore.GitStorage.Prune | storage-git/src/lib.rs:382-396 | once the new ref is synced, what stays listed is that ref, the newest valid one found before and those whose deletion failed, unchanged |
| GitStore.GitStorage.New | storage-git/src/lib.rs:143-250 | recovery succeeds exactly as `Recovers` says, for every failing write or sync, else which error, and is at staging if that is complete, else at the newest checkpoint; its own checkpoint failing on the last sync leaves a newest ref not synced, at which the next opening stops |
| GitStore.GitStorage.Keep | storage-git/src/lib.rs:190-250 | complete staging is kept, and checkpointed if ahead, exactly unless a write fails or the next generation is taken; what a failed last sync leaves |
| GitStore.GitStorage.PutBack | storage-git/src/lib.rs:218-245 | torn or incomplete staging goes back to the newest checkpoint, exactly unless the update or its sync fails; after a failed sync it has moved and is not synced |
| GitStore.GitStorage.OpenUnlisted | storage-git/src/lib.rs:166-174 | without a checkpoint staging is taken as it is, absent or good |
| GitStore.GitStorage.ReadLeaf | storage-git/src/lib.rs:671-680 | reads what the in-memory state holds |
| GitStore.GitStorage.ReadNode | storage-git/src/lib.rs:685-697 | reads what the in-memory state holds |
| GitStore.GitStorage.ReadMetas | storage-git/src/lib.rs:698-705 | reads what the in-memory state holds |
| GitStore.GitStorage.LeafLenIs | storage-git/src/lib.rs:402-410 | the leaf count is that of the in-memory state's leaves |
| GitScenarios.ReturnedAndLost | storage-git/src/lib.rs:347-397 | from a new repository, through apply, checkpoint, power loss and reopening: a checkpoint of two batches returns and one batch is found, after a failed checkpoint of the program or of recovery |
| GitScenarios.TornRef | storage-git/src/lib.rs:143-250 | from a new repository, a power loss inside the second checkpoint after which the store does not open, if a torn ref counts as taken, and opens with both batches, if not |

## Left out

- Reopening.ReconstructSubtreeRoot: the digest-length check is not modelled; ranges that are no power of k positions are the part of Reopening.ReconstructRange.
- Soundness.ConsistencySound: for the old root one direction; OldRootWithoutAgreement shows that the other fails, and OldRootByPeaks gives an equivalence where the bag of the implied peaks collapses as the genuine one does, not where it collapses otherwise.
- Log.NaryMerkleLog.Resume: into a store with no history but stray nodes the outcome is given, not what the log then means.
- NullRuns.DecomposeInactiveGap: once the sum has wrapped the model stops and says so; what the wrapped loop goes on to emit, or whether it ends, is not described.
- NullRuns.CollectNullRuns: with one id twice the source's unstable sort leaves their order open; the model fixes one.
- Filling.Fill: at most 2^63 items, which no slice exceeds; one hasher per algorithm.
- GitBuild.Apply: histories of one kind and well-formed timelines; a tree that mixes leaves and subtrees answers length queries differently.
- GitStore.GitStorage.New: the arity is the one the repository was written with; for arities out of range the refusal is modelled, and that a snapshot of another arity is told apart (GitCheckpoint.SnapIs). A store without a checkpoint whose staging tree lost objects opens, as in the source, and nothing is said of it afterwards.
- Subtrees.SubtreeProofVerifies: trees whose path is inadmissible (over 256 siblings) are rejected, as in the source.
- Concurrency: concurrent writers of the git store, lock retries and back-off, `git gc` and prune are not modelled; one writer with compare-and-swap is.
- Git: objects are identified with their contents, so hash collisions of git itself, object mtimes and packed refs are not modelled.
- Digests: byte widths, constant-time comparison and the wrong-length error of the log's appends; digests are compared with equality.
- Views of a log are values in a map, updated by replacement; aliasing between them is not modelled.
- Storage reads that fail for outside reasons; a failing batch is a parameter of the methods.
- The fallbacks of the mutable tree for a missing cache entry, which the cache invariant shows to be unreachable.
- The fjall backend, which validates batches less than the others.
- Async execution, error texts, boxed hasher cloning, payload metadata accessors and statistics.
- Audit payloads, non-divergence, coupling proofs, bound snapshots and leaf-proof records: short checks or replays over the results above.
- Limits of the verifier configuration, which only refuse more.
