# Nightfall: Merkle-tree engine, rollup checks and conversions

A Dafny model of the parts of Nightfall that have to agree with each other exactly: the three
Merkle trees kept in a node store, the root, fee and hash checks of the recursive rollup, the
log paginator, the shared-root path builder and the encodings on which the nullifier search
and the contract calls depend.

## What is modelled

Field elements are natural numbers in canonical form. Hashes are parameters: a pair hash with
`h(0, 0) == 0`, which the tree trait requires and the sparse trees rely on, and an arbitrary
three-input leaf hash. The reference for every tree is `Fold.SubRoot`, the complete binary
fold over all leaves with zeros where there are none.

- `Fold`, `Heap`: the fold, the complete tree in heap order, sibling paths, and what writing a
  path or a block of nodes does to a map of nodes.
- `AppendOnly`: the tree that keeps only a frontier.
- `MutableSpec`, `MutableTheorems`, `PartialWrites`, `MutableRuns`, `Witness`: the mutable tree as
  a value (metadata, stored nodes, write cache), dry runs against commits, writes that do not fit
  the tree, whole runs, proofs and insertion records. `StaleCache`: a dry run and then a commit of
  something else. `MutableTrees`: the same tree changed in place, each method proved equal to its
  value-level specification.
- `LinkedLeaves`, `IndexedSpec`, `ImtWitness`, `ImtChains`: the sorted linked list of nullifiers,
  its agreement with the tree and the witnesses handed to the circuit. `WitnessSoundness`: what such
  a witness proves to someone who knows only the root. `Positions`, `StoreSteps`,
  `PatchSteps`, `IndexedSteps`: the steps of both insertion algorithms, and what is left when one
  stops halfway. `IndexedTrees`: the indexed tree changed in place. `IndexedRuns`: any sequence of
  its inserts.
- `Agreement`: the append-only against the mutable tree, and one insertion algorithm against
  the other.
- `Rollup`, `VkCheck`: base, merge and decider checks over trees of proofs of any depth; the
  verification-key membership gate. `Blocks`: the records of the trees put through these checks.
- `LogFetcher`, `SharedPaths`, `Digits`, `PaddedHex`, `Conversions`: the paginator, the path
  builder, the padded hex form and the word, secret and address conversions.

## Main results

1. Any sequence of the three nullifier inserts, run from any valid tree up to the first error,
   leaves one strictly sorted list; the tree leaf of each entry hashes it, all other leaves are
   zero and the root is the complete fold; entries keep their values; the new values are at their
   positions and are distinct from each other and from the old ones; and the error was due
   (`IndexedRuns.RunInserts`). None of this is assumed of the steps: each is what the program's
   own methods are proved to do. From a fresh tree of total height 32 or less, as the program makes
   it, nothing is asked of the caller (`IndexedRuns.RunFresh`).
2. Both insertion algorithms accept the same batches and reach the same entries, nodes and root
   (`Agreement.InsertBothWays`, `InsertBothWaysFresh`, through `IndexedSpec.InsertionDetermined`).
3. The insertion witness passes everything that can be checked without the tree: each low leaf is
   opened and re-folded from the old root to the root before the append, or is the pending entry of
   the batch that it claims to be; the appended leaves are the hashes of the pending entries this
   ends with; and the append record takes the root from there. Over a batch there is one such witness
   for each sub-tree and each starts where the last ended
   (`IndexedTrees.IndexedTree.InsertNullifiersForCircuit`, `BatchInsertNullifiers`). Conversely, where
   the hashes have no collisions, a witness or chain of witnesses that passes these checks from the
   root of a valid tree is the witness of an insertion: its values are all new, and its last root is
   the root of the tree with them in it (`WitnessSoundness.WitnessSound`, `ChainSound`).
4. A dry run followed by a commit ends in exactly the database of a direct commit
   (`MutableTheorems.DryRunThenCommit`).
5. Every run of committed operations keeps the mutable tree coherent (`MutableRuns.RunKeeps`), and
   for every accepted update whatsoever the exact condition under which it does is known
   (`MutableRuns.UpdateSoundExactly`).
6. The frontier tree returns the complete fold over all leaves so far, and its successes and its one
   panic are characterised exactly (`AppendOnly.AppendOnlyTree.AppendSubTrees`). Fed any sequence of
   batches, it and a mutable tree of the same total height return the same roots
   (`Agreement.AppendAllBoth`).
7. An accepted decider means one unbroken chain of roots, the integer fee sum and the balanced
   fold of the hashes (`Rollup.DeciderSound`), and acceptance is characterised exactly
   (`Rollup.AcceptedExactly`). The hash output binds exactly the hashed fields of every transaction
   (`Rollup.DeciderBinds`).
8. Inserting a block's commitments and nullifiers and trying its root in the historic-root tree
   succeeds under exactly known conditions, and then every tree of proofs over what is handed out is
   accepted by the decider, whose public roots are the roots the three trees held before and those
   they hold, or would hold, after (`Blocks.MakeBlock`). Of the gadgets this asks only
   that they accept valid records and checked witnesses; a nullifier gadget that refuses everything
   else will do (`Blocks.ExactGadget`).
9. A block accepted with such a strict gadget, from the root of a valid nullifier tree, holds no
   nullifier that is in the tree already and none twice, and its new nullifier root is that of the
   tree with all of them in it (`Blocks.BlockSound`).
10. A paginated fetch makes exactly the calls that the answers so far call for, gives up only for a
   refused single block, an unknown error or one rate limit too many, as its error says, and on
   success returns what one unlimited query would (`LogFetcher.GetLogsPaginated`).

## Where the code differs from its intent

Each is kept as the code has it, with a concrete case and the exact condition.

- Filling the append-only tree passes its capacity check and then panics: the frontier has one
  entry too few (`FillingPanics`, `FrontierIndexFits`, `AppendSubTrees`).
- `insert_leaf` has no capacity check (`InsertLeafOverrun`, `InsertLeafExact`, `InsertLeafFull`).
- `update_sub_tree` checks its index against the number of leaves, not of slots (`StrayUpdate`,
  `UpdateExact`), and writes longer updates only as deep as a regular sub-tree
  (`LongUpdateIsStale`); `UpdateSoundExactly` covers every length and index. Without committing
  it replaces the stored root all the same (`DryUpdateMoves`, `DryUpdateExact`,
  `DryUpdateInRange`). An empty update is refused by the power-of-two test, so the error for
  empty input is never returned (`EmptyUpdateRefused`), and other lengths short of a regular
  sub-tree panic (`ShortUpdatePanics`, `UpdateErrors`).
- A commit flushes whatever a dry run has left in the cache. After a dry run of other leaves, as many
  of them, it stores the nodes of the dry run under a root of its own: the leaves are right exactly
  when the two batches are the same, and the tree is sound exactly when the last sub-tree committed
  hashes up to the root of the dry run (`OtherLeafIsStale`, `CommitOfOther`).
- Membership proofs need a total height below 63, although the height check admits 63
  (`TallTreeGivesNoRecord`, `InsertForCircuitRecord`).
- `insert_leaves` returns zero rather than the root for a batch of zeros (`ZeroBatchReturnsZero`,
  `InsertLeaves`).
- Both insertion algorithms store their values in the list before the tree is asked for room, so a
  refused batch can leave the list ahead of the tree, which is then no longer valid
  (`RefusedPlainInsert`, `RefusedCircuitInsert`). For `insert_leaves`, while positions fit, that
  happens exactly when no value was stored already and one is not zero (`InsertLeaves`,
  `RefusedAhead`); for the circuit insert of a full sub-tree, exactly when some value before the one
  it stopped at is not zero (`InsertNullifiersForCircuit`, `AheadExactly`).
- `insert_leaves` counts positions in 32 bits. They are the true ones exactly when the batch ends
  within 2^32 (`PositionsExact`), the list comes out right exactly when the stored values do
  (`InsertLeaves`), and a position that wraps to zero overwrites the head of the list
  (`PositionsWrap`, `WrappedStoreBreaks`). Trees of total height 32, which is what the program makes,
  are not affected (`SmallTreePositions`, `RunFresh`).
- The paginator never ends when asked for blocks up to the largest block number
  (`LastBlockNeverEnds`).
- The 256-bit conversion accepts the field order itself, which becomes zero (`WordRoundTrip`).
- The address bound is 2^161 - 1, one bit too wide (`StrayAddress`, `ElementRoundTrip`).

## Model

| member | source | states |
|---|---|---|
| Fold.MakeCompleteTree | lib/src/merkle_trees/trees.rs:386-415 | the array loop produces the heap-ordered complete tree whose every node is the hash of its children and whose bottom row is the padded leaves |
| Fold.NodeValIsSubRoot | lib/src/merkle_trees/trees.rs:386-415 | node k of row d of the complete tree is the fold of the k-th block of leaves, for every row and offset |
| Fold.CompleteTreeRoot | lib/src/merkle_trees/trees.rs:386-415 | the first node of the complete tree is the fold of all leaves |
| Fold.FoldOfFolds | lib/src/merkle_trees/append_only.rs:158-197 | folding sub-tree roots equals folding the leaves, so the split into tree and sub-tree heights is invisible |
| Fold.IndexToDirections | lib/src/merkle_trees/trees.rs:418-430 | direction i is given by bit i of the index |
| Fold.GetFrontierIndex | lib/src/merkle_trees/trees.rs:433-450 | the search loop ends and returns the two-adic order of the leaf index plus one |
| AppendOnly.NewAppendOnlyTree | lib/src/merkle_trees/append_only.rs:35-88 | a fresh valid tree of those heights exactly when they are together below 64, and otherwise the error for the height |
| AppendOnly.FrontierIndexFits | lib/src/merkle_trees/append_only.rs:146-188 | the frontier has room for the entry exactly when the append does not fill the tree |
| AppendOnly.ClimbLevel | lib/src/merkle_trees/append_only.rs:174-184 | one level of the climb, frontier on the left or zero on the right, gives the fold of the block one level up |
| AppendOnly.FrontierStep | lib/src/merkle_trees/append_only.rs:186-190 | storing one path node makes the frontier hold the root of every completed left block named by the set bits of the new count |
| AppendOnly.AppendOnlyTree.constructor | lib/src/merkle_trees/append_only.rs:53-88 | a fresh tree satisfies the frontier invariant with no leaves |
| AppendOnly.AppendOnlyTree.ClimbFrontier | lib/src/merkle_trees/append_only.rs:169-184 | every element of the path is the fold of its block over all leaves so far |
| AppendOnly.AppendOnlyTree.AppendChunk | lib/src/merkle_trees/append_only.rs:160-194 | one sub-tree keeps the frontier invariant and returns the fold of all leaves; it fails exactly on the last slot |
| AppendOnly.AppendOnlyTree.AppendChunks | lib/src/merkle_trees/append_only.rs:158-197 | the batch loop extends the leaves by the batch and returns their complete fold |
| AppendOnly.AppendOnlyTree.AppendSubTrees | lib/src/merkle_trees/append_only.rs:90-221 | succeeds exactly for whole sub-trees that leave a slot free, panics exactly when the tree would be filled, and which of the two errors it returns otherwise; returns the complete fold of all leaves, and changes nothing on failure or in a dry run |
| AppendOnly.FillingPanics | lib/src/merkle_trees/append_only.rs:146-188 | a tree of one slot panics on its first sub-tree |
| Heap.CoherentIsComplete | lib/src/merkle_trees/trees.rs:386-415 | a node map whose internal nodes hash their children is the complete tree over its bottom row, node for node |
| Heap.LeavesDetermineNodes | lib/src/merkle_trees/trees.rs:386-415 | two coherent node maps with the same bottom row agree on every node |
| Heap.CoherentFold | lib/src/merkle_trees/mutable.rs:640-660 | in a coherent map every node folds up its siblings to the root |
| Heap.WrittenCoherent | lib/src/merkle_trees/mutable.rs:473-531 | hooking a complete sub-tree in anywhere and rehashing its ancestors keeps every internal node the hash of its children |
| Heap.WrittenLeaves | lib/src/merkle_trees/mutable.rs:473-531 | such a write replaces exactly the sub-tree's own range of the bottom row |
| PartialWrites.PartialWriteExact | lib/src/merkle_trees/mutable.rs:750-787 | a climb of any number of rows from any node with a block of any depth below it keeps the tree coherent if and only if it ends at the root or fits the node above, and its last row is the row of leaves or there already |
| MutableSpec.SoundRootOfUsed | lib/src/merkle_trees/mutable.rs:420-552 | with unclaimed slots zero the stored root is the fold of the claimed leaves alone |
| MutableSpec.ClimbIsWrite | lib/src/merkle_trees/mutable.rs:488-524 | the climb returns the root of the written tree and queues exactly its path |
| MutableSpec.SoundRootOfSlots | lib/src/merkle_trees/mutable.rs:473-531 | each node at which a sub-tree hangs is the fold of its own leaves, and the stored root is the fold of those nodes alone |
| MutableTheorems.EmptyIsSound | lib/src/merkle_trees/mutable.rs:64-70 | an empty database is a coherent tree with all leaves zero |
| MutableTheorems.AppendKeeps | lib/src/merkle_trees/mutable.rs:420-552 | a committed append keeps the tree sound, replaces exactly the slots after the count, returns the stored root, and fails exactly on its length and capacity checks without changing anything |
| MutableTheorems.AppendRoot | lib/src/merkle_trees/mutable.rs:420-552 | the returned root is the complete fold of all leaves appended so far and unclaimed leaves stay zero |
| MutableTheorems.AppendReturns | lib/src/merkle_trees/mutable.rs:420-552 | committed or not, which check an append fails, and the number of claimed leaves it returns when it fails none |
| MutableTheorems.DryMirrorsCommit | lib/src/merkle_trees/mutable.rs:473-531 | a dry run computes the hash and node view of a direct commit |
| MutableTheorems.DryCovers | lib/src/merkle_trees/mutable.rs:262-312 | after a dry run the cache holds every node that any sub-tree of the batch writes |
| MutableTheorems.StaleLoop | lib/src/merkle_trees/mutable.rs:109-140 | a commit under a cache that covers its writes changes nothing a reader sees and hashes to the root in view |
| MutableTheorems.DryRunThenCommit | lib/src/merkle_trees/mutable.rs:109-552 | from an empty cache, dry run then commit returns the same root twice, leaves metadata and nodes untouched in between and ends in the database of a direct commit |
| StaleCache.CoveredLoop | lib/src/merkle_trees/mutable.rs:473-531 | a commit of anything under a cache that covers its writes changes nothing a reader sees and returns its last sub-tree hashed up the siblings in view |
| StaleCache.CommitOfOther | lib/src/merkle_trees/mutable.rs:142-552 | after a dry run, a commit of as many other leaves ends in the nodes of the first with a root of the second; the leaves are right if and only if the two are the same, the tree sound if and only if the second root is the root of the first tree |
| StaleCache.OtherLeafIsStale | lib/src/merkle_trees/mutable.rs:142-552 | a one-slot tree in which a dry run of one leaf and the commit of another leave root and node apart |
| MutableRuns.InsertLeafKeeps | lib/src/merkle_trees/mutable.rs:321-418 | a single-leaf insert with room keeps the tree sound, sets exactly the first leaf of the next slot and returns the stored root |
| MutableRuns.InsertLeafExact | lib/src/merkle_trees/mutable.rs:321-418 | a single-leaf insert always succeeds and keeps the tree sound if and only if a slot is free |
| MutableRuns.InsertLeafFull | lib/src/merkle_trees/mutable.rs:321-418 | the effect of an insert into a full tree, and the exact conditions under which internal nodes still hash their children and the stored root is still the top node |
| MutableRuns.InsertLeafOverrun | lib/src/merkle_trees/mutable.rs:321-418 | a full tree whose stored root and top node part ways after one insert |
| MutableRuns.DryInsertLeaf | lib/src/merkle_trees/mutable.rs:321-418 | an insert that is not committed returns what a committed one does and leaves its nodes in view, with metadata and stored nodes as they were |
| MutableRuns.UpdateKeeps | lib/src/merkle_trees/mutable.rs:683-808 | an in-range update of one leaf or one regular sub-tree replaces exactly those leaves and keeps the tree sound |
| MutableRuns.UpdateOutOfRange | lib/src/merkle_trees/mutable.rs:683-808 | a regular update that passes the checks with an index beyond the slots leaves the tree unsound |
| MutableRuns.UpdateExact | lib/src/merkle_trees/mutable.rs:683-808 | for both regular lengths an accepted update keeps the tree sound if and only if its index names a slot |
| MutableRuns.StrayUpdate | lib/src/merkle_trees/mutable.rs:683-808 | an update of the second slot of a one-slot tree is accepted and leaves it unsound |
| MutableRuns.UpdateSoundExactly | lib/src/merkle_trees/mutable.rs:683-808 | for every accepted update, of any length and index, the exact condition under which the tree stays sound |
| MutableRuns.UpdateErrors | lib/src/merkle_trees/mutable.rs:683-807 | for every length and index, whether an update is accepted, panics, or which error it returns |
| MutableRuns.ShortUpdatePanics | lib/src/merkle_trees/mutable.rs:744-807 | an update of two leaves in a tree of sub-trees of four panics |
| MutableRuns.EmptyUpdateRefused | lib/src/merkle_trees/mutable.rs:683-743 | an empty update is an update of the wrong length for every tree and index |
| MutableRuns.LongUpdateIsStale | lib/src/merkle_trees/mutable.rs:744-807 | an accepted update of an empty tree after which the root no longer belongs to the leaves |
| MutableRuns.DryUpdateExact | lib/src/merkle_trees/mutable.rs:788-807 | an update that is not committed leaves the stored nodes and stores the root to which climbing from the new sub-tree leads, so the tree stays sound if and only if that is the old root |
| MutableRuns.DryUpdateInRange | lib/src/merkle_trees/mutable.rs:788-807 | for a regular length in range the condition is that the new leaves fold up the siblings in view to the old root, which leaves that are there already always do |
| MutableRuns.DryUpdateView | lib/src/merkle_trees/mutable.rs:788-807 | an update that is not committed leaves in view what a committed one stores |
| MutableRuns.DryUpdateMoves | lib/src/merkle_trees/mutable.rs:788-807 | a dry update of an empty tree that leaves its stored root and its nodes apart |
| MutableRuns.StepKeeps | lib/src/merkle_trees/mutable.rs:321-808 | each committed operation, where the caller respects what the code does not check, keeps the tree sound and the cache empty |
| MutableRuns.RunKeeps | lib/src/merkle_trees/mutable.rs:321-808 | so does every run, with the stored root the complete fold and unclaimed leaves zero while updates stay within claimed slots |
| Witness.ProofFolds | lib/src/merkle_trees/mutable.rs:554-681 | every leaf folds up its proof to the stored root, and the proof has the height of the tree |
| Witness.ProofDirections | lib/src/merkle_trees/mutable.rs:640-660 | element l of a proof lies on the side named by bit l of the leaf index |
| Witness.ProofByIndex | lib/src/merkle_trees/mutable.rs:554-681 | by index exactly the leaves of a tree of total height below 63 have a proof, and it is a proof of that leaf: its value folded up to the stored root, one sibling to a level, on the sides the index names |
| Witness.ProofByValue | lib/src/merkle_trees/mutable.rs:554-681 | by value, through a stored node that holds it, there is such a proof exactly when that node is a leaf of a tree of total height below 63, and it is the proof of that leaf |
| Witness.FoundByValue | lib/src/merkle_trees/mutable.rs:573-600 | whichever node is found: a value held by leaves alone is proved, one held by no leaf is refused, and a proof returned is of a leaf with that value |
| Witness.SlotPath | lib/src/merkle_trees/mutable.rs:855-909 | dropping the sub-tree's own levels from a leaf's proof gives the proof of its slot |
| Witness.InsertForCircuitRecord | lib/src/merkle_trees/mutable.rs:855-909 | zero folds up the recorded proof to the old root, the new sub-tree up the same proof to the new root, and the proof and the leaf count are those of the slot named; the exact conditions for success; nothing changes on failure |
| Witness.InsertForCircuitErrors | lib/src/merkle_trees/mutable.rs:855-909 | which error a refused insert with a record returns |
| Witness.TallTreeGivesNoRecord | lib/src/merkle_trees/mutable.rs:855-909 | an empty tree of total height 63 takes a leaf but gives no record of taking it |
| Witness.BatchChain | lib/src/merkle_trees/mutable.rs:810-853 | the batch succeeds exactly when there is room for all of it in a tree that gives proofs, and otherwise panics with as much of it inserted as has room; the tree holds it after what it held; the records hold it in order, each valid and for the next slot, and each new root is the next old root, from the root before the batch to the root after |
| Witness.DryProof | nightfall_proposer/src/driven/rollup_prover.rs:690-704 | a dry run of one leaf goes through exactly in a tree of single-leaf slots with one to spare; the next slot then reads as the new leaf, and its proof folds zero to the stored root and the new leaf to the root of the dry run |
| MutableTrees.NewMutableTree | lib/src/merkle_trees/mutable.rs:43-94 | a fresh empty sound tree exactly when the heights together are below 64, and otherwise the error for the height |
| MutableTrees.MutableTree.GetNode | lib/src/merkle_trees/mutable.rs:109-140 | reads the cache first, then the stored nodes, then zero |
| MutableTrees.MutableTree.SetNodes | lib/src/merkle_trees/mutable.rs:262-312 | queued writes go to the stored nodes or to the cache, and nowhere else |
| MutableTrees.MutableTree.FlushCache | lib/src/merkle_trees/mutable.rs:142-233 | the cache overwrites the stored nodes and is emptied |
| MutableTrees.MutableTree.ClimbPath | lib/src/merkle_trees/mutable.rs:488-505 | the climbing loop returns the hash and the writes of the specified climb |
| MutableTrees.MutableTree.HangBlock | lib/src/merkle_trees/mutable.rs:507-524 | the row-by-row walk queues the sub-tree's nodes at their heap places, and fails exactly when the rows outrun the sub-tree |
| MutableTrees.MutableTree.AppendBatches | lib/src/merkle_trees/mutable.rs:473-531 | the loop over chunks refines the recursive specification |
| MutableTrees.MutableTree.AppendSubTrees | lib/src/merkle_trees/mutable.rs:420-552 | new state and result equal the append specification, in every error case too |
| MutableTrees.MutableTree.InsertLeaf | lib/src/merkle_trees/mutable.rs:321-418 | new state and result equal the single-leaf specification |
| MutableTrees.MutableTree.UpdateSubTree | lib/src/merkle_trees/mutable.rs:683-808 | new state and result equal the update specification, including the panic on short updates |
| MutableTrees.MutableTree.WalkPath | lib/src/merkle_trees/mutable.rs:640-660 | the walk collects the sibling path in the current view |
| MutableTrees.MutableTree.GetMembershipProof | lib/src/merkle_trees/mutable.rs:554-681 | the proof of an index, or of some stored node with a given value, and which error is returned in every other case; in a sound, clean tree it is a valid proof of that leaf, or of a leaf with that value, and when there is one |
| MutableTrees.MutableTree.InsertForCircuit | lib/src/merkle_trees/mutable.rs:855-909 | new state and record equal the specification whose records are proved valid |
| MutableTrees.MutableTree.BatchInsertWithCircuitInfo | lib/src/merkle_trees/mutable.rs:810-853 | the loop refines the specification whose records are proved to chain; a ragged batch is refused unchanged |
| LinkedLeaves.LowExists | lib/src/merkle_trees/indexed.rs:657-682 | every non-zero value has a low leaf |
| LinkedLeaves.LowSkips | lib/src/merkle_trees/indexed.rs:657-682 | the low leaf of an absent value links past it |
| LinkedLeaves.StoreKeepsLinked | lib/src/merkle_trees/indexed.rs:538-614 | storing an absent non-zero value at a fresh id keeps the list linked |
| LinkedLeaves.LinksDetermined | lib/src/merkle_trees/indexed.rs:538-614 | values by id determine every link, whatever the order of insertion |
| LinkedLeaves.RelinkedAreLows | lib/src/merkle_trees/indexed.rs:166-209 | among the entries before a batch, exactly the low leaves computed before it was stored change |
| LinkedLeaves.OneList | lib/src/merkle_trees/indexed.rs:538-614 | following the links from zero visits every entry once in strictly increasing order |
| IndexedSpec.UpdateOneLeaf | lib/src/merkle_trees/indexed.rs:358-372 | rewriting one leaf changes that leaf alone, and the new root is the new leaf folded up the old proof |
| IndexedSpec.StoreAndPatch | lib/src/merkle_trees/indexed.rs:332-374 | storing a value and rewriting its low leaf in the tree keeps tree and list in agreement |
| IndexedSpec.AppendCatchesUp | lib/src/merkle_trees/indexed.rs:441-453 | appending the hashes of the pending entries brings the tree level with the list |
| IndexedSpec.InsertionDetermined | lib/src/merkle_trees/indexed.rs:144-462 | any two ways of inserting the same batch end in the same entries, node view and root |
| ImtChains.ImtChainLength | lib/src/merkle_trees/indexed.rs:486-502 | a chain of witnesses has one for each sub-tree |
| ImtWitness.ChainHoldsBatch | lib/src/merkle_trees/indexed.rs:302-425 | the pending entries a chain of witnesses leads to hold the batch in order |
| ImtWitness.PendingAfterStore | lib/src/merkle_trees/indexed.rs:538-614 | storing a value relinks its low leaf among the pending entries, if it is one, and adds the new entry |
| IndexedTrees.NewIndexedTree | lib/src/merkle_trees/indexed.rs:36-61 | exactly when the heights together are below 64, a fresh coherent tree of those heights whose database is the empty one with the hash of the zero leaf inserted, and whose one entry is the zero leaf; otherwise the error for the height |
| IndexedTrees.IndexedTree.constructor | lib/src/merkle_trees/indexed.rs:36-61 | the zero leaf is the one entry, one slot of the given heights is claimed, and the nodes are those of an empty tree with its hash in the first slot |
| IndexedTrees.IndexedTree.GetLeaf | lib/src/merkle_trees/indexed.rs:616-655 | finds an entry exactly when the value is stored |
| IndexedTrees.IndexedTree.GetLowLeaf | lib/src/merkle_trees/indexed.rs:657-682 | the search returns an entry with the greatest value below the query, or nothing when there is none, of any list |
| LinkedLeaves.FoundInLinked | lib/src/merkle_trees/indexed.rs:657-682 | in a linked list the search succeeds for every non-zero value and finds the low leaf by its id |
| IndexedTrees.IndexedTree.UpdateLeaf | lib/src/merkle_trees/indexed.rs:684-710 | relinks exactly the entry of a stored value |
| IndexedTrees.IndexedTree.StoreLeaf | lib/src/merkle_trees/indexed.rs:538-614 | a known value is skipped, an oversized index refused; otherwise the value takes over its low leaf's link, overwriting an id in use, and fails after writing when that id was the low leaf's own |
| IndexedTrees.IndexedTree.GetNonMembershipProof | lib/src/merkle_trees/indexed.rs:63-130 | succeeds exactly for absent non-zero values; the low leaf skips the value and its proof folds to the root |
| IndexedTrees.IndexedTree.InsertInTree | lib/src/merkle_trees/indexed.rs:332-374 | one round whose low leaf is in the tree keeps the agreement, its witness moves the old root to the new one, and the proof in it names that leaf |
| IndexedTrees.IndexedTree.InsertPending | lib/src/merkle_trees/indexed.rs:375-404 | one round whose low leaf is pending changes the list alone and leaves the root as it is; its witness is the pending entry of the batch that is relinked, with a dummy proof that names the new position |
| IndexedTrees.IndexedTree.InsertAll | lib/src/merkle_trees/indexed.rs:302-425 | the whole first loop, with the chain of witnesses from the root before to the root after and from no pending entries to those of the batch, each witness in its stated form; or where it stopped and why |
| IndexedTrees.IndexedTree.CollectInserts | lib/src/merkle_trees/indexed.rs:427-451 | the pending entries are read back in batch order, with the zero leaf for zeros |
| IndexedTrees.IndexedTree.InsertNullifiersForCircuit | lib/src/merkle_trees/indexed.rs:284-462 | the exact conditions for success; the list and tree stay coherent; the witness is checked against the root before, with every low leaf opened in the tree by a proof that names it or found among the pending entries, and ends at the root after with the entries as stored. After a refusal the list has exactly the values before the one it stopped at, the tree agrees with it below the unclaimed slot, the tree is valid if and only if the list is unchanged, and the error is the first that was due |
| IndexedTrees.IndexedTree.BatchInsertNullifiers | lib/src/merkle_trees/indexed.rs:464-505 | succeeds exactly for whole sub-trees of values new across the whole batch with room left; inserts the whole batch; one checked witness in its stated form for each sub-tree, chained root to root. After a refusal the sub-trees before the refused one are in, and that one left what a refused sub-tree leaves |
| IndexedTrees.IndexedTree.CollectLows | lib/src/merkle_trees/indexed.rs:166-179 | the values of exactly the batch's low leaves, strictly sorted |
| IndexedTrees.IndexedTree.StoreAll | lib/src/merkle_trees/indexed.rs:189-209 | where the positions fit, stores the values before the first that is a repeat or known already, at consecutive ids, and succeeds exactly when there is none; in any case new ids are below 2^32 |
| IndexedTrees.IndexedTree.CollectHashes | lib/src/merkle_trees/indexed.rs:211-243 | reads the batch back from the list and gives the tree leaves it calls for |
| PatchSteps.AppendLeavesBehind | lib/src/merkle_trees/indexed.rs:211-245 | after the append only the low leaves found before the batch was stored are out of date |
| IndexedTrees.IndexedTree.GatherUpdates | lib/src/merkle_trees/indexed.rs:247-266 | succeeds exactly when every listed value is stored, with the hash and place of its entry |
| IndexedTrees.IndexedTree.ApplyUpdates | lib/src/merkle_trees/indexed.rs:268-281 | rewriting those leaves leaves nothing out of date and returns the last root, or zero if there were none |
| IndexedTrees.IndexedTree.InsertLeaves | lib/src/merkle_trees/indexed.rs:144-282 | success puts every value in its place if and only if the positions of the stored values fit 32 bits; then the exact conditions for success, the same final state as any other insertion, and the root returned except for a batch of zeros. A refusal leaves the tree alone, returns the first error that was due, changes the list if and only if no value was stored already and one is not zero, and the tree is valid afterwards if and only if the list is unchanged |
| Positions.InsertIndexExact | lib/src/merkle_trees/indexed.rs:189 | the 32-bit first position is the true one if and only if that fits 32 bits |
| Positions.PositionsExact | lib/src/merkle_trees/indexed.rs:189-209 | the 32-bit positions of a batch are all true if and only if the batch ends within 2^32 |
| Positions.PositionResidue | lib/src/merkle_trees/indexed.rs:189-209 | every 32-bit position is the true one modulo 2^32 for sub-trees lower than 32, and for higher ones what a shift by the height modulo 32 makes of it |
| Positions.PositionsWrap | lib/src/merkle_trees/indexed.rs:189-209 | a tree whose first position comes out as zero, and one whose third does |
| StoreSteps.WrappedStoreBreaks | lib/src/merkle_trees/indexed.rs:574-613 | a value stored at id zero takes the head out of the list, whether or not the store reports success |
| StoreSteps.ListAhead | lib/src/merkle_trees/indexed.rs:189-209 | a list that has had the first values of a batch is changed, and goes beyond what the tree has claimed, if and only if one of them is not zero |
| IndexedSteps.RefusedAhead | lib/src/merkle_trees/indexed.rs:189-245 | a plain insert refused after storing leaves list and tree in agreement if and only if the batch is all zeros |
| IndexedSteps.AheadExactly | lib/src/merkle_trees/indexed.rs:302-453 | so for a circuit insert that stops at any value: in agreement if and only if all values before it are zero, and then the metadata is the old one |
| IndexedRuns.Execute | lib/src/merkle_trees/indexed.rs:144-505 | each of the three inserts succeeds exactly when it should and then inserts its values |
| IndexedRuns.OutcomeOf | lib/src/merkle_trees/indexed.rs:36-614 | what an insertion of new values into a coherent state amounts to: one strictly sorted list, tree leaves hash the entries, other leaves zero, root the complete fold, old values kept |
| IndexedRuns.RunStep | lib/src/merkle_trees/indexed.rs:144-505 | an accepted insert after others extends them by values distinct from all of theirs |
| IndexedRuns.RunInserts | lib/src/merkle_trees/indexed.rs:144-505 | any sequence of inserts up to the first error: all of that for everything accepted so far, and the error was due |
| IndexedRuns.SmallTreePositions | nightfall_proposer/src/lib.rs:74-95 | in a tree of total height 32 or less no run meets the 32-bit limit |
| IndexedRuns.RunFresh | nightfall_proposer/src/lib.rs:74-95 | the same from a fresh tree of total height 32 or less, with no premise on the inserts; a run in which a value comes twice stops before its end |
| IndexedRuns.ZeroBatchReturnsZero | lib/src/merkle_trees/indexed.rs:268-281 | a fresh two-slot tree takes a zero and returns zero, although its root is the hash of the zero leaf's hash and zero |
| IndexedRuns.RefusedPlainInsert | lib/src/merkle_trees/indexed.rs:189-245 | a fresh one-slot tree refuses a value and is invalid afterwards |
| IndexedRuns.RefusedCircuitInsert | lib/src/merkle_trees/indexed.rs:302-453 | so does its circuit insert |
| Agreement.SameRoot | lib/src/merkle_trees/append_only.rs:160-194 | an append-only and a mutable tree over the same leaves hold the same root, however each splits the height |
| Agreement.FreshInStep | lib/src/merkle_trees/append_only.rs:35-88 | fresh trees of the same total height are in step |
| Agreement.AppendBoth | lib/src/merkle_trees/mutable.rs:473-531 | when each tree takes a batch; if both do they return the same root and stay in step |
| Agreement.AppendAllBoth | lib/src/merkle_trees/append_only.rs:90-221 | fed any sequence of batches, two fresh trees return the complete fold of all leaves so far after each, up to the first batch either refuses, and that refusal was due |
| Agreement.InsertBothWays | lib/src/merkle_trees/indexed.rs:144-462 | append-then-patch and patch-then-append accept the same batches, those of new values while a slot is free, and end in the same entries, nodes and root |
| Agreement.InsertBothWaysFresh | lib/src/merkle_trees/indexed.rs:144-462 | on two fresh trees both algorithms take a sub-tree if and only if its non-zero values are distinct, and agree |
| Rollup.BaseExtraChecks | lib/src/rollup_circuit_checks.rs:113-179 | satisfied exactly when both halves check and the first meets the second; the four outer roots come out |
| Rollup.BaseChecks | lib/src/rollup_circuit_checks.rs:181-239 | the fee is the field sum and the hash the balanced fold of the four transaction hashes |
| Rollup.TxHashIs | lib/src/rollup_circuit_checks.rs:202-225 | which fields of a transaction are hashed, in which order, and with which flag |
| Rollup.TxBinds | lib/src/rollup_circuit_checks.rs:202-225 | a transaction hash depends on fields 2 to 13 and on whether field 14 is one, and without collisions determines them |
| Rollup.BaseChecksBind | lib/src/rollup_circuit_checks.rs:181-239 | the base checks give equal hashes for transactions that agree on those fields and, without collisions, for no others |
| Rollup.FoldedHashBinds | lib/src/rollup_circuit_checks.rs:181-239 | so for any number of transactions folded to any depth |
| Rollup.BaseCircuit | lib/src/rollup_circuit_checks.rs:113-239 | both together give the outputs of a base proof |
| Rollup.RootsChained | lib/src/rollup_circuit_checks.rs:293-368 | accepted outputs are the ends of one chain through every insertion, in order, for commitments and for nullifiers |
| Rollup.AcceptedExactly | lib/src/rollup_circuit_checks.rs:113-368 | a tree of proofs is accepted if and only if every base half checks and neither sequence of insertions has a break |
| Rollup.FeesAdded | lib/src/rollup_circuit_checks.rs:293-368 | below both field orders the fee output is the integer sum, across the alternating fields |
| Rollup.FeeInField | lib/src/rollup_circuit_checks.rs:181-368 | whether or not the total fits, every step sums the fees below it in its own field |
| Rollup.DeciderFeeInField | lib/src/rollup_circuit_checks.rs:370-424 | so does the decider |
| Rollup.HashesFolded | lib/src/rollup_circuit_checks.rs:293-368 | the hash outputs are the balanced fold of the transaction hashes, in the layout of each step |
| Rollup.DeciderSound | lib/src/rollup_circuit_checks.rs:370-424 | an accepted decider over a perfect tree of any depth: unbroken root chains, integer fee, balanced hash fold, and the historic root moved from an empty leaf to the final root |
| Rollup.DeciderBinds | lib/src/rollup_circuit_checks.rs:370-424 | two accepted blocks of the same depth have equal hash outputs if their transactions agree on the hashed fields and, without collisions, only then |
| Rollup.DeciderFees | lib/src/rollup_circuit_checks.rs:370-424 | with fees bounded so that the block cannot wrap either field, an accepted decider's fee output is their sum outright |
| Rollup.FeesBelow | lib/src/rollup_circuit_checks.rs:181-239 | fees below a bound sum to less than the bound times their number |
| WitnessSoundness.SamePath | lib/src/rollup_circuit_checks.rs:129-144 | without collisions, two paths on the same sides to one root are one path from one value |
| WitnessSoundness.LowIsEntry | lib/src/rollup_circuit_checks.rs:157-163 | a low leaf that folds up to the root is the entry stored at its place |
| WitnessSoundness.TrueRecord | lib/src/rollup_circuit_checks.rs:146-152 | a valid record for the next slot is the record of an append, with its new root |
| WitnessSoundness.WitnessSound | lib/src/rollup_circuit_checks.rs:157-163 | a checked witness from the root of a valid tree is a valid witness of an insertion: the values are new and the last root is that of the tree with the batch in it |
| WitnessSoundness.DoubleSpendRefused | lib/src/rollup_circuit_checks.rs:157-163 | no witness for a value already in the tree checks against its root |
| WitnessSoundness.MadeUpLowRefused | lib/src/rollup_circuit_checks.rs:157-163 | whatever the hashes, no witness checks whose first value names a low leaf from its own batch |
| WitnessSoundness.ChainSound | lib/src/rollup_circuit_checks.rs:157-168 | a chain of checked witnesses from the root of a valid tree is an insertion of the whole batch, whose values are new and distinct across it |
| Blocks.CommitmentChain | lib/src/rollup_circuit_checks.rs:113-179 | with a gadget that accepts valid records, the commitment records of a batch are one chain of accepted insertions from the root before to the root after |
| Blocks.NullifierChain | lib/src/rollup_circuit_checks.rs:113-179 | with a gadget that accepts checked witnesses, so are the nullifier witnesses of a batch |
| Blocks.ChainNamesAll | lib/src/merkle_trees/indexed.rs:464-505 | the witnesses handed out for a batch hold it in order |
| Blocks.ExactGadget | lib/src/rollup_circuit_checks.rs:157-163 | for an encoding that loses nothing there is a gadget that accepts the checked witnesses and no others |
| Blocks.ChainsAccepted | lib/src/rollup_circuit_checks.rs:113-368 | a tree of proofs of any depth whose insertions form two chains is accepted, and its root outputs are the ends of the chains |
| Blocks.AcceptedMembers | lib/src/rollup_circuit_checks.rs:113-179 | every historic root named in an accepted tree of proofs is a member and every insertion in it passes its gadget |
| Blocks.BlockAccepted | lib/src/rollup_circuit_checks.rs:293-424 | any block proof over chained records and witnesses, with a proof of the historic slot, passes the decider with the ends of the chains and of that proof as its public roots |
| Blocks.InsertCommitments | lib/src/merkle_trees/mutable.rs:810-853 | succeeds exactly for whole sub-trees with room in a tree that gives proofs; the tree stays sound and holds the commitments after what it held; the records hold them in order, each for the next slot, and chain the stored root before to the stored root after; of a batch that does not fit, how much is in |
| Blocks.ProveHistoric | nightfall_proposer/src/driven/rollup_prover.rs:690-704 | the dry run leaves metadata and nodes alone, succeeds exactly in a tree of single-leaf slots that has room and gives proofs, and its proof is of the new root in the next slot and leads from the stored root to the returned one |
| Blocks.MakeBlock | nightfall_proposer/src/driven/rollup_prover.rs:621-704 | the whole succeeds under exactly the stated conditions, and then the commitment tree holds the commitments given, the records and witnesses hold the commitments and nullifiers given in order, and every block proof over them is accepted and takes the roots the trees held to the roots they hold; after a failure, what each of the three trees is left with |
| Blocks.StrictChain | lib/src/rollup_circuit_checks.rs:113-179 | insertions that a gadget accepts which refuses all but checked witnesses are, one after another, a chain of checked witnesses |
| Blocks.BlockSound | lib/src/rollup_circuit_checks.rs:113-424 | a block accepted with such a gadget from the root of a valid tree: its nullifiers are new and distinct, and the new nullifier root is that of the tree with all of them in it |
| VkCheck.GenerateVkCheckConstraint | lib/src/rollup_circuit_checks.rs:501-522 | the folded gate is satisfied if and only if the checked hash is in the list, for lists of any length |
| VkCheck.ProductVanishes | lib/src/rollup_circuit_checks.rs:501-522 | modulo a prime the product of differences vanishes exactly on members |
| LogFetcher.GetLogsPaginated | lib/src/log_fetcher.rs:151-326 | for any provider, its errors read as the program reads them: the calls made, each following from the answer to the one before; the fetch ends within blocks plus log of the chunk size plus the retries; it gives up only for a refused single block, an unknown error or one rate limit too many, as the error says, so it succeeds with every provider that gives none of these reasons; on success the ranges partition the request and the logs are those of one unlimited query |
| LogFetcher.TurnAsks | lib/src/log_fetcher.rs:211-291 | one turn is one more call: an answer goes on from the next block, a rate limit asks again, a refusal halves the chunk, and a turn that stops has a reason |
| LogFetcher.ObligingIsNoReason | lib/src/log_fetcher.rs:245-291 | a provider that refuses no single block, returns no unknown error and limits its rate at most five times gives no reason to give up |
| LogFetcher.SixthLimitGivesUp | lib/src/log_fetcher.rs:248-262 | a provider that is always too busy is called six times |
| LogFetcher.WordsRead | lib/src/log_fetcher.rs:301-326 | the words by which each kind of error is known, wherever they stand in the message |
| LogFetcher.CaseIgnored | lib/src/log_fetcher.rs:245-246 | capitals make no difference to the reading of an error |
| LogFetcher.TurnProgress | lib/src/log_fetcher.rs:211-291 | every turn that goes on uses up some of the call budget |
| LogFetcher.TurnCovers | lib/src/log_fetcher.rs:211-244 | a turn that advances covers exactly the blocks it passes, with their logs |
| LogFetcher.LastBlockNeverEnds | lib/src/log_fetcher.rs:211-244 | asked for blocks up to the largest number, an always-answering provider keeps the loop running for any number of turns |
| SharedPaths.AddSiblings | lib/src/build_transfer_inputs.rs:39-55 | each leaf folds up its lengthened path to its next ancestor and no node is left without its pair |
| SharedPaths.BuildParents | lib/src/build_transfer_inputs.rs:57-74 | every parent is the hash of its two children and no lookup misses |
| SharedPaths.GenerateRandomPathsWithSharedRoot | lib/src/build_transfer_inputs.rs:21-81 | for any leaves, random numbers and depth of two or more, the four paths fold to the returned root in the directions of their indices; their siblings are the paired leaf, the hash of the other pair and above that the numbers drawn, one to a level |
| Digits.BigEndianOrder | lib/src/serialization.rs:92-102 | digit order, most significant first, is numeric order |
| PaddedHex.BytesToHexLpadded | lib/src/serialization.rs:79-90 | two digits for each byte, padded with zeros on the left to the full width |
| PaddedHex.DigitsWritten | lib/src/serialization.rs:79-90 | the sixteen digits written, and that capitals are read as well |
| PaddedHex.SerializeFrPadded | lib/src/serialization.rs:104-114 | the steps of serializing give the fixed-width stored form |
| PaddedHex.FrRoundTrip | lib/src/serialization.rs:104-136 | every canonical element is recovered from its stored form |
| PaddedHex.DecodeLengths | lib/src/serialization.rs:116-136 | a string decodes exactly when it is hex of at least 32 bytes whose last 32 are below the field order, and to the number they make |
| PaddedHex.EncodeOrder | lib/src/serialization.rs:79-114 | string order of stored forms is numeric order |
| PaddedHex.StringSearchFindsLow | lib/src/merkle_trees/indexed.rs:657-682 | the greatest stored string below a value's string is the true numeric predecessor, and conversely |
| Conversions.ToWord | lib/src/contract_conversions.rs:104-124 | filling the limb array from the minimal digits gives the number itself |
| Conversions.WordRoundTrip | lib/src/contract_conversions.rs:16-25 | an accepted word is unchanged exactly when it is below the field order; the order itself becomes zero |
| Conversions.PackLayout | lib/src/contract_conversions.rs:196-219 | the first three words are the first three elements, the last is the fourth with the flag as its top bit |
| Conversions.UnpackLayout | lib/src/contract_conversions.rs:169-195 | unpacking is refused exactly when one of the first three words is above the field order; otherwise which bits of which word become which element |
| Conversions.PackRoundTrip | lib/src/contract_conversions.rs:169-219 | canonical secrets pack exactly when the flag is 0 or 1, and unpack to themselves |
| Conversions.UnpackRoundTrip | lib/src/contract_conversions.rs:169-219 | four words survive unpacking and packing if and only if each coordinate in them is below the field order |
| Conversions.MaxAddressIs | lib/src/contract_conversions.rs:143-147 | the decimal bound is 2^161 - 1, above 2^160 |
| Conversions.ByteWeights | lib/src/contract_conversions.rs:158-167 | each byte of an address has the weight of its place, the first being the most significant |
| Conversions.AddressRoundTrip | lib/src/contract_conversions.rs:140-167 | address to field to address is the identity for every address |
| Conversions.ElementRoundTrip | lib/src/contract_conversions.rs:140-167 | an accepted element survives the trip if and only if it is below 2^160 |
| Conversions.StrayAddress | lib/src/contract_conversions.rs:140-152 | 2^160 is accepted and does not survive |

## Left out

- Database calls, BSON, write acknowledgements, duplicate keys and partial failures: each store is a map whose operations succeed, and runs end at the first error.
- Concurrent execution of queued node writes: they go to distinct nodes that the same walk does not read, so they are one map.
- IndexedTrees.IndexedTree.InsertLeaves: of a refused batch whose stored values go beyond position 2^32 it says nothing.
- IndexedRuns.RunInserts: speaks of the state before the error, since a refused insert can leave the list ahead of the tree as the inserts themselves say; takes as a premise that plain inserts which fit the tree put their values below 2^32, since beyond it the list goes wrong as InsertLeaves says; SmallTreePositions gives a tree height for which there is nothing to see to.
- MutableTheorems.AppendKeeps: starts from an empty cache; a cache filled by a dry run of the same batch is DryRunThenCommit, one filled by a dry run of as many other leaves is StaleCache.CommitOfOther, and a cache left by anything else is not covered.
- MutableTrees.MutableTree.GetNode: node ids go through a library conversion to the database's integers that is not part of this model, and every 64-bit id is let through; at total height 63 ids from 2^63 on occur, the first of them as the sibling of the first leaf, and whether the conversion takes them is not modelled.
- MutableTrees.MutableTree.UpdateSubTree: node ids are unbounded; in a tall tree a stray index would overflow 64 bits on the walk below its slot.
- MutableTrees.MutableTree.GetMembershipProof: an index out of range is an error here; with debug logging on and no leaf given the source panics while writing the log line.
- Blocks.MakeBlock: that the insertion gadgets accept every valid record and every checked witness is a premise, since the gadgets are parameters; so is the membership of the historic roots that the transactions name.
- Blocks.BlockSound: that the nullifier gadget refuses all but checked witnesses, that the witnesses name consecutive sub-trees from the first free position, and that the hashes have no collisions are premises.
- WitnessSoundness.WitnessSound: freedom from collisions is taken literally, which numbers without an upper bound allow (WitnessSoundness.HashesExist); for a hash into a field, that collisions exist but cannot be found is not modelled.
- Rollup.DeciderBinds: takes freedom from collisions literally in the same way (Rollup.CircuitExists).
- LogFetcher.GetLogsPaginated: a chunk size of zero is outside its premises, and so is a last block equal to the largest block number unless the chunk size is unlimited; that case is LastBlockNeverEnds. Sleeping and logging have no effect on the result and are absent.
- SharedPaths.GenerateRandomPathsWithSharedRoot: at depths below two the four leaves cannot share a root.
- Conversions.ToWord: U256 and field types are numbers with explicit bounds; limb order is modelled, Montgomery form is not.
- VkCheck.GenerateVkCheckConstraint: primality of the field order is a premise.
- The default id of `store_leaf`, taken from a document count, and `is_leaf`, `get_all_leaves` and the reset of a tree: easy members.
- The decimal-string storage of the frontier: a plain sequence here.
- Poseidon, SHA-256, curve arithmetic, Plonk and the circuit gadgets for insertion proofs: hashes and insertion checks are parameters, and constraints are read as equations.
- `base_grumpkin_checks`, proving-key storage and the layout in which the recursion library joins outputs: the layout the merges read is the interface.
- Attestor, wallets, certificates, deployment, settings, REST routes and queues: plumbing around this core.
