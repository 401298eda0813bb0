/** Membership proofs and insertion records: what the mutable tree hands to the circuits. */
module Witness {
  import opened Basics
  import opened Fold
  import opened Heap
  import opened MutableSpec
  import opened MutableTheorems

  datatype CircuitInsertionInfo =
    CircuitInsertionInfo(oldRoot: Fr, newRoot: Fr, proof: MembershipProof, leafCount: nat, leaves: seq<Fr>)

  /** The checks on a requested leaf index. The range check computes `2^(height + 1)` in 64
      bits, so trees of total height 63 give no proofs. */
  function ProofError(meta: TreeMetadata, index: nat): Option<TreeError> {
    if meta.Height() + 1 >= U64_BITS then Some(HeightTooLarge)
    else if index + Pow2(meta.Height()) - 1 >= U64_RANGE then Some(Failed)
    else if index >= Pow2(meta.Height()) then Some(InvalidProof)
    else None
  }

  ghost function ProofPath(db: TreeDb, index: nat): seq<PathElement> {
    SiblingPath(db.View(), Pow2(db.meta.Height()) - 1 + index)
  }

  /** The proof for a stored node, which must be a leaf. */
  ghost function ProofOfNode(db: TreeDb, value: Fr, node: nat): Result<MembershipProof> {
    var first := Pow2(db.meta.Height()) - 1;
    if db.meta.Height() + 1 >= U64_BITS then Err(HeightTooLarge)
    else if node < first || node > 2 * first then Err(InvalidProof)
    else Ok(MembershipProof(value, ProofPath(db, node - first), node - first))
  }

  /** In a sound, clean tree every leaf folds up its proof to the stored root. */
  lemma {:induction false} ProofFolds(h: TreeHash, db: TreeDb, index: nat)
    requires Sound(h, db) && Clean(db) && index < Pow2(db.meta.Height())
    ensures FoldPath(h, Leaves(db)[index], ProofPath(db, index)) == db.meta.root
    ensures |ProofPath(db, index)| == db.meta.Height()
  {
    var i := Pow2(db.meta.Height()) - 1 + index;
    assert db.View() == db.nodes;
    CoherentFold(h, db.nodes, db.meta.Height(), i);
    SiblingPathLength(db.nodes, i, db.meta.Height());
  }

  /** A proof of a leaf of a tree: it holds the leaf's value and folds it up to the stored root, and
      has one element for each level, on the side that the leaf index names. */
  ghost predicate ValidProof(h: TreeHash, db: TreeDb, proof: MembershipProof) {
    && proof.leafIndex < Pow2(db.meta.Height()) && proof.nodeValue == Leaves(db)[proof.leafIndex]
    && FoldPath(h, proof.nodeValue, proof.siblingPath) == db.meta.root
    && |proof.siblingPath| == db.meta.Height()
    && forall l | 0 <= l < db.meta.Height() :: proof.siblingPath[l].direction == DirectionAt(proof.leafIndex, l)
  }

  lemma {:induction false} LeafProof(h: TreeHash, db: TreeDb, index: nat)
    requires Sound(h, db) && Clean(db) && index < Pow2(db.meta.Height())
    ensures ValidProof(h, db, MembershipProof(Leaves(db)[index], ProofPath(db, index), index))
    ensures Leaves(db)[index] == Get(db.View(), Pow2(db.meta.Height()) - 1 + index)
  {
    assert db.View() == db.nodes;
    ProofFolds(h, db, index);
    SlotDirections(db.View(), db.meta.Height(), index);
  }

  /** By index: exactly the leaves of a tree of total height below 63 have a proof. */
  lemma {:induction false} ProofByIndex(h: TreeHash, db: TreeDb, index: nat)
    requires Sound(h, db) && Clean(db)
    ensures ProofError(db.meta, index).None? <==> index < Pow2(db.meta.Height()) && db.meta.Height() < 63
    ensures db.meta.Height() >= 63 ==> ProofError(db.meta, index) == Some(HeightTooLarge)
    ensures db.meta.Height() < 63 && Pow2(db.meta.Height()) <= index <= U64_RANGE - Pow2(db.meta.Height()) ==>
              ProofError(db.meta, index) == Some(InvalidProof)
    ensures ProofError(db.meta, index).None? ==>
              && ValidProof(h, db, MembershipProof(Leaves(db)[index], ProofPath(db, index), index))
              && Leaves(db)[index] == Get(db.View(), Pow2(db.meta.Height()) - 1 + index)
  {
    Pow2Fits(db.meta.Height());
    if index < Pow2(db.meta.Height()) { LeafProof(h, db, index); }
  }

  /** By value, through a stored node that holds it: there is a proof exactly when that node is a leaf
      of a tree of total height below 63, and it is the proof of that leaf. */
  lemma {:induction false} ProofByValue(h: TreeHash, db: TreeDb, value: Fr, node: nat)
    requires Sound(h, db) && Clean(db) && node in db.nodes && db.nodes[node] == value
    ensures ProofOfNode(db, value, node).Ok? <==> node >= Pow2(db.meta.Height()) - 1 && db.meta.Height() < 63
    ensures ProofOfNode(db, value, node).Err? ==>
              ProofOfNode(db, value, node).error == if db.meta.Height() >= 63 then HeightTooLarge else InvalidProof
    ensures ProofOfNode(db, value, node).Ok? ==>
              var proof := ProofOfNode(db, value, node).value;
              && ValidProof(h, db, proof) && proof.nodeValue == value
              && proof.leafIndex == node - (Pow2(db.meta.Height()) - 1)
  {
    if Pow2(db.meta.Height()) - 1 <= node { LeafProof(h, db, node - (Pow2(db.meta.Height()) - 1)); }
  }

  /** The leaves hold this value and no node above them does. */
  ghost predicate HeldByLeavesAlone(db: TreeDb, value: Fr) {
    && value in db.nodes.Values
    && forall node | node in db.nodes && db.nodes[node] == value :: node >= Pow2(db.meta.Height()) - 1
  }

  ghost predicate HeldByNoLeaf(db: TreeDb, value: Fr) {
    forall node | node in db.nodes && db.nodes[node] == value :: node < Pow2(db.meta.Height()) - 1
  }

  /** What a lookup by value returns in a sound, clean tree, whichever stored node it finds. */
  lemma {:induction false} FoundByValue(h: TreeHash, db: TreeDb, value: Fr, node: nat, r: Result<MembershipProof>)
    requires Sound(h, db) && Clean(db) && node in db.nodes && db.nodes[node] == value
    requires r == ProofOfNode(db, value, node)
    ensures r.Ok? ==> ValidProof(h, db, r.value) && r.value.nodeValue == value && db.meta.Height() < 63
    ensures HeldByLeavesAlone(db, value) && db.meta.Height() < 63 ==> r.Ok?
    ensures HeldByNoLeaf(db, value) ==> r.Err?
  {
    ProofByValue(h, db, value, node);
  }

  /** Element `l` of a proof lies on the side that bit `l` of the leaf index names. */
  lemma {:induction false} ProofDirections(m: Nodes, d: nat, k: nat, l: nat)
    requires k < Pow2(d) && l < d
    ensures |SiblingPath(m, Pow2(d) - 1 + k)| == d
    ensures SiblingPath(m, Pow2(d) - 1 + k)[l].direction == DirectionAt(k, l)
    decreases d
  {
    var i := Pow2(d) - 1 + k;
    SiblingPathLength(m, i, d);
    RowParent(d, k);
    if l > 0 {
      ProofDirections(m, d - 1, k / 2, l - 1);
      ShrFront(k, l);
    }
  }

  lemma {:induction false} SlotDirections(m: Nodes, d: nat, k: nat)
    requires k < Pow2(d)
    ensures |SiblingPath(m, Pow2(d) - 1 + k)| == d
    ensures forall l | 0 <= l < d :: SiblingPath(m, Pow2(d) - 1 + k)[l].direction == DirectionAt(k, l)
  {
    SiblingPathLength(m, Pow2(d) - 1 + k, d);
    forall l | 0 <= l < d ensures SiblingPath(m, Pow2(d) - 1 + k)[l].direction == DirectionAt(k, l) {
      ProofDirections(m, d, k, l);
    }
  }

  /** Dropping the sub-tree's own levels from a leaf's path gives the slot's path. */
  lemma {:induction false} SlotPath(m: Nodes, d: nat, k: nat, e: nat)
    requires k < Pow2(d)
    ensures |SiblingPath(m, Pow2(d + e) - 1 + Shl(k, e))| == d + e
    ensures SiblingPath(m, Pow2(d + e) - 1 + Shl(k, e))[e..] == SiblingPath(m, Pow2(d) - 1 + k)
  {
    LastBlock(d, k, e);
    SiblingPathLength(m, Pow2(d + e) - 1 + Shl(k, e), d + e);
    PathAbove(m, Pow2(d + e) - 1 + Shl(k, e), e);
    BlockAncestor(d, k, e);
  }

  // ----- Inserting one sub-tree with its witness

  function InsertError(meta: TreeMetadata, n: nat): Option<TreeError> {
    if meta.subTreeHeight >= U64_BITS then Some(HeightTooLarge)
    else if n != meta.Capacity() then Some(IncorrectBatchSize)
    else ProofError(meta, meta.LeavesBelow(meta.subTreeCount))
  }

  ghost function InsertForCircuitSpec(h: TreeHash, db: TreeDb, leaves: seq<Fr>)
    : (TreeDb, Result<CircuitInsertionInfo>) {
    var meta := db.meta;
    match InsertError(meta, |leaves|)
    case Some(e) => (db, Err(e))
    case None =>
      var path := ProofPath(db, meta.LeavesBelow(meta.subTreeCount));
      var proof := MembershipProof(0, if meta.subTreeHeight <= |path| then path[meta.subTreeHeight..]
        else [], meta.subTreeCount);
      var (db', r) := AppendSpec(h, db, leaves, true);
      match r
      case Err(e) => (db', Err(e))
      case Ok((newRoot, _)) =>
        (db', Ok(CircuitInsertionInfo(meta.root, newRoot, proof, meta.LeavesBelow(meta.subTreeCount) + |leaves|,
          leaves)))
  }

  lemma {:induction false} InsertRuns(h: TreeHash, db: TreeDb, leaves: seq<Fr>, path: seq<PathElement>, db': TreeDb,
                                      r: Result<(Fr, nat)>)
    requires InsertError(db.meta, |leaves|).None? && (db', r) == AppendSpec(h, db, leaves, true)
    requires path == ProofPath(db, db.meta.LeavesBelow(db.meta.subTreeCount)) && db.meta.subTreeHeight <= |path|
    ensures InsertForCircuitSpec(h, db, leaves) == (db',
              if r.Err? then Err(r.error)
              else Ok(CircuitInsertionInfo(db.meta.root, r.value.0,
                                           MembershipProof(0, path[db.meta.subTreeHeight..], db.meta.subTreeCount),
                                           db.meta.LeavesBelow(db.meta.subTreeCount) + |leaves|, leaves)))
  {
  }

  /** What a circuit checks of a record: zero folds up the proof to the old root, the new
      sub-tree's root folds up the same proof to the new root, and the proof is for the slot
      it names. */
  ghost predicate ValidRecord(h: TreeHash, d: nat, e: nat, info: CircuitInsertionInfo) {
    && |info.leaves| == Pow2(e)
    && |info.proof.siblingPath| == d
    && info.proof.nodeValue == 0 && info.proof.leafIndex < Pow2(d)
    && info.leafCount == Shl(info.proof.leafIndex + 1, e)
    && (forall l | 0 <= l < d :: info.proof.siblingPath[l].direction == DirectionAt(info.proof.leafIndex, l))
    && FoldPath(h, 0, info.proof.siblingPath) == info.oldRoot
    && FoldPath(h, SubRoot(h, info.leaves, e, 0), info.proof.siblingPath) == info.newRoot
  }

  /** Appending a single sub-tree hashes its root up the siblings in view. */
  lemma {:induction false} AppendSingle(h: TreeHash, db: TreeDb, leaves: seq<Fr>)
    requires Sound(h, db) && Clean(db) && |leaves| == db.meta.Capacity()
    requires db.meta.subTreeCount < Pow2(db.meta.treeHeight)
    ensures var (db', r) := AppendSpec(h, db, leaves, true);
            && r.Ok? && db'.meta.subTreeCount == db.meta.subTreeCount + 1
            && r.value.0 == FoldPath(h, SubRoot(h, leaves, db.meta.subTreeHeight, 0),
                                     SiblingPath(db.nodes, Pow2(db.meta.treeHeight) - 1 + db.meta.subTreeCount))
  {
    var meta, count, cap := db.meta, db.meta.subTreeCount, db.meta.Capacity();
    assert db.View() == db.nodes && meta.Slots(|leaves|) == 1 && leaves[..cap] == leaves && leaves[cap..] == [];
    AppendOneHash(h, db, count, leaves, true);
    CompleteTreeRoot(h, meta.subTreeHeight, leaves);
    var (db1, hash) := AppendOneSpec(h, db, count, leaves, true);
    AppendLoopStep(h, db, count, leaves, cap, 0, true, db1, hash);
    AppendCommits(h, db, leaves, db1, hash, meta.Grown(|leaves|, hash));
  }

  lemma {:induction false} UnusedLeaf(db: TreeDb, x: nat)
    requires UnusedZero(db) && Used(db) <= x < Pow2(db.meta.Height())
    ensures Get(db.nodes, Pow2(db.meta.Height()) - 1 + x) == 0
  {
    assert Leaves(db)[x] == 0;
  }

  lemma {:induction false} EmptySlotIsZero(h: TreeHash, db: TreeDb)
    requires Sound(h, db) && UnusedZero(db) && db.meta.subTreeCount < Pow2(db.meta.treeHeight)
    ensures Get(db.nodes, Pow2(db.meta.treeHeight) - 1 + db.meta.subTreeCount) == 0
  {
    var d, k, e := db.meta.treeHeight, db.meta.subTreeCount, db.meta.subTreeHeight;
    LastBlock(d, k, e);
    forall t: nat | t < Pow2(e) ensures Leaf([], t) == Get(db.nodes, Pow2(d + e) - 1 + (Shl(k, e) + t)) {
      UnusedLeaf(db, Shl(k, e) + t);
    }
    SlotRoot(h, db.nodes, d, k, e, []);
    CompleteTreeRoot(h, e, []);
    EmptyTree(h, e, 0);
  }

  /** Every record handed out is valid, runs from the stored root before to the one after, and
      the operation fails exactly when the length is wrong, the tree full or too tall. */
  lemma {:induction false} InsertForCircuitRecord(h: TreeHash, db: TreeDb, leaves: seq<Fr>)
    requires Sound(h, db) && Clean(db) && UnusedZero(db)
    ensures var (db', r) := InsertForCircuitSpec(h, db, leaves);
            && Sound(h, db') && Clean(db') && UnusedZero(db')
            && (r.Ok? <==> && |leaves| == db.meta.Capacity() && db.meta.Height() < 63
                           && db.meta.subTreeCount < Pow2(db.meta.treeHeight))
            && (r.Err? ==> db' == db)
    ensures var (db', r) := InsertForCircuitSpec(h, db, leaves);
            r.Ok? ==>
              && db' == AppendSpec(h, db, leaves, true).0
              && db'.meta.treeHeight == db.meta.treeHeight && db'.meta.subTreeHeight == db.meta.subTreeHeight
              && ValidRecord(h, db.meta.treeHeight, db.meta.subTreeHeight, r.value)
              && r.value.oldRoot == db.meta.root && r.value.newRoot == db'.meta.root
              && r.value.leaves == leaves && r.value.leafCount == Used(db') == Used(db) + |leaves|
              && r.value.proof.leafIndex == db.meta.subTreeCount
  {
    var meta := db.meta;
    ShlIsProduct(meta.subTreeCount, meta.subTreeHeight);
    CountIsFull(h, db);
    if InsertError(meta, |leaves|).None? {
      RecordFolds(h, db, leaves);
      AppendSingle(h, db, leaves);
      AppendKeeps(h, db, leaves);
      AppendRoot(h, db, leaves);
      NextBlock(meta.subTreeCount, meta.subTreeHeight);
    }
  }

  /** Which error an insert with a record returns: for its length first, then because the tree is too
      tall to give proofs, then because the next slot is not there. */
  lemma {:induction false} InsertForCircuitErrors(h: TreeHash, db: TreeDb, leaves: seq<Fr>)
    requires Sound(h, db) && Clean(db) && UnusedZero(db) && InsertForCircuitSpec(h, db, leaves).1.Err?
    ensures InsertForCircuitSpec(h, db, leaves).1.error
            == if |leaves| != db.meta.Capacity() then IncorrectBatchSize
               else if db.meta.Height() >= 63 then HeightTooLarge
               else InvalidProof
  {
    ShlIsProduct(db.meta.subTreeCount, db.meta.subTreeHeight);
    CountIsFull(h, db);
    InsertForCircuitRecord(h, db, leaves);
    assert InsertError(db.meta, |leaves|).Some?;
  }

  lemma {:induction false} CountIsFull(h: TreeHash, db: TreeDb)
    requires Sound(h, db)
    ensures Used(db) < Pow2(db.meta.Height()) <==> db.meta.subTreeCount < Pow2(db.meta.treeHeight)
    ensures Used(db) + Pow2(db.meta.Height()) <= U64_RANGE
  {
    UsedInRange(h, db);
    if db.meta.subTreeCount < Pow2(db.meta.treeHeight) {
      LastBlock(db.meta.treeHeight, db.meta.subTreeCount, db.meta.subTreeHeight);
    } else {
      ShlPow2(db.meta.treeHeight, db.meta.subTreeHeight);
    }
    Pow2Fits(db.meta.Height());
  }

  lemma {:induction false} RecordFolds(h: TreeHash, db: TreeDb, leaves: seq<Fr>)
    requires Sound(h, db) && Clean(db) && UnusedZero(db) && |leaves| == db.meta.Capacity()
    requires db.meta.subTreeCount < Pow2(db.meta.treeHeight)
    ensures |ProofPath(db, Used(db))| == db.meta.Height()
    ensures var path := ProofPath(db, Used(db))[db.meta.subTreeHeight..];
            && path == SiblingPath(db.nodes, Pow2(db.meta.treeHeight) - 1 + db.meta.subTreeCount)
            && FoldPath(h, 0, path) == db.meta.root
            && (forall l | 0 <= l < db.meta.treeHeight :: path[l].direction == DirectionAt(db.meta.subTreeCount, l))
  {
    RecordPath(db);
    SlotFolds(h, db);
    SlotDirections(db.nodes, db.meta.treeHeight, db.meta.subTreeCount);
  }

  lemma {:induction false} RecordPath(db: TreeDb)
    requires Clean(db) && db.meta.subTreeCount < Pow2(db.meta.treeHeight)
    ensures |ProofPath(db, Used(db))| == db.meta.Height()
    ensures ProofPath(db, Used(db))[db.meta.subTreeHeight..]
            == SiblingPath(db.nodes, Pow2(db.meta.treeHeight) - 1 + db.meta.subTreeCount)
  {
    assert db.View() == db.nodes;
    SlotPath(db.nodes, db.meta.treeHeight, db.meta.subTreeCount, db.meta.subTreeHeight);
  }

  lemma {:induction false} SlotFolds(h: TreeHash, db: TreeDb)
    requires Sound(h, db) && UnusedZero(db) && db.meta.subTreeCount < Pow2(db.meta.treeHeight)
    ensures FoldPath(h, 0, SiblingPath(db.nodes, Pow2(db.meta.treeHeight) - 1 + db.meta.subTreeCount)) == db.meta.root
  {
    EmptySlotIsZero(h, db);
    Pow2Mono(db.meta.treeHeight, db.meta.Height());
    CoherentFold(h, db.nodes, db.meta.Height(), Pow2(db.meta.treeHeight) - 1 + db.meta.subTreeCount);
  }

  // ----- Batches of sub-trees

  /** Inserts each whole chunk in turn, collecting the records; a failing insert panics. */
  ghost function BatchLoop(h: TreeHash, db: TreeDb, leaves: seq<Fr>, infos: seq<CircuitInsertionInfo>)
    : (TreeDb, Result<seq<CircuitInsertionInfo>>)
    decreases |leaves|
  {
    var cap := db.meta.Capacity();
    if |leaves| < cap then (db, Ok(infos))
    else
      var (db', r) := InsertForCircuitSpec(h, db, leaves[..cap]);
      if r.Err? then (db', Err(Panicked)) else BatchLoop(h, db', leaves[cap..], infos + [r.value])
  }

  lemma {:induction false} BatchLoopStep(h: TreeHash, db: TreeDb, rest: seq<Fr>, infos: seq<CircuitInsertionInfo>,
                                         db': TreeDb, r: Result<CircuitInsertionInfo>)
    requires |rest| >= db.meta.Capacity()
    requires (db', r) == InsertForCircuitSpec(h, db, rest[..db.meta.Capacity()])
    ensures db'.meta.Capacity() == db.meta.Capacity()
    ensures BatchLoop(h, db, rest, infos)
            == if r.Err? then (db', Err(Panicked)) else BatchLoop(h, db', rest[db.meta.Capacity()..], infos + [r.value])
  {
    AppendKeepsShape(h, db, rest[..db.meta.Capacity()], true);
  }

  /** No append changes the heights. */
  lemma {:induction false} AppendKeepsShape(h: TreeHash, db: TreeDb, leaves: seq<Fr>, updateTree: bool)
    ensures AppendSpec(h, db, leaves, updateTree).0.meta.treeHeight == db.meta.treeHeight
    ensures AppendSpec(h, db, leaves, updateTree).0.meta.subTreeHeight == db.meta.subTreeHeight
  {
    AppendLoopKeepsMeta(h, db, db.meta.subTreeCount, leaves, 0, updateTree);
  }

  lemma {:induction false} AppendLoopKeepsMeta(h: TreeHash, db: TreeDb, count: nat, leaves: seq<Fr>, hash: Fr,
                                               updateTree: bool)
    ensures AppendLoop(h, db, count, leaves, hash, updateTree).0.meta == db.meta
    decreases |leaves|
  {
    var cap := db.meta.Capacity();
    if |leaves| >= cap {
      var (db1, hash1) := AppendOneSpec(h, db, count, leaves[..cap], updateTree);
      AppendLoopStep(h, db, count, leaves, cap, hash, updateTree, db1, hash1);
      AppendLoopKeepsMeta(h, db1, count + 1, leaves[cap..], hash1, updateTree);
    }
  }

  /** A chain of valid records from one root to another. */
  ghost predicate Chained(h: TreeHash, d: nat, e: nat, from: Fr, infos: seq<CircuitInsertionInfo>, to: Fr)
    decreases |infos|
  {
    if infos == [] then from == to
    else
      var last := infos[|infos| - 1];
      last.newRoot == to && ValidRecord(h, d, e, last) && Chained(h, d, e, from, infos[..|infos| - 1], last.oldRoot)
  }

  lemma {:induction false} ChainSnoc(h: TreeHash, d: nat, e: nat, from: Fr, infos: seq<CircuitInsertionInfo>,
                                     info: CircuitInsertionInfo)
    requires Chained(h, d, e, from, infos, info.oldRoot) && ValidRecord(h, d, e, info)
    ensures Chained(h, d, e, from, infos + [info], info.newRoot)
  {
    assert (infos + [info])[..|infos|] == infos;
  }

  /** The leaves of some records, in order. */
  ghost function RecordLeaves(infos: seq<CircuitInsertionInfo>): seq<Fr> {
    if infos == [] then [] else RecordLeaves(infos[..|infos| - 1]) + infos[|infos| - 1].leaves
  }

  lemma {:induction false} RecordLeavesSnoc(infos: seq<CircuitInsertionInfo>, info: CircuitInsertionInfo)
    ensures RecordLeaves(infos + [info]) == RecordLeaves(infos) + info.leaves
  {
    assert (infos + [info])[..|infos|] == infos;
  }

  /** The records are for consecutive slots from `count` on. */
  ghost predicate SlotsFrom(infos: seq<CircuitInsertionInfo>, count: nat) {
    forall k | 0 <= k < |infos| :: infos[k].proof.leafIndex == count + k
  }

  /** The records hold exactly `leaves`, for consecutive slots from `count` on. */
  ghost predicate RecordsHold(infos: seq<CircuitInsertionInfo>, count: nat, leaves: seq<Fr>) {
    RecordLeaves(infos) == leaves && SlotsFrom(infos, count)
  }

  /** The bottom row of `db'` is that of `db` with the first of `leaves` put in after the claimed
      ones, as many as have been claimed since. */
  ghost predicate TookFirst(db: TreeDb, db': TreeDb, leaves: seq<Fr>) {
    && Used(db) <= Used(db') <= Used(db) + |leaves| && Used(db') <= |Leaves(db)|
    && Leaves(db') == Splice(Leaves(db), Used(db), leaves[..Used(db') - Used(db)])
  }

  lemma {:induction false} TookNone(db: TreeDb, leaves: seq<Fr>)
    requires Used(db) <= |Leaves(db)|
    ensures TookFirst(db, db, leaves)
  {
  }

  lemma {:induction false} TookMore(db: TreeDb, db1: TreeDb, db2: TreeDb, chunk: seq<Fr>, rest: seq<Fr>,
                                    leaves: seq<Fr>)
    requires leaves == chunk + rest && Used(db1) == Used(db) + |chunk| && |Leaves(db1)| == |Leaves(db)|
    requires TookFirst(db, db1, chunk) && TookFirst(db1, db2, rest)
    ensures TookFirst(db, db2, leaves)
  {
    var n := Used(db2) - Used(db1);
    SpliceTwice(Leaves(db), Used(db), chunk, rest[..n]);
    assert leaves[..|chunk| + n] == chunk + rest[..n];
    assert chunk[..|chunk|] == chunk;
  }

  /** Part of the way through a batch: the records so far chain `from` to the stored root and hold what
      has been done since `count` slots were claimed. */
  ghost predicate BatchReady(h: TreeHash, db: TreeDb, from: Fr, count: nat, done: seq<Fr>,
                             infos: seq<CircuitInsertionInfo>) {
    && Sound(h, db) && Clean(db) && UnusedZero(db) && Used(db) <= Pow2(db.meta.Height())
    && Chained(h, db.meta.treeHeight, db.meta.subTreeHeight, from, infos, db.meta.root)
    && RecordsHold(infos, count, done) && db.meta.subTreeCount == count + |infos|
  }

  /** What the rest of a batch leads to: it goes in exactly when there is room for all of it in a tree
      that gives records, otherwise as far as there is; the tree holds it after what it held, and the
      records hold it in order, each valid and for the next slot, chained root to root. */
  ghost predicate BatchOutcome(h: TreeHash, db: TreeDb, leaves: seq<Fr>, from: Fr, count: nat, done: seq<Fr>,
                               db': TreeDb, r: Result<seq<CircuitInsertionInfo>>) {
    && Sound(h, db') && Clean(db') && UnusedZero(db') && TookFirst(db, db', leaves)
    && db'.meta.treeHeight == db.meta.treeHeight && db'.meta.subTreeHeight == db.meta.subTreeHeight
    && (r.Ok? <==> leaves == [] || (Used(db) + |leaves| <= Pow2(db.meta.Height()) && db.meta.Height() < 63))
    && Used(db') == (if r.Ok? then Used(db) + |leaves| else if db.meta.Height() < 63 then Pow2(db.meta.Height())
                     else Used(db))
    && (r.Ok? ==> BatchReady(h, db', from, count, done + leaves, r.value)) && (r.Err? ==> r.error == Panicked)
  }

  /** One more sub-tree, unless the tree is full or gives no records. */
  lemma {:induction false} BatchStep(h: TreeHash, db: TreeDb, chunk: seq<Fr>, from: Fr, count: nat, done: seq<Fr>,
                                     infos: seq<CircuitInsertionInfo>, db1: TreeDb, r: Result<CircuitInsertionInfo>)
    requires BatchReady(h, db, from, count, done, infos) && |chunk| == db.meta.Capacity()
    requires (db1, r) == InsertForCircuitSpec(h, db, chunk)
    ensures r.Ok? <==> Used(db) < Pow2(db.meta.Height()) && db.meta.Height() < 63
    ensures r.Err? ==> db1 == db
    ensures r.Ok? ==>
              && BatchReady(h, db1, from, count, done + chunk, infos + [r.value]) && TookFirst(db, db1, chunk)
              && Used(db1) == Used(db) + |chunk| && db1.meta.Height() == db.meta.Height()
              && db1.meta.treeHeight == db.meta.treeHeight && db1.meta.subTreeHeight == db.meta.subTreeHeight
  {
    CountIsFull(h, db);
    InsertForCircuitRecord(h, db, chunk);
    if r.Ok? {
      UsedInRange(h, db1);
      AppendSingle(h, db, chunk);
      AppendKeeps(h, db, chunk);
      assert chunk[..|chunk|] == chunk;
      ChainSnoc(h, db.meta.treeHeight, db.meta.subTreeHeight, from, infos, r.value);
      RecordLeavesSnoc(infos, r.value);
    }
  }

  lemma {:induction false} BatchEnds(h: TreeHash, db: TreeDb, from: Fr, count: nat, done: seq<Fr>,
                                     infos: seq<CircuitInsertionInfo>)
    requires BatchReady(h, db, from, count, done, infos)
    ensures BatchOutcome(h, db, [], from, count, done, db, Ok(infos))
  {
    TookNone(db, []);
    assert done + [] == done;
  }

  lemma {:induction false} BatchStops(h: TreeHash, db: TreeDb, leaves: seq<Fr>, from: Fr, count: nat, done: seq<Fr>,
                                      infos: seq<CircuitInsertionInfo>)
    requires BatchReady(h, db, from, count, done, infos) && leaves != []
    requires Used(db) >= Pow2(db.meta.Height()) || db.meta.Height() >= 63
    ensures BatchOutcome(h, db, leaves, from, count, done, db, Err(Panicked))
  {
    TookNone(db, leaves);
  }

  lemma {:induction false} BatchGoesOn(h: TreeHash, db: TreeDb, chunk: seq<Fr>, rest: seq<Fr>, from: Fr, count: nat,
                                       done: seq<Fr>, db1: TreeDb, db': TreeDb, r: Result<seq<CircuitInsertionInfo>>)
    requires chunk != [] && TookFirst(db, db1, chunk) && Used(db1) == Used(db) + |chunk| <= Pow2(db.meta.Height())
    requires db1.meta.treeHeight == db.meta.treeHeight && db1.meta.subTreeHeight == db.meta.subTreeHeight
    requires db.meta.Height() < 63 && BatchOutcome(h, db1, rest, from, count, done + chunk, db', r)
    ensures BatchOutcome(h, db, chunk + rest, from, count, done, db', r)
  {
    TookMore(db, db1, db', chunk, rest, chunk + rest);
    assert (done + chunk) + rest == done + (chunk + rest);
  }

  lemma {:induction false} BatchChain(h: TreeHash, db: TreeDb, leaves: seq<Fr>, from: Fr, count: nat, done: seq<Fr>,
                                      infos: seq<CircuitInsertionInfo>)
    returns (db': TreeDb, r: Result<seq<CircuitInsertionInfo>>)
    requires BatchReady(h, db, from, count, done, infos) && Whole(|leaves|, db.meta.Capacity())
    ensures (db', r) == BatchLoop(h, db, leaves, infos)
    ensures BatchOutcome(h, db, leaves, from, count, done, db', r)
    decreases |leaves|
  {
    var cap := db.meta.Capacity();
    if |leaves| < cap {
      BatchEnds(h, db, from, count, done, infos);
      return db, Ok(infos);
    }
    var chunk, rest := leaves[..cap], leaves[cap..];
    assert leaves == chunk + rest;
    var (db1, r1) := InsertForCircuitSpec(h, db, chunk);
    BatchStep(h, db, chunk, from, count, done, infos, db1, r1);
    BatchLoopStep(h, db, leaves, infos, db1, r1);
    if r1.Err? {
      BatchStops(h, db, leaves, from, count, done, infos);
      return db1, Err(Panicked);
    }
    db', r := BatchChain(h, db1, rest, from, count, done + chunk, infos + [r1.value]);
    BatchGoesOn(h, db, chunk, rest, from, count, done, db1, db', r);
  }

  /** A tree of total height 63 takes a sub-tree but gives no record of it. */
  lemma {:induction false} TallTreeGivesNoRecord(h: TreeHash, v: Fr)
    ensures AppendSpec(h, EmptyDb(63, 0), [v], true).1.Ok?
    ensures InsertForCircuitSpec(h, EmptyDb(63, 0), [v]) == (EmptyDb(63, 0), Err(HeightTooLarge))
  {
    EmptyIsSound(h, 63, 0);
    AppendAccepts(h, EmptyDb(63, 0), [v]);
    RefusedUnchanged(h, EmptyDb(63, 0), [v], HeightTooLarge);
  }

  lemma {:induction false} RefusedUnchanged(h: TreeHash, db: TreeDb, leaves: seq<Fr>, e: TreeError)
    requires InsertError(db.meta, |leaves|) == Some(e)
    ensures InsertForCircuitSpec(h, db, leaves) == (db, Err(e))
  {
  }

  // ----- Proofs read after a dry run

  /** A dry run of one leaf goes through exactly in a tree of single-leaf slots with one to spare, and
      the proof of the next slot read after it folds zero to the stored root and the new leaf to the
      root of the dry run. */
  lemma {:induction false} DryProof(h: TreeHash, db: TreeDb, v: Fr, dry: TreeDb, r: Result<(Fr, nat)>)
    requires Sound(h, db) && Clean(db) && UnusedZero(db) && (dry, r) == AppendSpec(h, db, [v], false)
    ensures r.Ok? <==> db.meta.subTreeHeight == 0 && db.meta.subTreeCount < Pow2(db.meta.treeHeight)
    ensures dry.meta == db.meta && dry.nodes == db.nodes && (r.Err? ==> dry == db)
    ensures r.Ok? ==>
              var path := ProofPath(dry, db.meta.subTreeCount);
              && FoldPath(h, 0, path) == db.meta.root && FoldPath(h, v, path) == r.value.0
              && Get(dry.View(), Pow2(db.meta.Height()) - 1 + db.meta.subTreeCount) == v
  {
    var count := db.meta.subTreeCount;
    DryAccepted(h, db, v);
    if db.meta.subTreeHeight == 0 && count < Pow2(db.meta.treeHeight) {
      var (db1, hash) := AppendOneSpec(h, db, count, [v], false);
      DryAppendsOne(h, db, v, db1, hash);
      DryPath(h, db, v, db1, hash);
      DryLeaf(h, db, count, v, db1, Pow2(db.meta.treeHeight) - 1 + count);
    }
  }

  lemma {:induction false} DryAccepted(h: TreeHash, db: TreeDb, v: Fr)
    requires Sound(h, db)
    ensures AppendError(db.meta, 1).None? <==>
              db.meta.subTreeHeight == 0 && db.meta.subTreeCount < Pow2(db.meta.treeHeight)
    ensures AppendError(db.meta, 1).Some? ==>
              AppendSpec(h, db, [v], false) == (db, Err(AppendError(db.meta, 1).value))
  {
    assert 1 % db.meta.Capacity() == 0 <==> db.meta.subTreeHeight == 0;
    assert db.meta.subTreeHeight == 0 ==> db.meta.Slots(1) == 1;
  }

  lemma {:induction false} DryAppendsOne(h: TreeHash, db: TreeDb, v: Fr, db1: TreeDb, hash: Fr)
    requires db.meta.subTreeHeight == 0 && AppendError(db.meta, 1).None?
    requires (db1, hash) == AppendOneSpec(h, db, db.meta.subTreeCount, [v], false)
    ensures AppendSpec(h, db, [v], false) == (db1, Ok((hash, db.meta.LeavesBelow(db.meta.subTreeCount))))
  {
    assert [v][..1] == [v] && [v][1..] == [];
    AppendLoopStep(h, db, db.meta.subTreeCount, [v], 1, 0, false, db1, hash);
    AppendDry(h, db, [v], db1, hash);
  }

  lemma {:induction false} DryView(h: TreeHash, db: TreeDb, count: nat, batch: seq<Fr>, dry: TreeDb, r: nat,
                                   sub: seq<Fr>)
    requires count < Pow2(db.meta.treeHeight) && r == Pow2(db.meta.treeHeight) - 1 + count
    requires sub == CompleteTree(h, db.meta.subTreeHeight, batch)
    requires dry == AppendOneSpec(h, db, count, batch, false).0
    ensures dry.View() == Written(h, db.View(), r, sub) && dry.nodes == db.nodes
  {
    AppendOneWrites(h, db, count, batch, false, r, sub);
    PutIsVisible(db, SubTreeWrites(h, db.View(), r, sub), false);
  }

  lemma {:induction false} DryLeaf(h: TreeHash, db: TreeDb, count: nat, v: Fr, dry: TreeDb, r: nat)
    requires db.meta.subTreeHeight == 0 && count < Pow2(db.meta.treeHeight)
    requires r == Pow2(db.meta.treeHeight) - 1 + count && dry == AppendOneSpec(h, db, count, [v], false).0
    ensures Get(dry.View(), r) == v
  {
    var sub := CompleteTree(h, 0, [v]);
    DryView(h, db, count, [v], dry, r, sub);
    WrittenInside(h, db.View(), r, sub, r);
    CompleteTreeRoot(h, 0, [v]);
  }

  lemma {:induction false} DryPath(h: TreeHash, db: TreeDb, v: Fr, dry: TreeDb, hash: Fr)
    requires Sound(h, db) && Clean(db) && UnusedZero(db) && db.meta.subTreeHeight == 0
    requires db.meta.subTreeCount < Pow2(db.meta.treeHeight)
    requires (dry, hash) == AppendOneSpec(h, db, db.meta.subTreeCount, [v], false)
    ensures dry.meta == db.meta && dry.nodes == db.nodes
    ensures FoldPath(h, 0, ProofPath(dry, db.meta.subTreeCount)) == db.meta.root
    ensures FoldPath(h, v, ProofPath(dry, db.meta.subTreeCount)) == hash
  {
    var count, r := db.meta.subTreeCount, Pow2(db.meta.treeHeight) - 1 + db.meta.subTreeCount;
    var sub := CompleteTree(h, 0, [v]);
    assert db.View() == db.nodes;
    CompleteTreeRoot(h, 0, [v]);
    AppendOneHash(h, db, count, [v], false);
    DryView(h, db, count, [v], dry, r, sub);
    OwnPathKept(h, db.nodes, r, sub);
    SlotFolds(h, db);
  }
}
