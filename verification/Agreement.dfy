/** Different ways of doing the same thing, run side by side. */
module Agreement {
  import opened Basics
  import opened Fold
  import opened Heap
  import opened MutableSpec
  import opened MutableTheorems
  import opened IndexedSpec
  import opened ImtWitness
  import opened Positions
  import opened StoreSteps
  import opened AppendOnly
  import opened MutableTrees
  import opened IndexedTrees

  /** The two trees have seen the same leaves and have the same total height, however each of
      them splits it into tree and sub-trees. */
  ghost predicate InStep(a: AppendOnlyTree, m: MutableTree)
    reads a, m
  {
    && a.Valid() && Sound(m.h, m.Db()) && Clean(m.Db()) && UnusedZero(m.Db())
    && a.h == m.h && a.meta.Height() == m.meta.Height()
    && Used(m.Db()) <= Pow2(m.meta.Height()) && a.leaves == Leaves(m.Db())[..Used(m.Db())]
  }

  /** Trees in step hold the same root. */
  lemma {:induction false} SameRoot(a: AppendOnlyTree, m: MutableTree)
    requires InStep(a, m)
    ensures a.meta.root == m.meta.root
  {
    SoundRootOfUsed(m.h, m.Db());
  }

  /** Fresh trees of the same total height are in step. */
  lemma {:induction false} FreshInStep(a: AppendOnlyTree, m: MutableTree)
    requires a.Valid() && a.h == m.h && a.leaves == [] && a.meta.Height() == m.meta.Height() < U64_BITS
    requires m.Db() == EmptyDb(m.meta.treeHeight, m.meta.subTreeHeight)
    ensures InStep(a, m)
  {
    EmptyIsSound(m.h, m.meta.treeHeight, m.meta.subTreeHeight);
    ShlOne(m.meta.subTreeHeight);
  }

  /** When each kind of tree takes `n` more leaves: the append-only tree must not be filled. */
  ghost predicate AppendOnlyTakes(subTreeHeight: nat, height: nat, used: nat, n: nat) {
    n % Pow2(subTreeHeight) == 0 && used + n < Pow2(height)
  }

  ghost predicate MutableTakes(subTreeHeight: nat, height: nat, used: nat, n: nat) {
    n % Pow2(subTreeHeight) == 0 && used + n <= Pow2(height)
  }

  /** Slots left and leaves left are the same thing. */
  lemma {:induction false} RoomInLeaves(meta: TreeMetadata, used: nat, n: nat)
    requires used == Shl(meta.subTreeCount, meta.subTreeHeight)
    ensures n % meta.Capacity() == 0 && meta.subTreeCount + meta.Slots(n) < Pow2(meta.treeHeight)
            <==> AppendOnlyTakes(meta.subTreeHeight, meta.Height(), used, n)
    ensures n % meta.Capacity() == 0 && meta.subTreeCount + meta.Slots(n) <= Pow2(meta.treeHeight)
            <==> MutableTakes(meta.subTreeHeight, meta.Height(), used, n)
  {
    if n % meta.Capacity() == 0 {
      ClaimedLeaves(meta.subTreeCount, n, meta.subTreeHeight);
      BlocksInOrder(meta.treeHeight, meta.subTreeCount + meta.Slots(n), meta.subTreeHeight);
    }
  }

  lemma {:induction false} BlocksInOrder(d: nat, k: nat, e: nat)
    ensures k < Pow2(d) <==> Shl(k, e) < Pow2(d + e)
    ensures k <= Pow2(d) <==> Shl(k, e) <= Pow2(d + e)
  {
    ShlPow2(d, e);
    if k < Pow2(d) {
      LastBlock(d, k, e);
    } else if k > Pow2(d) {
      NextBlock(Pow2(d), e);
      ShlMono(Pow2(d) + 1, k, e);
    }
  }

  /** Fed the same batch, an append-only and a mutable tree refuse it each for its own reasons; if
      neither does they return the same root and stay in step. */
  method AppendBoth(a: AppendOnlyTree, m: MutableTree, batch: seq<Fr>) returns (ra: Result<Fr>, rm: Result<(Fr, nat)>)
    requires InStep(a, m)
    modifies a, m
    ensures ra.Ok? <==> AppendOnlyTakes(a.meta.subTreeHeight, a.meta.Height(), |old(a.leaves)|, |batch|)
    ensures rm.Ok? <==> MutableTakes(m.meta.subTreeHeight, m.meta.Height(), |old(a.leaves)|, |batch|)
    ensures SameHeights(a.meta, old(a.meta)) && SameHeights(m.meta, old(m.meta))
    ensures ra.Ok? ==> ra.value == SubRoot(a.h, old(a.leaves) + batch, a.meta.Height(), 0)
    ensures ra.Ok? && rm.Ok? ==> ra.value == rm.value.0 && InStep(a, m) && a.leaves == old(a.leaves) + batch
  {
    ghost var db := m.Db();
    RoomInLeaves(a.meta, |a.leaves|, |batch|);
    RoomInLeaves(m.meta, |a.leaves|, |batch|);
    AppendKeeps(m.h, db, batch);
    rm := m.AppendSubTrees(batch, true);
    ra := a.AppendSubTrees(batch, true);
    if ra.Ok? && rm.Ok? {
      AppendRoot(m.h, db, batch);
      assert Leaves(m.Db())[..Used(m.Db())] == Leaves(db)[..Used(db)] + batch;
    }
  }

  ghost predicate SameHeights(a: TreeMetadata, b: TreeMetadata) {
    a.treeHeight == b.treeHeight && a.subTreeHeight == b.subTreeHeight
  }

  /** The leaves of the first batches. */
  ghost function Concat(batches: seq<seq<Fr>>): seq<Fr> {
    if batches == [] then [] else Concat(batches[..|batches| - 1]) + batches[|batches| - 1]
  }

  /** Batch `k` fits both trees, each with its own size of sub-tree. */
  ghost predicate BothTake(subA: nat, subM: nat, height: nat, batches: seq<seq<Fr>>, k: nat)
    requires k < |batches|
  {
    var used, n := |Concat(batches[..k])|, |batches[k]|;
    AppendOnlyTakes(subA, height, used, n) && MutableTakes(subM, height, used, n)
  }

  /** After batch `k` both trees returned the complete fold of all the leaves up to it. */
  ghost predicate RootAfter(h: TreeHash, height: nat, batches: seq<seq<Fr>>, k: nat, rootA: Fr, rootM: Fr)
    requires k < |batches|
  {
    rootA == rootM == SubRoot(h, Concat(batches[..k + 1]), height, 0)
  }

  ghost predicate RootsAgree(h: TreeHash, subA: nat, subM: nat, height: nat, batches: seq<seq<Fr>>, rootsA: seq<Fr>,
                             rootsM: seq<Fr>) {
    && |rootsA| == |rootsM| <= |batches|
    && (forall k | 0 <= k < |rootsA| :: BothTake(subA, subM, height, batches, k))
    && (forall k | 0 <= k < |rootsA| :: RootAfter(h, height, batches, k, rootsA[k], rootsM[k]))
  }

  lemma {:induction false} RootsSnoc(h: TreeHash, subA: nat, subM: nat, height: nat, batches: seq<seq<Fr>>,
                                     rootsA: seq<Fr>, rootsM: seq<Fr>, root: Fr)
    requires RootsAgree(h, subA, subM, height, batches, rootsA, rootsM) && |rootsA| < |batches|
    requires BothTake(subA, subM, height, batches, |rootsA|) && RootAfter(h, height, batches, |rootsA|, root, root)
    ensures RootsAgree(h, subA, subM, height, batches, rootsA + [root], rootsM + [root])
  {
  }

  lemma {:induction false} ConcatNext(batches: seq<seq<Fr>>, k: nat)
    requires k < |batches|
    ensures Concat(batches[..k + 1]) == Concat(batches[..k]) + batches[k]
  {
    assert batches[..k + 1][..k] == batches[..k];
  }

  /** Trees in step, of the given shape, that have had the first `k` batches. */
  ghost predicate Fed(a: AppendOnlyTree, m: MutableTree, h: TreeHash, subA: nat, subM: nat, height: nat,
                      batches: seq<seq<Fr>>, k: nat)
    requires k <= |batches|
    reads a, m
  {
    && InStep(a, m) && a.h == h && a.leaves == Concat(batches[..k])
    && a.meta.subTreeHeight == subA && m.meta.subTreeHeight == subM && a.meta.Height() == height
  }

  /** Feeds them the next one. */
  method FeedBoth(a: AppendOnlyTree, m: MutableTree, h: TreeHash, ghost subA: nat, ghost subM: nat, ghost height: nat,
                  batches: seq<seq<Fr>>, k: nat)
    returns (ok: bool, rootA: Fr, rootM: Fr)
    requires k < |batches| && Fed(a, m, h, subA, subM, height, batches, k)
    modifies a, m
    ensures ok <==> BothTake(subA, subM, height, batches, k)
    ensures ok ==> Fed(a, m, h, subA, subM, height, batches, k + 1)
    ensures ok ==> RootAfter(h, height, batches, k, rootA, rootM) && rootA == rootM
  {
    ConcatNext(batches, k);
    var ra, rm := AppendBoth(a, m, batches[k]);
    if ra.Err? || rm.Err? { return false, 0, 0; }
    return true, ra.value, rm.value.0;
  }

  /** Two fresh trees of the same total height, however split, are fed the same batches up to the
      first that either refuses. After each of them both return the complete fold of all the
      leaves so far. */
  method AppendAllBoth(h: TreeHash, heightA: nat, subHeightA: nat, heightM: nat, subHeightM: nat, batches: seq<seq<Fr>>)
    returns (rootsA: seq<Fr>, rootsM: seq<Fr>)
    requires heightA + subHeightA == heightM + subHeightM < U64_BITS
    ensures RootsAgree(h, subHeightA, subHeightM, heightA + subHeightA, batches, rootsA, rootsM)
    ensures |rootsA| < |batches| ==> !BothTake(subHeightA, subHeightM, heightA + subHeightA, batches, |rootsA|)
  {
    var a := new AppendOnlyTree(h, heightA, subHeightA);
    var m := new MutableTree(h, heightM, subHeightM);
    FreshInStep(a, m);
    rootsA, rootsM := FeedAll(a, m, h, subHeightA, subHeightM, heightA + subHeightA, batches);
  }

  /** Feeds trees in step one batch after another, up to the first that either refuses. */
  method FeedAll(a: AppendOnlyTree, m: MutableTree, h: TreeHash, ghost subA: nat, ghost subM: nat, ghost height: nat,
                 batches: seq<seq<Fr>>)
    returns (rootsA: seq<Fr>, rootsM: seq<Fr>)
    requires Fed(a, m, h, subA, subM, height, batches, 0)
    modifies a, m
    ensures RootsAgree(h, subA, subM, height, batches, rootsA, rootsM)
    ensures |rootsA| < |batches| ==> !BothTake(subA, subM, height, batches, |rootsA|)
  {
    rootsA, rootsM := [], [];
    for k := 0 to |batches|
      invariant Fed(a, m, h, subA, subM, height, batches, k) && |rootsA| == k
      invariant RootsAgree(h, subA, subM, height, batches, rootsA, rootsM)
    {
      var ok, rootA, rootM := FeedBoth(a, m, h, subA, subM, height, batches, k);
      if !ok { return; }
      RootsSnoc(h, subA, subM, height, batches, rootsA, rootsM, rootA);
      rootsA, rootsM := rootsA + [rootA], rootsM + [rootM];
    }
  }

  /** Append-then-patch and patch-then-append accept the same sub-trees of values and leave the
      same entries, the same nodes and the same root. */
  method InsertBothWays(a: IndexedTree, b: IndexedTree, batch: seq<Fr>)
    returns (ra: Result<Fr>, rb: Result<ImtInsertionInfo>)
    requires a != b && a.tree != b.tree && a.Valid() && b.Valid()
    requires a.tree.h == b.tree.h && a.h3 == b.h3 && a.entries == b.entries && a.tree.Db() == b.tree.Db()
    requires |batch| == a.tree.meta.Capacity() && a.tree.meta.Height() < 63
    requires PositionsFit(batch, Used(a.tree.Db()))
    modifies a, a.tree, b, b.tree
    ensures ra.Ok? <==> rb.Ok?
    ensures ra.Ok?
            <==> old(a.tree.meta).subTreeCount < Pow2(old(a.tree.meta).treeHeight) && NewValues(old(a.entries), batch)
    ensures ra.Ok? ==>
              && a.Valid() && b.Valid() && a.entries == b.entries
              && (forall i: nat :: Get(a.tree.Db().View(), i) == Get(b.tree.Db().View(), i))
              && a.tree.meta.root == b.tree.meta.root == rb.value.circuitInfo.newRoot
              && (!AllZero(batch) ==> ra.value == rb.value.circuitInfo.newRoot)
  {
    ghost var db, es := a.tree.Db(), a.entries;
    assert a.tree.meta.Slots(|batch|) == 1;
    ra := a.InsertLeaves(batch);
    rb := b.InsertNullifiersForCircuit(batch);
    if ra.Ok? {
      InsertionDetermined(a.tree.h, a.h3, db, es, batch, a.tree.Db(), a.entries, b.tree.Db(), b.entries);
    }
  }

  /** The same from two fresh trees: both take a sub-tree exactly when its non-zero values are
      distinct. */
  method InsertBothWaysFresh(h: TreeHash, h3: LeafHash, treeHeight: nat, subTreeHeight: nat, batch: seq<Fr>)
    returns (a: IndexedTree, b: IndexedTree, ra: Result<Fr>, rb: Result<ImtInsertionInfo>)
    requires 1 <= treeHeight && treeHeight + subTreeHeight <= 32 && |batch| == Pow2(subTreeHeight)
    ensures ra.Ok? <==> rb.Ok?
    ensures ra.Ok? <==> DistinctNonZero(batch)
    ensures ra.Ok? ==> a.Valid() && b.Valid() && a.entries == b.entries && a.tree.meta.root == b.tree.meta.root
  {
    a := new IndexedTree(h, h3, treeHeight, subTreeHeight);
    b := new IndexedTree(h, h3, treeHeight, subTreeHeight);
    FreshPositions(treeHeight, subTreeHeight);
    ShlOne(subTreeHeight);
    assert a.tree.meta.Slots(|batch|) == 1;
    ra, rb := InsertBothWays(a, b, batch);
  }

  lemma {:induction false} FreshPositions(treeHeight: nat, subTreeHeight: nat)
    requires 1 <= treeHeight && treeHeight + subTreeHeight <= 32
    ensures 2 * Pow2(subTreeHeight) <= U32_RANGE && 2 <= Pow2(treeHeight)
  {
    Pow2Of32();
    Pow2Mono(subTreeHeight + 1, 32);
    Pow2Mono(1, treeHeight);
  }
}
