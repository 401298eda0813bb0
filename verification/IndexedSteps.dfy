/** The steps of the circuit insert of the indexed tree, of one sub-tree and of several: what each
    of them keeps and what the circuit is given. */
module IndexedSteps {
  import opened Basics
  import opened Fold
  import opened MutableSpec
  import opened MutableTheorems
  import opened Witness
  import opened LinkedLeaves
  import opened IndexedSpec
  import opened ImtWitness
  import opened Positions
  import opened StoreSteps

  lemma {:induction false} FreshIsCoherent(h: TreeHash, h3: LeafHash, db0: TreeDb, db: TreeDb)
    requires Sound(h, db0) && UnusedZero(db0) && Used(db0) == 0 && Sound(h, db) && Clean(db)
    requires db.meta.Height() == db0.meta.Height() && 0 < Used(db) <= Pow2(db.meta.Height())
    requires Leaves(db) == Leaves(db0)[0 := h3(0, 0, 0)]
    ensures Coherently(h, h3, db, map[0 := ZERO_LEAF])
  {
    InitiallyLinked();
    forall x: nat | x < Pow2(db.meta.Height())
      ensures Leaves(db)[x] == if x < Used(db) then LeafHashAt(h3, map[0 := ZERO_LEAF], x) else 0
    {
      if x > 0 { assert Leaves(db0)[x] == 0; }
    }
  }

  /** The low leaf of an absent value skips over it and, where the tree agrees, its proof folds
      to the root. */
  lemma {:induction false} LowProof(h: TreeHash, h3: LeafHash, db: TreeDb, es: Entries, first: nat, low: nat, x: Fr)
    requires Partial(h, h3, db, es, first) && IsLow(es, low, x) && !Stored(es, x)
    ensures Skips(es[low], x)
    ensures low < first ==> FoldPath(h, HashLeaf(h3, es[low]), ProofPath(db, low)) == db.meta.root
  {
    LowSkips(es, low, x);
    if low < first { LeafProofFolds(h, h3, db, es, first, low); }
  }

  /** Whole sub-trees, and slots left for them. */
  ghost predicate HasRoom(meta: TreeMetadata, n: nat) {
    n % meta.Capacity() == 0 && meta.subTreeCount + meta.Slots(n) <= Pow2(meta.treeHeight)
  }

  lemma {:induction false} NoRoomNeeded(h: TreeHash, db: TreeDb)
    requires Sound(h, db)
    ensures HasRoom(db.meta, 0)
  {
  }

  lemma {:induction false} EmptyInsertion(h: TreeHash, h3: LeafHash, db: TreeDb, es: Entries)
    requires Coherently(h, h3, db, es)
    ensures Inserted(h, h3, db, es, [], db, es)
  {
    assert Placement([], Used(db)) == map[];
  }

  lemma {:induction false} IndicesFit(h: TreeHash, db: TreeDb, n: nat)
    requires Sound(h, db) && n == db.meta.Capacity()
    ensures db.meta.subTreeCount < Pow2(db.meta.treeHeight) ==> Used(db) + n <= I64_MAX + 1
  {
    Pow2Fits(db.meta.Height());
    if db.meta.subTreeCount < Pow2(db.meta.treeHeight) {
      LastBlock(db.meta.treeHeight, db.meta.subTreeCount, db.meta.subTreeHeight);
    }
  }

  // ----- One sub-tree

  /** The next position `index` is free and the tree agrees with the list below `first`. */
  ghost predicate CanInsert(h: TreeHash, h3: LeafHash, db: TreeDb, es: Entries, first: nat, index: nat) {
    Partial(h, h3, db, es, first) && first <= index <= I64_MAX && IdsBelow(es, index)
  }

  /** The effect of one round of the circuit insert. */
  ghost predicate OneInserted(h: TreeHash, h3: LeafHash, db: TreeDb, es: Entries, first: nat, x: Fr, index: nat,
                              db': TreeDb, es': Entries, w: LowWitness)
    requires first <= index
  {
    && Partial(h, h3, db', es', first) && IdsBelow(es', index + 1)
    && Values(es') == (if x == 0 then Values(es) else Values(es)[index := x])
    && db'.meta == db.meta.(root := db'.meta.root)
    && ChainStep(h, h3, db.meta.Height(), first, x, w, ChainState(db.meta.root, Pending(es, first, index - first)))
       == Some(ChainState(db'.meta.root, Pending(es', first, index + 1 - first)))
  }

  /** The relinked low leaf is found by its value. */
  lemma {:induction false} RelinkedEntry(es: Entries, es': Entries, x: Fr, id: nat, low: nat,
    found: Option<IndexedLeaf>)
    requires low in es && es' == StoreSpec(es, x, id, low) && Distinct(es') && id !in es
    requires found.Some? <==> Stored(es', es[low].value)
    requires found.Some? ==> exists i :: i in es' && es'[i] == found.value && found.value.value == es[low].value
    ensures found == Some(es'[low])
  {
    assert low in es' && es'[low].value == es[low].value;
  }

  lemma {:induction false} InTreeStep(h: TreeHash, h3: LeafHash, db: TreeDb, es: Entries, first: nat, x: Fr, index: nat,
                                      low: nat,
                                      db': TreeDb, w: LowWitness)
    requires CanInsert(h, h3, db, es, first, index) && x > 0 && !Stored(es, x) && IsLow(es, low, x) && low < first
    requires db' == UpdateSpec(h, db, low, [HashLeaf(h3, StoreSpec(es, x, index, low)[low])], true).0
    requires w.0 == es[low] && w.1.nodeValue == HashLeaf(h3, es[low]) && w.1.siblingPath == ProofPath(db, low)
    ensures OneInserted(h, h3, db, es, first, x, index, db', StoreSpec(es, x, index, low), w)
  {
    LowSkips(es, low, x);
    assert LinkOk(es, low);
    StoreAndPatch(h, h3, db, es, first, x, index, low, db');
    StoreValues(es, x, index, low);
    LeafProofFolds(h, h3, db, es, first, low);
    ChecksInTree(h, h3, db.meta.Height(), es, first, x, index, low, w, db.meta.root, db'.meta.root);
  }

  /** What the chain makes of a low leaf in the tree. */
  lemma {:induction false} ChecksInTree(h: TreeHash, h3: LeafHash, height: nat, es: Entries, first: nat, x: Fr,
                                        index: nat, low: nat, w: LowWitness, root: Fr, root': Fr)
    requires x > 0 && first <= index && IdsBelow(es, index) && low in es && low < first && es[low].id == low
    requires Skips(es[low], x) && w.0 == es[low] && w.1.nodeValue == HashLeaf(h3, es[low])
    requires |w.1.siblingPath| == height && ProofChecks(h, low, w.1, root)
    requires root' == FoldPath(h, h3(es[low].value, index, x), w.1.siblingPath)
    ensures ChainStep(h, h3, height, first, x, w, ChainState(root, Pending(es, first, index - first)))
            == Some(ChainState(root', Pending(StoreSpec(es, x, index, low), first, index + 1 - first)))
  {
    PendingAfterStore(es, first, index - first, x, low);
  }

  /** And of one that is pending. */
  lemma {:induction false} ChecksPending(h: TreeHash, h3: LeafHash, height: nat, es: Entries, first: nat, x: Fr,
                                         index: nat, low: nat, w: LowWitness, root: Fr)
    requires x > 0 && first <= low < index && IdsBelow(es, index) && low in es && es[low].id == low
    requires Skips(es[low], x) && w.0 == es[low] && w.1.nodeValue == HashLeaf(h3, es[low])
    requires |w.1.siblingPath| == height
    ensures ChainStep(h, h3, height, first, x, w, ChainState(root, Pending(es, first, index - first)))
            == Some(ChainState(root, Pending(StoreSpec(es, x, index, low), first, index + 1 - first)))
  {
    PendingAfterStore(es, first, index - first, x, low);
    PendingAt(es, first, index - first, low - first);
  }

  lemma {:induction false} PendingStep(h: TreeHash, h3: LeafHash, db: TreeDb, es: Entries, first: nat, x: Fr,
                                       index: nat, low: nat, w: LowWitness)
    requires CanInsert(h, h3, db, es, first, index) && x > 0 && !Stored(es, x) && IsLow(es, low, x) && low >= first
    requires w.0 == es[low] && w.1.nodeValue == HashLeaf(h3, es[low]) && |w.1.siblingPath| == db.meta.Height()
    ensures OneInserted(h, h3, db, es, first, x, index, db, StoreSpec(es, x, index, low), w)
  {
    LowSkips(es, low, x);
    assert LinkOk(es, low);
    StorePending(h, h3, db, es, first, x, index, low);
    StoreValues(es, x, index, low);
    ChecksPending(h, h3, db.meta.Height(), es, first, x, index, low, w, db.meta.root);
  }

  lemma {:induction false} ZeroStep(h: TreeHash, h3: LeafHash, db: TreeDb, es: Entries, first: nat, index: nat,
                                    w: LowWitness)
    requires Partial(h, h3, db, es, first) && first <= index && IdsBelow(es, index)
    requires |w.1.siblingPath| == db.meta.Height()
    ensures OneInserted(h, h3, db, es, first, 0, index, db, es, w)
  {
    assert Pending(es, first, index + 1 - first) == Pending(es, first, index - first) + [ZERO_LEAF];
  }

  /** The effect of the first rounds of the circuit insert, with the chain of witnesses. */
  ghost predicate AllInserted(h: TreeHash, h3: LeafHash, db: TreeDb, es: Entries, first: nat, batch: seq<Fr>,
                              db': TreeDb, es': Entries, lows: seq<LowWitness>) {
    && Partial(h, h3, db', es', first) && IdsBelow(es', first + |batch|)
    && Values(es') == Values(es) + Placement(batch, first)
    && db'.meta == db.meta.(root := db'.meta.root)
    && |lows| == |batch|
    && ChainRun(h, h3, db.meta.Height(), first, batch, lows, db.meta.root)
       == Some(ChainState(db'.meta.root, Pending(es', first, |batch|)))
  }

  /** The first loop of the circuit insert after `t` rounds. */
  ghost predicate InsertProgress(h: TreeHash, h3: LeafHash, db: TreeDb, es: Entries, first: nat, batch: seq<Fr>, t: nat,
                                 db1: TreeDb, es1: Entries, lows: seq<LowWitness>)
    requires t <= |batch|
  {
    && first == Used(db) && AllInserted(h, h3, db, es, first, batch[..t], db1, es1, lows)
    && IdsBelow(es, first) && NewValues(es, batch[..t])
  }

  /** The same with the witnesses in the form in which they are handed out. */
  ghost predicate RoundsDone(h: TreeHash, h3: LeafHash, db: TreeDb, es: Entries, first: nat, batch: seq<Fr>, t: nat,
                             db1: TreeDb, es1: Entries, lows: seq<LowWitness>)
    requires t <= |batch|
  {
    && InsertProgress(h, h3, db, es, first, batch, t, db1, es1, lows)
    && |lows| == t && LowForms(db.meta.Height(), first, batch, lows)
  }

  lemma {:induction false} NothingInserted(h: TreeHash, h3: LeafHash, db: TreeDb, es: Entries, first: nat,
                                           batch: seq<Fr>)
    requires Coherently(h, h3, db, es) && first == Used(db)
    ensures RoundsDone(h, h3, db, es, first, batch, 0, db, es, [])
  {
    assert batch[..0] == [] && Placement([], first) == map[];
  }

  lemma {:induction false} InsertDone(h: TreeHash, h3: LeafHash, db: TreeDb, es: Entries, first: nat, batch: seq<Fr>,
                                      db1: TreeDb, es1: Entries, lows: seq<LowWitness>)
    requires InsertProgress(h, h3, db, es, first, batch, |batch|, db1, es1, lows)
    ensures AllInserted(h, h3, db, es, first, batch, db1, es1, lows) && NewValues(es, batch)
  {
    assert batch[..|batch|] == batch;
  }

  lemma {:induction false} AllRoundsDone(h: TreeHash, h3: LeafHash, db: TreeDb, es: Entries, first: nat, batch: seq<Fr>,
                                         db1: TreeDb, es1: Entries, lows: seq<LowWitness>)
    requires RoundsDone(h, h3, db, es, first, batch, |batch|, db1, es1, lows)
    ensures AllInserted(h, h3, db, es, first, batch, db1, es1, lows) && NewValues(es, batch)
    ensures LowForms(db.meta.Height(), first, batch, lows)
  {
    InsertDone(h, h3, db, es, first, batch, db1, es1, lows);
  }

  lemma {:induction false} RoundReady(h: TreeHash, h3: LeafHash, db: TreeDb, es: Entries, first: nat, batch: seq<Fr>,
                                      t: nat,
                                      db1: TreeDb, es1: Entries, lows: seq<LowWitness>)
    requires t < |batch| && InsertProgress(h, h3, db, es, first, batch, t, db1, es1, lows)
    ensures Partial(h, h3, db1, es1, first) && IdsBelow(es1, first + t)
  {
  }

  lemma {:induction false} RoundRefused(h: TreeHash, h3: LeafHash, db: TreeDb, es: Entries, first: nat, batch: seq<Fr>,
                                        t: nat,
                                        db1: TreeDb, es1: Entries, lows: seq<LowWitness>)
    requires t < |batch| && InsertProgress(h, h3, db, es, first, batch, t, db1, es1, lows)
    requires batch[t] != 0 && (Stored(es1, batch[t]) || first + t > I64_MAX)
    ensures !NewValues(es, batch) || first + |batch| > I64_MAX + 1
    ensures StopsAt(es, batch, first, t)
  {
    StoredSoFar(es, es1, batch, first, t);
  }

  lemma {:induction false} OneMore(h: TreeHash, h3: LeafHash, db: TreeDb, es: Entries, first: nat, batch: seq<Fr>,
                                   db1: TreeDb, es1: Entries, lows: seq<LowWitness>, x: Fr, db2: TreeDb, es2: Entries,
                                     w: LowWitness)
    requires AllInserted(h, h3, db, es, first, batch, db1, es1, lows)
    requires OneInserted(h, h3, db1, es1, first, x, first + |batch|, db2, es2, w)
    ensures AllInserted(h, h3, db, es, first, batch + [x], db2, es2, lows + [w])
  {
    ValuesSnoc(Values(es), batch, first, x);
    ChainPrefix(h, h3, db.meta.Height(), first, batch, [x], lows, db.meta.root);
    ChainRunSnoc(h, h3, db.meta.Height(), first, batch + [x], lows, db.meta.root,
                 ChainState(db1.meta.root, Pending(es1, first, |batch|)), w);
  }

  lemma {:induction false} NextInserted(h: TreeHash, h3: LeafHash, db: TreeDb, es: Entries, first: nat, batch: seq<Fr>,
                                        t: nat,
                                        db1: TreeDb, es1: Entries, lows: seq<LowWitness>, db2: TreeDb, es2: Entries,
                                          w: LowWitness)
    requires t < |batch| && (batch[t] == 0 || !Stored(es1, batch[t]))
    ensures && InsertProgress(h, h3, db, es, first, batch, t, db1, es1, lows)
            && OneInserted(h, h3, db1, es1, first, batch[t], first + t, db2, es2, w) ==>
              InsertProgress(h, h3, db, es, first, batch, t + 1, db2, es2, lows + [w])
  {
    if && InsertProgress(h, h3, db, es, first, batch, t, db1, es1, lows)
       && OneInserted(h, h3, db1, es1, first, batch[t], first + t, db2, es2, w) {
      StoredSoFar(es, es1, batch, first, t);
      OneMore(h, h3, db, es, first, batch[..t], db1, es1, lows, batch[t], db2, es2, w);
      TakeNext(batch, t);
    }
  }

  /** The leaves appended for a batch are the hashes of its entries. */
  lemma {:induction false} PendingHashed(h3: LeafHash, es: Entries, at: nat, hashes: seq<Fr>)
    requires Linked(es) && BatchHashes(h3, es, at, hashes) && at > 0
    ensures forall t | 0 <= t < |hashes| :: hashes[t] == PendingLeaf(h3, Pending(es, at, |hashes|)[t])
  {
    forall t | 0 <= t < |hashes| ensures hashes[t] == PendingLeaf(h3, Pending(es, at, |hashes|)[t]) {
      assert hashes[t] == LeafHashAt(h3, es, at + t);
      PendingAt(es, at, |hashes|, t);
    }
  }

  /** The pieces of a circuit insert make a valid witness. */
  lemma {:induction false} WitnessAssembled(h: TreeHash, h3: LeafHash, db: TreeDb, es: Entries, batch: seq<Fr>,
                                            root: Fr, es1: Entries, db2: TreeDb, info: ImtInsertionInfo)
    requires Coherently(h, h3, db, es) && Linked(es1)
    requires info.oldRoot == db.meta.root && info.firstIndex == Used(db) && |info.lowNullifiers| == |batch|
    requires info.pendingInserts == Pending(es1, Used(db), |batch|)
    requires ChainRun(h, h3, db.meta.Height(), Used(db), batch, info.lowNullifiers, db.meta.root)
             == Some(ChainState(root, info.pendingInserts))
    requires ValidRecord(h, db.meta.treeHeight, db.meta.subTreeHeight, info.circuitInfo)
    requires info.circuitInfo.proof.leafIndex == db.meta.subTreeCount
    requires info.circuitInfo.oldRoot == root && info.circuitInfo.newRoot == db2.meta.root
    requires |info.circuitInfo.leaves| == |batch| && BatchHashes(h3, es1, Used(db), info.circuitInfo.leaves)
    requires LowForms(db.meta.Height(), Used(db), batch, info.lowNullifiers)
    ensures ValidWitness(h, h3, db, batch, db2, es1, info)
  {
    assert Used(db) > 0;
    PendingHashed(h3, es1, Used(db), info.circuitInfo.leaves);
    WitnessNamesBatch(h, h3, db.meta.treeHeight, db.meta.subTreeHeight, Used(db), batch, info);
  }

  lemma {:induction false} CircuitInserted(h: TreeHash, h3: LeafHash, db: TreeDb, es: Entries, batch: seq<Fr>,
                                           db1: TreeDb, es1: Entries,
                                           hashes: seq<Fr>, db2: TreeDb)
    requires Partial(h, h3, db1, es1, Used(db)) && IdsBelow(es1, Used(db) + |batch|)
    requires Values(es1) == Values(es) + Placement(batch, Used(db))
    requires db1.meta == db.meta.(root := db1.meta.root) && |hashes| == |batch|
    requires BatchHashes(h3, es1, Used(db), hashes)
    requires AppendSpec(h, db1, hashes, true).1.Ok? && db2 == AppendSpec(h, db1, hashes, true).0
    ensures Inserted(h, h3, db, es, batch, db2, es1)
  {
    AppendCatchesUp(h, h3, db1, es1, hashes);
    AppendKeeps(h, db1, hashes);
  }

  // ----- Refusals

  /** A plain insert of values none of which was there before, refused after storing: the list is
      changed, and the tree behind it, exactly when the batch has a value that is not zero. */
  lemma {:induction false} RefusedAhead(h: TreeHash, h3: LeafHash, db: TreeDb, es: Entries, batch: seq<Fr>, n: nat,
                                        es': Entries)
    requires Coherently(h, h3, db, es) && NoneStored(es, batch) && PositionsFit(batch, Used(db))
    requires StoredUpTo(es, batch, Used(db), n, es')
    ensures es' == es <==> AllZero(batch)
    ensures Coherently(h, h3, db, es') <==> es' == es
  {
    ListAhead(es, es', batch, Used(db), n);
    if n < |batch| {
      RepeatIsAhead(es, batch, Used(db), n);
      assert forall t | 0 <= t < n :: batch[..n][t] == batch[t];
    } else {
      assert batch[..n] == batch;
    }
  }

  /** What a circuit insert leaves behind when it stops at value `n`: the list has the values before
      it and the tree agrees with the list below the slot they were meant for. */
  ghost predicate PartlyInserted(h: TreeHash, h3: LeafHash, db: TreeDb, es: Entries, batch: seq<Fr>, n: nat,
                                 db': TreeDb, es': Entries) {
    && StoredUpTo(es, batch, Used(db), n, es') && Partial(h, h3, db', es', Used(db))
    && db'.meta == db.meta.(root := db'.meta.root)
  }

  /** That state is a valid tree exactly when nothing was stored, and then it is the old one. */
  lemma {:induction false} AheadExactly(h: TreeHash, h3: LeafHash, db: TreeDb, es: Entries, batch: seq<Fr>, n: nat,
                                        db': TreeDb, es': Entries)
    requires Coherently(h, h3, db, es) && PartlyInserted(h, h3, db, es, batch, n, db', es')
    ensures es' == es <==> AllZero(batch[..n])
    ensures Coherently(h, h3, db', es') <==> es' == es
    ensures es' == es ==> db'.meta == db.meta
  {
    ListAhead(es, es', batch, Used(db), n);
    if es' == es { SameNodes(h, h3, db', db, es); }
  }

  lemma {:induction false} StoppedIsPartly(h: TreeHash, h3: LeafHash, db: TreeDb, es: Entries, batch: seq<Fr>, t: nat,
                                           db1: TreeDb, es1: Entries, lows: seq<LowWitness>)
    requires t < |batch| && StopsAt(es, batch, Used(db), t)
    ensures InsertProgress(h, h3, db, es, Used(db), batch, t, db1, es1, lows) ==>
              PartlyInserted(h, h3, db, es, batch, t, db1, es1)
  {
  }

  lemma {:induction false} AllIsPartly(h: TreeHash, h3: LeafHash, db: TreeDb, es: Entries, batch: seq<Fr>,
                                       db1: TreeDb, es1: Entries, lows: seq<LowWitness>)
    requires AllInserted(h, h3, db, es, Used(db), batch, db1, es1, lows) && NewValues(es, batch)
    ensures PartlyInserted(h, h3, db, es, batch, |batch|, db1, es1)
  {
    assert batch[..|batch|] == batch;
  }

  /** What a refused circuit insert of one sub-tree leaves behind. */
  ghost predicate ChunkStopped(h: TreeHash, h3: LeafHash, db: TreeDb, es: Entries, chunk: seq<Fr>, db': TreeDb,
                               es': Entries) {
    if |chunk| != db.meta.Capacity() then db' == db && es' == es
    else exists n :: PartlyInserted(h, h3, db, es, chunk, n, db', es')
  }

  /** What a refused circuit insert of several leaves behind: those before the refused one are in,
      with the state `(db1, es1)`, and the refused one left what it leaves. */
  ghost predicate BatchStopped(h: TreeHash, h3: LeafHash, db: TreeDb, es: Entries, batch: seq<Fr>, k: nat,
                               db1: TreeDb, es1: Entries, db': TreeDb, es': Entries) {
    && k < |batch| && Whole(k, db.meta.Capacity()) && NewValues(es, batch[..k])
    && Inserted(h, h3, db, es, batch[..k], db1, es1)
    && ChunkStopped(h, h3, db1, es1, NextSlice(batch, k, db.meta.Capacity()), db', es')
  }

  /** The next `cap` values from `k` on, or what is left. */
  ghost function NextSlice(batch: seq<Fr>, k: nat, cap: nat): seq<Fr>
    requires k <= |batch|
  {
    if k + cap <= |batch| then batch[k..k + cap] else batch[k..]
  }

  // ----- Several sub-trees

  lemma {:induction false} SplitRest(all: seq<Fr>, done: seq<Fr>, rest: seq<Fr>, n: nat)
    requires all == done + rest && n <= |rest|
    ensures all == (done + rest[..n]) + rest[n..]
  {
  }

  /** When a batch of sub-trees of nullifiers goes in: whole sub-trees, room for all of them,
      a tree that gives proofs, and values that are new and distinct across the whole batch. */
  ghost predicate BatchFits(db: TreeDb, es: Entries, batch: seq<Fr>) {
    && Whole(|batch|, db.meta.Capacity()) && Used(db) + |batch| <= Pow2(db.meta.Height())
    && db.meta.Height() < 63 && NewValues(es, batch)
  }

  /** Part of the way through a batch of sub-trees. */
  ghost predicate BatchSoFar(db: TreeDb, es: Entries, done: seq<Fr>, db1: TreeDb, es1: Entries) {
    && db1.meta == db.meta.(subTreeCount := db1.meta.subTreeCount, root := db1.meta.root)
    && IdsBelow(es, Used(db)) && Used(db1) == Used(db) + |done|
    && Whole(|done|, db.meta.Capacity()) && (done != [] ==> db.meta.Height() < 63)
    && NewValues(es, done) && Values(es1) == Values(es) + Placement(done, Used(db))
  }

  lemma {:induction false} NothingDone(h: TreeHash, h3: LeafHash, db: TreeDb, es: Entries)
    requires Coherently(h, h3, db, es)
    ensures BatchSoFar(db, es, [], db, es) && Inserted(h, h3, db, es, [], db, es)
  {
    EmptyInsertion(h, h3, db, es);
  }

  lemma {:induction false} WholeAdd(a: nat, b: nat, cap: nat)
    requires cap > 0 && Whole(a, cap)
    ensures Whole(a + b, cap) <==> Whole(b, cap)
    decreases a
  {
    if a > 0 { WholeAdd(a - cap, b, cap); }
  }

  lemma {:induction false} BatchGrows(db: TreeDb, es: Entries, done: seq<Fr>, chunk: seq<Fr>, db1: TreeDb, es1: Entries,
                                      db2: TreeDb, es2: Entries)
    requires BatchSoFar(db, es, done, db1, es1) && db.meta.Height() < 63
    requires |chunk| == db.meta.Capacity() && NewValues(es1, chunk)
    requires db2.meta == db1.meta.(subTreeCount := db2.meta.subTreeCount, root := db2.meta.root)
    requires Used(db2) == Used(db1) + |chunk| && Values(es2) == Values(es1) + Placement(chunk, Used(db1))
    ensures BatchSoFar(db, es, done + chunk, db2, es2)
  {
    ChunkIsNew(es, es1, done, chunk, Used(db));
    OneChunkMore(|done|, |chunk|);
    NextChunk(Values(es), es1, es2, done, chunk, Used(db), Used(db1));
  }

  lemma {:induction false} OneChunkMore(n: nat, cap: nat)
    requires cap > 0 && Whole(n, cap)
    ensures Whole(n + cap, cap)
  {
  }

  lemma {:induction false} FullIsUsed(meta: TreeMetadata)
    requires meta.subTreeCount >= Pow2(meta.treeHeight)
    ensures Shl(meta.subTreeCount, meta.subTreeHeight) >= Pow2(meta.Height())
  {
    ShlMono(Pow2(meta.treeHeight), meta.subTreeCount, meta.subTreeHeight);
    ShlPow2(meta.treeHeight, meta.subTreeHeight);
  }

  lemma {:induction false} ChunkRefused(db: TreeDb, es: Entries, done: seq<Fr>, rest: seq<Fr>, chunk: seq<Fr>,
                                        db1: TreeDb, es1: Entries)
    requires BatchSoFar(db, es, done, db1, es1) && |rest| > 0
    requires chunk == rest[..if |rest| < db.meta.Capacity() then |rest| else db.meta.Capacity()]
    requires !(|chunk| == db1.meta.Capacity() && db1.meta.subTreeCount < Pow2(db1.meta.treeHeight)
               && db1.meta.Height() < 63 && NewValues(es1, chunk))
    ensures !BatchFits(db, es, done + rest)
  {
    WholeAdd(|done|, |rest|, db.meta.Capacity());
    if db1.meta.subTreeCount >= Pow2(db1.meta.treeHeight) { FullIsUsed(db1.meta); }
    ChunkIsNew(es, es1, done, chunk, Used(db));
    if NewValues(es, done + rest) {
      assert done + rest == (done + chunk) + rest[|chunk|..];
      NewPrefix(es, done + chunk, rest[|chunk|..]);
    }
  }

  lemma {:induction false} BatchAccepted(h: TreeHash, h3: LeafHash, db: TreeDb, es: Entries, done: seq<Fr>, db1: TreeDb,
                                         es1: Entries)
    requires BatchSoFar(db, es, done, db1, es1) && done != [] && Coherently(h, h3, db1, es1)
    ensures BatchFits(db, es, done) && Inserted(h, h3, db, es, done, db1, es1)
  {
    UsedInRange(h, db1);
  }

  lemma {:induction false} StoppedInBatch(h: TreeHash, h3: LeafHash, db: TreeDb, es: Entries, batch: seq<Fr>,
                                          done: seq<Fr>, rest: seq<Fr>,
                                          db1: TreeDb, es1: Entries, db': TreeDb, es': Entries)
    requires batch == done + rest && |rest| > 0 && BatchSoFar(db, es, done, db1, es1) && Coherently(h, h3, db1, es1)
    requires var cap := db.meta.Capacity();
             ChunkStopped(h, h3, db1, es1, rest[..if |rest| < cap then |rest| else cap], db', es')
    ensures BatchStopped(h, h3, db, es, batch, |done|, db1, es1, db', es')
  {
    SliceOfRest(batch, done, rest, db.meta.Capacity());
  }

  lemma {:induction false} SliceOfRest(batch: seq<Fr>, done: seq<Fr>, rest: seq<Fr>, cap: nat)
    requires batch == done + rest
    ensures batch[..|done|] == done
    ensures NextSlice(batch, |done|, cap) == rest[..if |rest| < cap then |rest| else cap]
  {
  }
}
