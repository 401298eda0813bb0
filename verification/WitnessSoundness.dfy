/** What a checked witness proves to someone who knows only the root: where the hashes have no
    collisions, there is one for a batch only if its values are new, and the root it ends at is the
    root of the tree with the batch in it. */
module WitnessSoundness {
  import opened Basics
  import opened Fold
  import opened Heap
  import opened MutableSpec
  import opened MutableTheorems
  import opened Witness
  import opened LinkedLeaves
  import opened IndexedSpec
  import opened ImtWitness
  import opened ImtChains
  import opened StoreSteps
  import opened IndexedSteps

  ghost predicate PairsApart(h: TreeHash, a: Fr, b: Fr, c: Fr, d: Fr) {
    h(a, b) == h(c, d) ==> a == c && b == d
  }

  ghost predicate LeavesApart(h3: LeafHash, a: IndexedLeaf, b: IndexedLeaf) {
    && HashLeaf(h3, a) != 0
    && (HashLeaf(h3, a) == HashLeaf(h3, b)
        ==> a.value == b.value && a.nextIndex == b.nextIndex && a.nextValue == b.nextValue)
  }

  /** No two inputs of either hash have the same image, and no entry hashes to the empty leaf. */
  ghost predicate CollisionFree(h: TreeHash, h3: LeafHash) {
    && (forall a, b, c, d {:trigger PairsApart(h, a, b, c, d)} :: PairsApart(h, a, b, c, d))
    && (forall a, b {:trigger LeavesApart(h3, a, b)} :: LeavesApart(h3, a, b))
  }

  /** Two paths on the same sides that lead to one root are one path from one value. */
  lemma {:induction false} SamePath(h: TreeHash, h3: LeafHash, u: Fr, p: seq<PathElement>, v: Fr, q: seq<PathElement>)
    requires CollisionFree(h, h3) && |p| == |q| && FoldPath(h, u, p) == FoldPath(h, v, q)
    requires forall l | 0 <= l < |p| :: p[l].direction == q[l].direction
    ensures u == v && p == q
    decreases |p|
  {
    if p != [] {
      SamePath(h, h3, Combine(h, p[0], u), p[1..], Combine(h, q[0], v), q[1..]);
      assert if p[0].direction.HashWithThisNodeOnLeft? then PairsApart(h, p[0].value, u, q[0].value, v)
             else PairsApart(h, u, p[0].value, v, q[0].value);
      assert p == [p[0]] + p[1..] && q == [q[0]] + q[1..];
    }
  }

  /** In a linked list an entry that skips over a value is its low leaf, and the value is absent. */
  lemma {:induction false} SkipMeansAbsent(es: Entries, low: nat, x: Fr)
    requires Linked(es) && low in es && Skips(es[low], x)
    ensures IsLow(es, low, x) && !Stored(es, x)
  {
    assert LinkOk(es, low);
  }

  /** A leaf that folds up to the root from a place below `first` is the entry stored there. */
  lemma {:induction false} LowIsEntry(h: TreeHash, h3: LeafHash, db: TreeDb, es: Entries, first: nat, low: IndexedLeaf,
                                      proof: MembershipProof)
    requires CollisionFree(h, h3) && Partial(h, h3, db, es, first) && low.id < first
    requires |proof.siblingPath| == db.meta.Height() && proof.nodeValue == HashLeaf(h3, low)
    requires ProofChecks(h, low.id, proof, db.meta.root)
    ensures low.id in es && es[low.id] == low && proof.siblingPath == ProofPath(db, low.id)
  {
    ProofFolds(h, db, low.id);
    SlotDirections(db.View(), db.meta.Height(), low.id);
    SamePath(h, h3, proof.nodeValue, proof.siblingPath, Leaves(db)[low.id], ProofPath(db, low.id));
    assert LeavesApart(h3, low, EntryAt(es, low.id));
    assert low.id in es;
    assert LinkOk(es, low.id);
  }

  /** A pending entry is the one stored at its id. */
  lemma {:induction false} PendingIsEntry(es: Entries, first: nat, n: nat, low: IndexedLeaf)
    requires 0 < first <= low.id < first + n && Pending(es, first, n)[low.id - first] == low
    ensures low.id in es && es[low.id] == low
  {
    PendingAt(es, first, n, low.id - first);
  }

  /** A step that checks is a step of the insertion: the value is new, and the low leaf is its own. */
  lemma {:induction false} TrueStep(h: TreeHash, h3: LeafHash, db: TreeDb, es: Entries, first: nat, x: Fr, index: nat,
                                    w: LowWitness) returns (db': TreeDb, es': Entries)
    requires CollisionFree(h, h3) && CanInsert(h, h3, db, es, first, index) && first > 0
    requires ChainStep(h, h3, db.meta.Height(), first, x, w,
                       ChainState(db.meta.root, Pending(es, first, index - first))).Some?
    ensures x == 0 || !Stored(es, x)
    ensures OneInserted(h, h3, db, es, first, x, index, db', es', w)
  {
    var low := w.0;
    if x == 0 {
      ZeroStep(h, h3, db, es, first, index, w);
      return db, es;
    }
    if low.id < first { LowIsEntry(h, h3, db, es, first, low, w.1); }
    else { PendingIsEntry(es, first, index - first, low); }
    SkipMeansAbsent(es, low.id, x);
    es' := StoreSpec(es, x, index, low.id);
    if low.id < first {
      db' := UpdateSpec(h, db, low.id, [HashLeaf(h3, es'[low.id])], true).0;
      InTreeStep(h, h3, db, es, first, x, index, low.id, db', w);
    } else {
      db' := db;
      PendingStep(h, h3, db, es, first, x, index, low.id, w);
    }
  }

  /** Witnesses that check, up to any point, are those of an insertion up to that point. */
  lemma {:induction false} TrueRounds(h: TreeHash, h3: LeafHash, db: TreeDb, es: Entries, batch: seq<Fr>,
                                      lows: seq<LowWitness>) returns (db1: TreeDb, es1: Entries)
    requires CollisionFree(h, h3) && Coherently(h, h3, db, es) && Used(db) + |batch| <= I64_MAX + 1
    requires |lows| <= |batch|
    requires ChainRun(h, h3, db.meta.Height(), Used(db), batch, lows, db.meta.root).Some?
    ensures InsertProgress(h, h3, db, es, Used(db), batch, |lows|, db1, es1, lows)
    decreases |lows|
  {
    if lows == [] {
      NothingInserted(h, h3, db, es, Used(db), batch);
      db1, es1 := db, es;
    } else {
      var t := |lows| - 1;
      var before, w := lows[..t], lows[t];
      var db0, es0 := TrueRounds(h, h3, db, es, batch, before);
      assert lows == before + [w];
      db1, es1 := NextRound(h, h3, db, es, batch, t, db0, es0, before, w);
    }
  }

  lemma {:induction false} NextRound(h: TreeHash, h3: LeafHash, db: TreeDb, es: Entries, batch: seq<Fr>, t: nat,
                                     db0: TreeDb, es0: Entries, lows: seq<LowWitness>, w: LowWitness)
    returns (db1: TreeDb, es1: Entries)
    requires CollisionFree(h, h3) && 0 < Used(db) && Used(db) + |batch| <= I64_MAX + 1
    requires t < |batch| && InsertProgress(h, h3, db, es, Used(db), batch, t, db0, es0, lows) && |lows| == t
    requires ChainRun(h, h3, db.meta.Height(), Used(db), batch, lows + [w], db.meta.root).Some?
    ensures InsertProgress(h, h3, db, es, Used(db), batch, t + 1, db1, es1, lows + [w])
  {
    db1, es1 := RoundIsTrue(h, h3, db, es, batch, t, db0, es0, lows, w);
    RoundFollows(h, h3, db, es, batch, t, db0, es0, lows, db1, es1, w, lows + [w]);
  }

  lemma {:induction false} RoundFollows(h: TreeHash, h3: LeafHash, db: TreeDb, es: Entries, batch: seq<Fr>, t: nat,
                                        db0: TreeDb, es0: Entries, lows: seq<LowWitness>,
                                        db1: TreeDb, es1: Entries, w: LowWitness, lows': seq<LowWitness>)
    requires t < |batch| && (batch[t] == 0 || !Stored(es0, batch[t])) && lows' == lows + [w]
    ensures && InsertProgress(h, h3, db, es, Used(db), batch, t, db0, es0, lows)
            && OneInserted(h, h3, db0, es0, Used(db), batch[t], Used(db) + t, db1, es1, w) ==>
              InsertProgress(h, h3, db, es, Used(db), batch, t + 1, db1, es1, lows')
  {
    NextInserted(h, h3, db, es, Used(db), batch, t, db0, es0, lows, db1, es1, w);
  }

  lemma {:induction false} RoundIsTrue(h: TreeHash, h3: LeafHash, db: TreeDb, es: Entries, batch: seq<Fr>, t: nat,
                                       db0: TreeDb, es0: Entries, lows: seq<LowWitness>, w: LowWitness)
    returns (db1: TreeDb, es1: Entries)
    requires CollisionFree(h, h3) && 0 < Used(db) && Used(db) + |batch| <= I64_MAX + 1
    requires t < |batch| && InsertProgress(h, h3, db, es, Used(db), batch, t, db0, es0, lows) && |lows| == t
    requires ChainRun(h, h3, db.meta.Height(), Used(db), batch, lows + [w], db.meta.root).Some?
    ensures batch[t] == 0 || !Stored(es0, batch[t])
    ensures OneInserted(h, h3, db0, es0, Used(db), batch[t], Used(db) + t, db1, es1, w)
  {
    RoundState(h, h3, db, es, batch, t, db0, es0, lows, w);
    db1, es1 := TrueStep(h, h3, db0, es0, Used(db), batch[t], Used(db) + t, w);
  }

  /** Where the chain is after `t` rounds of an insertion. */
  lemma {:induction false} RoundState(h: TreeHash, h3: LeafHash, db: TreeDb, es: Entries, batch: seq<Fr>, t: nat,
                                      db0: TreeDb, es0: Entries, lows: seq<LowWitness>, w: LowWitness)
    requires Used(db) + |batch| <= I64_MAX + 1
    requires t < |batch| && InsertProgress(h, h3, db, es, Used(db), batch, t, db0, es0, lows) && |lows| == t
    requires ChainRun(h, h3, db.meta.Height(), Used(db), batch, lows + [w], db.meta.root).Some?
    ensures CanInsert(h, h3, db0, es0, Used(db), Used(db) + t)
    ensures ChainStep(h, h3, db0.meta.Height(), Used(db), batch[t], w,
                      ChainState(db0.meta.root, Pending(es0, Used(db), Used(db) + t - Used(db)))).Some?
  {
    var now := ChainState(db0.meta.root, Pending(es0, Used(db), t));
    assert batch == batch[..t] + batch[t..];
    ChainPrefix(h, h3, db.meta.Height(), Used(db), batch[..t], batch[t..], lows, db.meta.root);
    ChainRunSnoc(h, h3, db.meta.Height(), Used(db), batch, lows, db.meta.root, now, w);
  }

  lemma {:induction false} ShlInjective(a: nat, b: nat, l: nat)
    requires Shl(a, l) == Shl(b, l)
    ensures a == b
  {
    if l > 0 { ShlInjective(a, b, l - 1); }
  }

  /** The hashes of the pending entries are the leaves that the list calls for. */
  lemma {:induction false} HashesOfPending(h3: LeafHash, es: Entries, at: nat, hashes: seq<Fr>)
    requires Linked(es) && at > 0
    requires forall t | 0 <= t < |hashes| :: hashes[t] == PendingLeaf(h3, Pending(es, at, |hashes|)[t])
    ensures BatchHashes(h3, es, at, hashes)
  {
    forall t | 0 <= t < |hashes| ensures hashes[t] == LeafHashAt(h3, es, at + t) {
      PendingAt(es, at, |hashes|, t);
    }
  }

  /** A valid record for the next slot is the record of the append: its path is the slot's. */
  lemma {:induction false} TrueRecord(h: TreeHash, h3: LeafHash, db: TreeDb, record: CircuitInsertionInfo)
    requires CollisionFree(h, h3) && Sound(h, db) && Clean(db) && UnusedZero(db) && record.oldRoot == db.meta.root
    requires ValidRecord(h, db.meta.treeHeight, db.meta.subTreeHeight, record)
    requires record.proof.leafIndex == db.meta.subTreeCount
    ensures AppendSpec(h, db, record.leaves, true).1.Ok?
    ensures AppendSpec(h, db, record.leaves, true).0.meta.root == record.newRoot
  {
    var d, k := db.meta.treeHeight, db.meta.subTreeCount;
    SlotFolds(h, db);
    SlotDirections(db.nodes, d, k);
    SamePath(h, h3, 0, record.proof.siblingPath, 0, SiblingPath(db.nodes, Pow2(d) - 1 + k));
    AppendSingle(h, db, record.leaves);
    AppendKeeps(h, db, record.leaves);
  }

  /** A checked witness that starts at the root of a tree is the witness of an insertion into it:
      the values of the batch are new, the sub-tree has a free slot, and the root at the end and the
      pending entries are those of the tree and the list with the batch in them. */
  lemma {:induction false} WitnessSound(h: TreeHash, h3: LeafHash, db: TreeDb, es: Entries, batch: seq<Fr>,
                                        info: ImtInsertionInfo) returns (db': TreeDb, es': Entries)
    requires CollisionFree(h, h3) && Coherently(h, h3, db, es) && info.oldRoot == db.meta.root
    requires CheckedWitness(h, h3, db.meta.treeHeight, db.meta.subTreeHeight, Used(db), batch, info)
    ensures NewValues(es, batch) && Inserted(h, h3, db, es, batch, db', es')
    ensures TrueWitness(h, h3, db, batch, db', es', info)
  {
    var record := info.circuitInfo;
    ShlInjective(record.proof.leafIndex, db.meta.subTreeCount, db.meta.subTreeHeight);
    IndicesFit(h, db, |batch|);
    var db1;
    db1, es' := TrueRounds(h, h3, db, es, batch, info.lowNullifiers);
    InsertDone(h, h3, db, es, Used(db), batch, db1, es', info.lowNullifiers);
    db' := AppendSpec(h, db1, record.leaves, true).0;
    WitnessEnds(h, h3, db, es, batch, info, db1, es', db');
  }

  lemma {:induction false} WitnessEnds(h: TreeHash, h3: LeafHash, db: TreeDb, es: Entries, batch: seq<Fr>,
                                       info: ImtInsertionInfo, db1: TreeDb, es1: Entries, db': TreeDb)
    requires CollisionFree(h, h3) && Coherently(h, h3, db, es) && info.oldRoot == db.meta.root
    requires CheckedWitness(h, h3, db.meta.treeHeight, db.meta.subTreeHeight, Used(db), batch, info)
    requires info.circuitInfo.proof.leafIndex == db.meta.subTreeCount
    requires AllInserted(h, h3, db, es, Used(db), batch, db1, es1, info.lowNullifiers)
    requires db' == AppendSpec(h, db1, info.circuitInfo.leaves, true).0
    ensures Inserted(h, h3, db, es, batch, db', es1) && TrueWitness(h, h3, db, batch, db', es1, info)
  {
    PartialUnusedZero(h, h3, db1, es1);
    assert Used(db) > 0;
    TrueRecord(h, h3, db1, info.circuitInfo);
    HashesOfPending(h3, es1, Used(db), info.circuitInfo.leaves);
    CircuitInserted(h, h3, db, es, batch, db1, es1, info.circuitInfo.leaves, db');
  }

  /** No witness for a value that is in the tree already checks against its root. */
  lemma {:induction false} DoubleSpendRefused(h: TreeHash, h3: LeafHash, db: TreeDb, es: Entries, batch: seq<Fr>,
                                              t: nat, info: ImtInsertionInfo)
    requires CollisionFree(h, h3) && Coherently(h, h3, db, es) && info.oldRoot == db.meta.root
    requires t < |batch| && batch[t] != 0 && Stored(es, batch[t])
    ensures !CheckedWitness(h, h3, db.meta.treeHeight, db.meta.subTreeHeight, Used(db), batch, info)
  {
    if CheckedWitness(h, h3, db.meta.treeHeight, db.meta.subTreeHeight, Used(db), batch, info) {
      var db', es' := WitnessSound(h, h3, db, es, batch, info);
    }
  }

  /** Whatever the hashes, the first value of a batch cannot name a low leaf from the batch. */
  lemma {:induction false} MadeUpLowRefused(h: TreeHash, h3: LeafHash, d: nat, e: nat, first: nat, batch: seq<Fr>,
                                            info: ImtInsertionInfo)
    requires batch != [] && batch[0] != 0 && |info.lowNullifiers| == |batch| && info.lowNullifiers[0].0.id >= first
    ensures !CheckedWitness(h, h3, d, e, first, batch, info)
  {
    FirstStepFails(h, h3, d + e, first, batch, info.lowNullifiers, info.oldRoot);
  }

  lemma {:induction false} FirstStepFails(h: TreeHash, h3: LeafHash, height: nat, first: nat, batch: seq<Fr>,
                                          lows: seq<LowWitness>, root: Fr)
    requires 0 < |lows| <= |batch| && batch[0] != 0 && lows[0].0.id >= first
    ensures ChainRun(h, h3, height, first, batch, lows, root).None?
    decreases |lows|
  {
    if |lows| > 1 { FirstStepFails(h, h3, height, first, batch, lows[..|lows| - 1], root); }
  }

  // ----- Several sub-trees

  lemma {:induction false} InsertedThen(h: TreeHash, h3: LeafHash, db: TreeDb, es: Entries, a: seq<Fr>, db1: TreeDb,
                                        es1: Entries, b: seq<Fr>, db2: TreeDb, es2: Entries)
    requires IdsBelow(es, Used(db)) && Inserted(h, h3, db, es, a, db1, es1) && NewValues(es, a)
    requires Inserted(h, h3, db1, es1, b, db2, es2) && NewValues(es1, b)
    ensures Inserted(h, h3, db, es, a + b, db2, es2) && NewValues(es, a + b)
  {
    ChunkIsNew(es, es1, a, b, Used(db));
    NextChunk(Values(es), es1, es2, a, b, Used(db), Used(db1));
  }

  /** The root reached by an insertion of a batch of new values. */
  ghost predicate InsertsTo(h: TreeHash, h3: LeafHash, db: TreeDb, es: Entries, batch: seq<Fr>, to: Fr) {
    && NewValues(es, batch)
    && exists db', es' :: Inserted(h, h3, db, es, batch, db', es') && db'.meta.root == to
  }

  /** A chain of checked witnesses from the root of a tree is an insertion of the whole batch. */
  lemma {:induction false} ChainSound(h: TreeHash, h3: LeafHash, db: TreeDb, es: Entries, batch: seq<Fr>,
                                      infos: seq<ImtInsertionInfo>, to: Fr)
    requires TreeChained(h, h3, db, batch, infos, to)
    ensures IsTree(h, h3, db, es) ==> InsertsTo(h, h3, db, es, batch, to)
    decreases |infos|
  {
    if infos == [] {
      NoneInserted(h, h3, db, es);
    } else {
      var last, n := infos[|infos| - 1], |batch| - Pow2(db.meta.subTreeHeight);
      ChainSound(h, h3, db, es, batch[..n], infos[..|infos| - 1], last.oldRoot);
      ChainContinues(h, h3, db, es, batch, n, last);
    }
  }

  /** A valid tree over hashes without collisions. */
  ghost predicate IsTree(h: TreeHash, h3: LeafHash, db: TreeDb, es: Entries) {
    CollisionFree(h, h3) && Coherently(h, h3, db, es)
  }

  lemma {:induction false} NoneInserted(h: TreeHash, h3: LeafHash, db: TreeDb, es: Entries)
    ensures IsTree(h, h3, db, es) ==> InsertsTo(h, h3, db, es, [], db.meta.root)
  {
    if IsTree(h, h3, db, es) { EmptyInsertion(h, h3, db, es); }
  }

  lemma {:induction false} ChainContinues(h: TreeHash, h3: LeafHash, db: TreeDb, es: Entries, batch: seq<Fr>, n: nat,
                                          info: ImtInsertionInfo)
    requires n <= |batch|
    requires CheckedWitness(h, h3, db.meta.treeHeight, db.meta.subTreeHeight, Used(db) + n, batch[n..], info)
    ensures IsTree(h, h3, db, es) && InsertsTo(h, h3, db, es, batch[..n], info.oldRoot) ==>
              InsertsTo(h, h3, db, es, batch, info.circuitInfo.newRoot)
  {
    NextSound(h, h3, db, es, batch[..n], batch[n..], info);
    assert batch[..n] + batch[n..] == batch;
  }

  lemma {:induction false} WitnessInserts(h: TreeHash, h3: LeafHash, db: TreeDb, es: Entries, batch: seq<Fr>,
                                          info: ImtInsertionInfo) returns (db': TreeDb, es': Entries)
    requires IsTree(h, h3, db, es) && info.oldRoot == db.meta.root
    requires CheckedWitness(h, h3, db.meta.treeHeight, db.meta.subTreeHeight, Used(db), batch, info)
    ensures NewValues(es, batch) && Inserted(h, h3, db, es, batch, db', es')
    ensures db'.meta.root == info.circuitInfo.newRoot
  {
    db', es' := WitnessSound(h, h3, db, es, batch, info);
  }

  lemma {:induction false} ThenInsertsTo(h: TreeHash, h3: LeafHash, db: TreeDb, es: Entries, a: seq<Fr>, db1: TreeDb,
                                         es1: Entries, b: seq<Fr>, db2: TreeDb, es2: Entries)
    requires NewValues(es, a) && NewValues(es1, b)
    ensures && IsTree(h, h3, db, es) && Inserted(h, h3, db, es, a, db1, es1) && Inserted(h, h3, db1, es1, b, db2, es2)
            ==> InsertsTo(h, h3, db, es, a + b, db2.meta.root)
  {
    if && IsTree(h, h3, db, es) && Inserted(h, h3, db, es, a, db1, es1)
       && Inserted(h, h3, db1, es1, b, db2, es2) {
      InsertedThen(h, h3, db, es, a, db1, es1, b, db2, es2);
    }
  }

  lemma {:induction false} NextSound(h: TreeHash, h3: LeafHash, db: TreeDb, es: Entries, done: seq<Fr>,
                                     chunk: seq<Fr>, info: ImtInsertionInfo)
    requires CheckedWitness(h, h3, db.meta.treeHeight, db.meta.subTreeHeight, Used(db) + |done|, chunk, info)
    ensures IsTree(h, h3, db, es) && InsertsTo(h, h3, db, es, done, info.oldRoot) ==>
              InsertsTo(h, h3, db, es, done + chunk, info.circuitInfo.newRoot)
  {
    if IsTree(h, h3, db, es) && InsertsTo(h, h3, db, es, done, info.oldRoot) {
      var db1, es1 :| Inserted(h, h3, db, es, done, db1, es1) && db1.meta.root == info.oldRoot;
      var db', es' := WitnessInserts(h, h3, db1, es1, chunk, info);
      ThenInsertsTo(h, h3, db, es, done, db1, es1, chunk, db', es');
    }
  }

  /** There are such hashes. */
  lemma {:induction false} HashesExist() returns (h: TreeHash, h3: LeafHash)
    ensures CollisionFree(h, h3)
  {
    h, h3 := (a, b) => Pairing(a, b), (a, b, c) => 1 + Pairing(a, Pairing(b, c));
    forall a, b, c, d ensures PairsApart(h, a, b, c, d) {
      if h(a, b) == h(c, d) { PairingInjective(a, b, c, d); }
    }
    forall a, b ensures LeavesApart(h3, a, b) {
      if HashLeaf(h3, a) == HashLeaf(h3, b) {
        PairingInjective(a.value, Pairing(a.nextIndex, a.nextValue), b.value, Pairing(b.nextIndex, b.nextValue));
        PairingInjective(a.nextIndex, a.nextValue, b.nextIndex, b.nextValue);
      }
    }
  }
}
