/** How the linked list of leaves and the mutable tree of an indexed tree belong together. */
module IndexedSpec {
  import opened Basics
  import opened Fold
  import opened Heap
  import opened MutableSpec
  import opened MutableTheorems
  import opened MutableRuns
  import opened Witness
  import opened LinkedLeaves

  function HashLeaf(h3: LeafHash, e: IndexedLeaf): Fr {
    h3(e.value, e.nextIndex, e.nextValue)
  }

  /** The tree leaf an id calls for: the hash of its entry, or zero where there is none. */
  ghost function LeafHashAt(h3: LeafHash, es: Entries, i: nat): Fr {
    if i in es then HashLeaf(h3, es[i]) else 0
  }

  ghost predicate IdsBelow(es: Entries, n: nat) {
    forall i | i in es :: i < n
  }

  /** The tree agrees with the list below `first` and is empty from there on. */
  ghost predicate Partial(h: TreeHash, h3: LeafHash, db: TreeDb, es: Entries, first: nat) {
    && Sound(h, db) && Clean(db) && Linked(es)
    && first <= Pow2(db.meta.Height())
    && forall x: nat {:trigger Leaves(db)[x]} | x < Pow2(db.meta.Height()) ::
         Leaves(db)[x] == if x < first then LeafHashAt(h3, es, x) else 0
  }

  /** The invariant of an indexed tree: a sound tree whose leaf at each entry's id is the hash
      of that entry, and whose other leaves are zero. */
  ghost predicate Coherently(h: TreeHash, h3: LeafHash, db: TreeDb, es: Entries) {
    Partial(h, h3, db, es, Used(db)) && IdsBelow(es, Used(db))
  }

  lemma {:induction false} PartialUnusedZero(h: TreeHash, h3: LeafHash, db: TreeDb, es: Entries)
    requires Partial(h, h3, db, es, Used(db))
    ensures UnusedZero(db)
  {
  }

  /** Replacing a single leaf: the effect on the leaves, and the root up the old proof. */
  lemma {:induction false} UpdateOneLeaf(h: TreeHash, db: TreeDb, i: nat, v: Fr)
    requires Sound(h, db) && Clean(db) && i < Pow2(db.meta.Height())
    ensures var (db', r) := UpdateSpec(h, db, i, [v], true);
            && Sound(h, db') && Clean(db') && r == Ok(db'.meta.root)
            && db'.meta == db.meta.(root := db'.meta.root)
            && Leaves(db') == Leaves(db)[i := v]
            && db'.meta.root == FoldPath(h, v, ProofPath(db, i))
  {
    RegularRows(db.meta, 1);
    UpdateErrors(db.meta, i, 1);
    UpdateKeeps(h, db, i, [v], db.meta.Height(), 0);
    assert Splice(Leaves(db), Shl(i, 0), [v]) == Leaves(db)[i := v];
    UpdateOneRoot(h, db, i, v);
  }

  lemma {:induction false} UpdateOneRoot(h: TreeHash, db: TreeDb, i: nat, v: Fr)
    requires Sound(h, db) && Clean(db) && i < Pow2(db.meta.Height()) && UpdateError(db.meta, i, 1).None?
    ensures UpdateSpec(h, db, i, [v], true).0.meta.root == FoldPath(h, v, ProofPath(db, i))
  {
    RegularRows(db.meta, 1);
    LeafTree(h, v);
    ClimbReachesRoot(h, db.View(), Pow2(db.meta.Height()) - 1 + i, v, db.meta.Height());
  }

  /** The proof of an agreeing leaf folds to the root. */
  lemma {:induction false} LeafProofFolds(h: TreeHash, h3: LeafHash, db: TreeDb, es: Entries, first: nat, i: nat)
    requires Partial(h, h3, db, es, first) && i in es && i < first
    ensures FoldPath(h, HashLeaf(h3, es[i]), ProofPath(db, i)) == db.meta.root
    ensures |ProofPath(db, i)| == db.meta.Height()
    ensures forall l | 0 <= l < db.meta.Height() :: ProofPath(db, i)[l].direction == DirectionAt(i, l)
  {
    ProofFolds(h, db, i);
    assert Leaves(db)[i] == HashLeaf(h3, es[i]);
    forall l | 0 <= l < db.meta.Height() ensures ProofPath(db, i)[l].direction == DirectionAt(i, l) {
      ProofDirections(db.View(), db.meta.Height(), i, l);
    }
  }

  // ----- Storing one value while the tree is partly behind

  /** The low leaf is pending: the tree part of the agreement is untouched. */
  lemma {:induction false} StorePending(h: TreeHash, h3: LeafHash, db: TreeDb, es: Entries, first: nat, x: Fr, id: nat,
                                        low: nat)
    requires Partial(h, h3, db, es, first) && x > 0 && !Stored(es, x) && IsLow(es, low, x)
    requires id !in es && first <= id && first <= low
    ensures Partial(h, h3, db, StoreSpec(es, x, id, low), first)
  {
    StoreKeepsLinked(es, x, id, low);
    forall y: nat | y < Pow2(db.meta.Height())
      ensures Leaves(db)[y] == if y < first then LeafHashAt(h3, StoreSpec(es, x, id, low), y) else 0
    {
    }
  }

  /** The low leaf is in the tree: rewriting its tree leaf restores the agreement. */
  lemma {:induction false} StoreAndPatch(h: TreeHash, h3: LeafHash, db: TreeDb, es: Entries, first: nat, x: Fr, id: nat,
                                         low: nat, db': TreeDb)
    requires Partial(h, h3, db, es, first) && x > 0 && !Stored(es, x) && IsLow(es, low, x)
    requires id !in es && low < first <= id
    requires db' == UpdateSpec(h, db, low, [HashLeaf(h3, StoreSpec(es, x, id, low)[low])], true).0
    ensures Partial(h, h3, db', StoreSpec(es, x, id, low), first)
    ensures db'.meta == db.meta.(root := db'.meta.root)
    ensures db'.meta.root == FoldPath(h, h3(es[low].value, id, x), ProofPath(db, low))
  {
    var es' := StoreSpec(es, x, id, low);
    StoreKeepsLinked(es, x, id, low);
    UpdateOneLeaf(h, db, low, HashLeaf(h3, es'[low]));
    forall y: nat | y < Pow2(db'.meta.Height())
      ensures Leaves(db')[y] == if y < first then LeafHashAt(h3, es', y) else 0
    {
      assert Leaves(db)[y] == if y < first then LeafHashAt(h3, es, y) else 0;
    }
  }

  // ----- Appending the new entries

  /** The tree leaves a batch calls for once its entries are stored. */
  ghost predicate BatchHashes(h3: LeafHash, es: Entries, at: nat, hashes: seq<Fr>) {
    forall t | 0 <= t < |hashes| :: hashes[t] == LeafHashAt(h3, es, at + t)
  }

  /** Appending exactly those leaves brings the tree level with the list. */
  lemma {:induction false} AppendCatchesUp(h: TreeHash, h3: LeafHash, db: TreeDb, es: Entries, hashes: seq<Fr>)
    requires Partial(h, h3, db, es, Used(db)) && BatchHashes(h3, es, Used(db), hashes)
    requires IdsBelow(es, Used(db) + |hashes|) && AppendSpec(h, db, hashes, true).1.Ok?
    ensures Coherently(h, h3, AppendSpec(h, db, hashes, true).0, es)
  {
    AppendKeeps(h, db, hashes);
    SplicedAgree(h, h3, db, es, hashes, AppendSpec(h, db, hashes, true).0);
  }

  lemma {:induction false} SplicedAgree(h: TreeHash, h3: LeafHash, db: TreeDb, es: Entries, hashes: seq<Fr>,
    db': TreeDb)
    requires Partial(h, h3, db, es, Used(db)) && BatchHashes(h3, es, Used(db), hashes) && IdsBelow(es, Used(db'))
    requires Sound(h, db') && Clean(db') && db'.meta.Height() == db.meta.Height()
    requires Used(db') == Used(db) + |hashes| <= Pow2(db.meta.Height())
    requires Leaves(db') == Splice(Leaves(db), Used(db), hashes)
    ensures Coherently(h, h3, db', es)
  {
    forall y: nat | y < Pow2(db'.meta.Height())
      ensures Leaves(db')[y] == if y < Used(db') then LeafHashAt(h3, es, y) else 0
    {
      SplicedLeaf(h3, es, Leaves(db), Used(db), hashes, y);
    }
  }

  lemma {:induction false} SplicedLeaf(h3: LeafHash, es: Entries, s: seq<Fr>, at: nat, hashes: seq<Fr>, y: nat)
    requires y < |s| && at + |hashes| <= |s| && BatchHashes(h3, es, at, hashes)
    requires s[y] == if y < at then LeafHashAt(h3, es, y) else 0
    ensures Splice(s, at, hashes)[y] == if y < at + |hashes| then LeafHashAt(h3, es, y) else 0
  {
    if at <= y < at + |hashes| { assert hashes[y - at] == LeafHashAt(h3, es, at + (y - at)); }
  }

  // ----- What a batch insertion amounts to

  ghost predicate DistinctNonZero(batch: seq<Fr>) {
    forall s, t | 0 <= s < t < |batch| && batch[s] == batch[t] :: batch[s] == 0
  }

  /** A batch that may be inserted: no non-zero value is stored already or repeated. */
  ghost predicate NewValues(es: Entries, batch: seq<Fr>) {
    NoneStored(es, batch) && DistinctNonZero(batch)
  }

  /** From `(db, es)` a successful insertion of `batch` reaches `(db', es')`. */
  ghost predicate Inserted(h: TreeHash, h3: LeafHash, db: TreeDb, es: Entries, batch: seq<Fr>, db': TreeDb,
    es': Entries) {
    && Coherently(h, h3, db', es')
    && Used(db') == Used(db) + |batch|
    && db'.meta == db.meta.(subTreeCount := db'.meta.subTreeCount, root := db'.meta.root)
    && Values(es') == Values(es) + Placement(batch, Used(db))
  }

  /** The result of an insertion is determined by the state before and the batch: the same
      entries, the same view of every node, the same root. */
  lemma {:induction false} InsertionDetermined(h: TreeHash, h3: LeafHash, db: TreeDb, es: Entries, batch: seq<Fr>,
                                               dbA: TreeDb, esA: Entries, dbB: TreeDb, esB: Entries)
    requires Inserted(h, h3, db, es, batch, dbA, esA) && Inserted(h, h3, db, es, batch, dbB, esB)
    ensures esA == esB
    ensures forall i: nat :: Get(dbA.View(), i) == Get(dbB.View(), i)
    ensures dbA.meta.root == dbB.meta.root
  {
    LinksDetermined(esA, esB);
    SameNodes(h, h3, dbA, dbB, esA);
  }

  lemma {:induction false} SameNodes(h: TreeHash, h3: LeafHash, a: TreeDb, b: TreeDb, es: Entries)
    requires Coherently(h, h3, a, es) && Coherently(h, h3, b, es) && a.meta.Height() == b.meta.Height()
    requires Used(a) == Used(b)
    ensures forall i: nat :: Get(a.View(), i) == Get(b.View(), i)
    ensures a.meta.root == b.meta.root
  {
    assert a.View() == a.nodes && b.View() == b.nodes;
    SameLeaves(h, h3, a, b, es, Used(a));
    LeavesDetermineNodes(h, a.nodes, b.nodes, a.meta.Height());
  }

  lemma {:induction false} SameLeaves(h: TreeHash, h3: LeafHash, a: TreeDb, b: TreeDb, es: Entries, first: nat)
    requires Partial(h, h3, a, es, first) && Partial(h, h3, b, es, first) && a.meta.Height() == b.meta.Height()
    ensures Leaves(a) == Leaves(b)
  {
    forall x: nat | x < Pow2(a.meta.Height()) ensures Leaves(a)[x] == Leaves(b)[x] {}
  }
}
