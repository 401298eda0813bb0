/** A cache left by a dry run and then a commit of something else. */
module StaleCache {
  import opened Basics
  import opened Fold
  import opened Heap
  import opened MutableSpec
  import opened MutableTheorems

  /** The last chunk of some. */
  ghost function LastChunk(leaves: seq<Fr>, cap: nat): seq<Fr>
    requires 0 < cap <= |leaves|
  {
    leaves[|leaves| - cap..]
  }

  /** A sub-tree hashed up from a slot. */
  ghost function HashedUp(h: TreeHash, meta: TreeMetadata, m: Nodes, slot: nat, chunk: seq<Fr>): Fr {
    FoldPath(h, SubRoot(h, chunk, meta.subTreeHeight, 0), SiblingPath(m, Pow2(meta.treeHeight) - 1 + slot))
  }

  lemma {:induction false} OneHashedUp(h: TreeHash, db: TreeDb, count: nat, batch: seq<Fr>)
    requires count < Pow2(db.meta.treeHeight)
    ensures AppendOneSpec(h, db, count, batch, true).1 == HashedUp(h, db.meta, db.View(), count, batch)
  {
    AppendOneHash(h, db, count, batch, true);
    CompleteTreeRoot(h, db.meta.subTreeHeight, batch);
  }

  /** A commit under a cache that covers its writes changes nothing a reader sees, whatever it
      commits, and returns its last sub-tree hashed up the siblings in view. */
  lemma {:induction false} CoveredLoop(h: TreeHash, db: TreeDb, count: nat, leaves: seq<Fr>, hash: Fr, slots: nat,
                                       last: Fr)
    requires Whole(|leaves|, db.meta.Capacity()) && slots == Chunks(|leaves|, db.meta.Capacity())
    requires count + slots <= Pow2(db.meta.treeHeight)
    requires forall j: nat | count <= j < count + slots :: SlotKeys(h, db.meta, j) <= db.cache.Keys
    requires if slots == 0 then last == hash
             else |leaves| >= db.meta.Capacity()
                  && last == HashedUp(h, db.meta, db.View(), count + slots - 1, LastChunk(leaves, db.meta.Capacity()))
    ensures var (db', hash') := AppendLoop(h, db, count, leaves, hash, true);
            db'.meta == db.meta && db'.View() == db.View() && hash' == last
    decreases |leaves|
  {
    if leaves != [] {
      var cap := db.meta.Capacity();
      OneChunk(leaves, cap);
      var batch, rest := leaves[..cap], leaves[cap..];
      var (db1, hash1) := AppendOneSpec(h, db, count, batch, true);
      AppendLoopStep(h, db, count, leaves, cap, hash, true, db1, hash1);
      StaleView(h, db, count, batch);
      OneHashedUp(h, db, count, batch);
      LastOfRest(leaves, cap);
      CoveredLoop(h, db1, count + 1, rest, hash1, slots - 1, last);
    }
  }

  lemma {:induction false} LastOfRest(leaves: seq<Fr>, cap: nat)
    requires 0 < cap <= |leaves|
    ensures |leaves| >= 2 * cap ==> LastChunk(leaves[cap..], cap) == LastChunk(leaves, cap)
    ensures |leaves| == cap ==> LastChunk(leaves, cap) == leaves[..cap]
  {
  }

  lemma {:induction false} SpliceInjective(s: seq<Fr>, at: nat, a: seq<Fr>, b: seq<Fr>)
    requires at + |a| <= |s| && |a| == |b| && Splice(s, at, a) == Splice(s, at, b)
    ensures a == b
  {
    forall t | 0 <= t < |a| ensures a[t] == b[t] {
      assert Splice(s, at, a)[at + t] == a[t] && Splice(s, at, b)[at + t] == b[t];
    }
  }

  /** After a dry run of `a`, a commit of as many other leaves `b` stores the nodes of `a` and a root
      of its own: the leaves are right exactly when `b` is `a`, and the tree is sound exactly when
      the last sub-tree of `b` hashes up from the last slot of `a`'s tree to the root of that tree. */
  lemma {:induction false} CommitOfOther(h: TreeHash, db: TreeDb, a: seq<Fr>, b: seq<Fr>, slot: nat)
    requires Sound(h, db) && Clean(db) && |a| == |b| > 0 && AppendError(db.meta, |a|).None?
    requires slot == db.meta.subTreeCount + db.meta.Slots(|a|) - 1
    ensures |b| >= db.meta.Capacity() && Used(db) + |a| <= |Leaves(db)|
    ensures var direct := AppendSpec(h, db, a, true).0;
            var (done, r) := AppendSpec(h, AppendSpec(h, db, a, false).0, b, true);
            var root := HashedUp(h, db.meta, direct.nodes, slot, LastChunk(b, db.meta.Capacity()));
            && r.Ok? && r.value.0 == root && done == direct.(meta := direct.meta.(root := root))
            && Leaves(done) == Splice(Leaves(db), Used(db), a)
            && (Leaves(done) == Splice(Leaves(db), Used(db), b) <==> a == b)
            && (Sound(h, done) <==> root == direct.meta.root)
  {
    var direct := AppendSpec(h, db, a, true).0;
    AppendKeeps(h, db, a);
    WholeChunks(|a|, db.meta.Capacity());
    var (dry, hash1) := AppendLoop(h, db, db.meta.subTreeCount, a, 0, false);
    AppendDry(h, db, a, dry, hash1);
    OtherLoops(h, db, a, b, dry, direct, slot);
    if Splice(Leaves(db), Used(db), a) == Splice(Leaves(db), Used(db), b) {
      SpliceInjective(Leaves(db), Used(db), a, b);
    }
  }

  lemma {:induction false} OtherLoops(h: TreeHash, db: TreeDb, a: seq<Fr>, b: seq<Fr>, dry: TreeDb, direct: TreeDb,
                                      slot: nat)
    requires Sound(h, db) && Clean(db) && |a| == |b| > 0 && AppendError(db.meta, |a|).None?
    requires Whole(|a|, db.meta.Capacity()) && Chunks(|a|, db.meta.Capacity()) == db.meta.Slots(|a|)
    requires dry == AppendLoop(h, db, db.meta.subTreeCount, a, 0, false).0
    requires direct == AppendSpec(h, db, a, true).0 && slot == db.meta.subTreeCount + db.meta.Slots(|a|) - 1
    ensures |b| >= db.meta.Capacity() && dry.meta == db.meta
    ensures var root := HashedUp(h, db.meta, direct.nodes, slot, LastChunk(b, db.meta.Capacity()));
            AppendSpec(h, dry, b, true)
            == (direct.(meta := direct.meta.(root := root)), Ok((root, db.meta.LeavesBelow(slot + 1))))
  {
    var meta, count, slots := db.meta, db.meta.subTreeCount, db.meta.Slots(|a|);
    assert db.View() == db.nodes;
    DryMirrorsCommit(h, db, db, count, a, 0);
    var (done, hash) := AppendLoop(h, db, count, a, 0, true);
    AppendCommits(h, db, a, done, hash, meta.Grown(|a|, hash));
    FinishClean(done, meta.Grown(|a|, hash));
    forall j: nat | count <= j < count + slots ensures SlotKeys(h, meta, j) <= dry.cache.Keys {
      DryCovers(h, db, count, a, 0, j, SlotKeys(h, meta, j));
    }
    OneChunk(a, meta.Capacity());
    var root := HashedUp(h, meta, direct.nodes, slot, LastChunk(b, meta.Capacity()));
    CoveredLoop(h, dry, count, b, 0, slots, root);
    var stale := AppendLoop(h, dry, count, b, 0, true).0;
    AppendCommits(h, dry, b, stale, root, meta.Grown(|b|, root));
  }

  /** One leaf after another: the stored root is the second and the node the first. */
  lemma {:induction false} OtherLeafIsStale(h: TreeHash, a: Fr, b: Fr)
    requires a != b
    ensures var (db, r) := AppendSpec(h, AppendSpec(h, EmptyDb(0, 0), [a], false).0, [b], true);
            r.Ok? && db.meta.root == b && Get(db.nodes, 0) == a && !Sound(h, db)
  {
    EmptyIsSound(h, 0, 0);
    assert SubRoot(h, [a], 0, 0) == a && SubRoot(h, [b], 0, 0) == b;
    InOneSlot(h, EmptyDb(0, 0), [a], [b], a, b);
  }

  /** In a tree of one slot the two roots have nothing to do with each other. */
  lemma {:induction false} InOneSlot(h: TreeHash, db: TreeDb, a: seq<Fr>, b: seq<Fr>, x: Fr, y: Fr)
    requires Sound(h, db) && Clean(db) && db.meta.treeHeight == db.meta.subTreeCount == 0
    requires |a| == |b| == db.meta.Capacity()
    requires x == SubRoot(h, a, db.meta.subTreeHeight, 0) && y == SubRoot(h, b, db.meta.subTreeHeight, 0)
    ensures var (db', r) := AppendSpec(h, AppendSpec(h, db, a, false).0, b, true);
            && r.Ok? && db'.meta.root == y && Get(db'.nodes, 0) == x
            && (Sound(h, db') <==> x == y)
  {
    FillsSlot(h, db, a, AppendSpec(h, db, a, true).0);
    QuotientOne(db.meta);
    CommitOfOther(h, db, a, b, 0);
    assert LastChunk(b, db.meta.Capacity()) == b;
  }

  lemma {:induction false} FillsSlot(h: TreeHash, db: TreeDb, a: seq<Fr>, db': TreeDb)
    requires Sound(h, db) && Clean(db) && db.meta.treeHeight == db.meta.subTreeCount == 0
    requires |a| == db.meta.Capacity() && db' == AppendSpec(h, db, a, true).0
    ensures AppendSpec(h, db, a, true).1.Ok? && db'.meta.subTreeCount == 1
    ensures Sound(h, db') && db'.meta.root == Get(db'.nodes, 0) == SubRoot(h, a, db.meta.subTreeHeight, 0)
  {
    QuotientOne(db.meta);
    AppendKeeps(h, db, a);
    WholeTree(h, db, a, db');
  }

  lemma {:induction false} QuotientOne(meta: TreeMetadata)
    ensures meta.Capacity() % meta.Capacity() == 0 && meta.Slots(meta.Capacity()) == 1
  {
  }

  lemma {:induction false} WholeTree(h: TreeHash, db: TreeDb, a: seq<Fr>, db': TreeDb)
    requires Sound(h, db') && db.meta.treeHeight == db.meta.subTreeCount == 0 && |a| == db.meta.Capacity()
    requires db'.meta == db.meta.(subTreeCount := db'.meta.subTreeCount, root := db'.meta.root)
    requires Used(db') == Used(db) + |a| <= |Leaves(db)| && Leaves(db') == Splice(Leaves(db), Used(db), a)
    ensures db'.meta.subTreeCount == 1 && db'.meta.root == SubRoot(h, a, db.meta.subTreeHeight, 0)
  {
    var e := db.meta.subTreeHeight;
    ShlOne(e);
    ShlIsProduct(db'.meta.subTreeCount, e);
    assert Leaves(db') == a;
    SoundRoot(h, db');
  }
}
