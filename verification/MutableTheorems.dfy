/** What the mutable tree keeps over every run, and how a dry run relates to a commit. */
module MutableTheorems {
  import opened Basics
  import opened Fold
  import opened Heap
  import opened MutableSpec

  ghost function EmptyDb(treeHeight: nat, subTreeHeight: nat): TreeDb {
    TreeDb(TreeMetadata(treeHeight, subTreeHeight, 0, 0), map[], map[])
  }

  lemma {:induction false} EmptyIsSound(h: TreeHash, treeHeight: nat, subTreeHeight: nat)
    requires treeHeight + subTreeHeight < U64_BITS
    ensures Sound(h, EmptyDb(treeHeight, subTreeHeight)) && Clean(EmptyDb(treeHeight, subTreeHeight))
    ensures UnusedZero(EmptyDb(treeHeight, subTreeHeight))
  {
    forall i: nat ensures NodeOk(h, map[], i) {}
    var db := EmptyDb(treeHeight, subTreeHeight);
    forall x: nat | x < Pow2(db.meta.Height()) ensures Leaves(db)[x] == 0 {
      assert Leaves(db)[x] == Get(map[], Pow2(db.meta.Height()) - 1 + x);
    }
  }

  // ----- Appending

  lemma {:induction false} FinishClean(db: TreeDb, meta: TreeMetadata)
    requires Clean(db)
    ensures db.View() == db.nodes && Finish(db, meta, true) == TreeDb(meta, db.nodes, map[])
  {
  }

  /** Committing writes to a clean database. */
  lemma {:induction false} CommitClean(db: TreeDb, w: Nodes, meta: TreeMetadata)
    requires Clean(db)
    ensures db.View() == db.nodes
    ensures Finish(db.Put(w, true), meta, true) == TreeDb(meta, db.nodes + w, map[])
  {
  }

  /** One step of an append, as long as its writes are visible to later reads. */
  lemma {:induction false} AppendOneStep(h: TreeHash, db: TreeDb, count: nat, batch: seq<Fr>, updateTree: bool)
    requires |batch| == db.meta.Capacity() && count < Pow2(db.meta.treeHeight) && (updateTree ==> Clean(db))
    ensures var (db', hash) := AppendOneSpec(h, db, count, batch, updateTree);
            && db'.View() == PutTree(h, db.View(), db.meta.treeHeight, count, db.meta.subTreeHeight, batch)
            && hash == Get(db'.View(), 0)
            && (if updateTree then db'.cache == db.cache else db'.nodes == db.nodes)
  {
    var r, sub := Pow2(db.meta.treeHeight) - 1 + count, CompleteTree(h, db.meta.subTreeHeight, batch);
    AppendOneWrites(h, db, count, batch, updateTree, r, sub);
    PutIsVisible(db, SubTreeWrites(h, db.View(), r, sub), updateTree);
  }

  lemma {:induction false} AppendOneWrites(h: TreeHash, db: TreeDb, count: nat, batch: seq<Fr>, updateTree: bool,
                                           r: nat, sub: seq<Fr>)
    requires count < Pow2(db.meta.treeHeight) && r == Pow2(db.meta.treeHeight) - 1 + count
    requires sub == CompleteTree(h, db.meta.subTreeHeight, batch)
    ensures AppendOneSpec(h, db, count, batch, updateTree)
            == (db.Put(SubTreeWrites(h, db.View(), r, sub), updateTree), Get(Written(h, db.View(), r, sub), 0))
  {
    ClimbIsWrite(h, db.View(), db.meta.treeHeight, r, sub);
  }

  lemma {:induction false} PutIsVisible(db: TreeDb, w: Nodes, updateTree: bool)
    requires updateTree ==> Clean(db)
    ensures db.Put(w, updateTree).View() == db.View() + w
  {
  }

  /** `post` is a coherent tree whose bottom row is that of `pre` with `leaves` put in from
      slot `count` on. */
  ghost predicate Extends(h: TreeHash, meta: TreeMetadata, pre: Nodes, post: Nodes, count: nat, leaves: seq<Fr>) {
    && Coherent(h, post, meta.Height()) && InTree(post, meta.Height())
    && Shl(count, meta.subTreeHeight) + |leaves| <= Pow2(meta.Height())
    && LeavesOf(post, meta.Height()) == Splice(LeavesOf(pre, meta.Height()), Shl(count, meta.subTreeHeight), leaves)
  }

  lemma {:induction false} ExtendsNone(h: TreeHash, meta: TreeMetadata, m: Nodes, count: nat)
    requires Coherent(h, m, meta.Height()) && InTree(m, meta.Height()) && count <= Pow2(meta.treeHeight)
    ensures Extends(h, meta, m, m, count, [])
  {
    ShlMono(count, Pow2(meta.treeHeight), meta.subTreeHeight);
    ShlPow2(meta.treeHeight, meta.subTreeHeight);
    var s := LeavesOf(m, meta.Height());
    assert Splice(s, Shl(count, meta.subTreeHeight), []) == s;
  }

  lemma {:induction false} ExtendsMore(h: TreeHash, meta: TreeMetadata, pre: Nodes, mid: Nodes, post: Nodes, count: nat,
                                       batch: seq<Fr>, rest: seq<Fr>)
    requires |batch| == meta.Capacity()
    requires Extends(h, meta, pre, mid, count, batch) && Extends(h, meta, mid, post, count + 1, rest)
    ensures Extends(h, meta, pre, post, count, batch + rest)
  {
    NextBlock(count, meta.subTreeHeight);
    SpliceTwice(LeavesOf(pre, meta.Height()), Shl(count, meta.subTreeHeight), batch, rest);
  }

  lemma {:induction false} SpliceTwice(s: seq<Fr>, at: nat, a: seq<Fr>, b: seq<Fr>)
    requires at + |a| + |b| <= |s|
    ensures Splice(Splice(s, at, a), at + |a|, b) == Splice(s, at, a + b)
  {
  }

  lemma {:induction false} PutTreeExtends(h: TreeHash, meta: TreeMetadata, m: Nodes, count: nat, batch: seq<Fr>)
    requires |batch| == meta.Capacity() && count < Pow2(meta.treeHeight)
    requires Coherent(h, m, meta.Height()) && InTree(m, meta.Height())
    ensures Extends(h, meta, m, PutTree(h, m, meta.treeHeight, count, meta.subTreeHeight, batch), count, batch)
  {
    PutTreeKeeps(h, m, meta.treeHeight, count, meta.subTreeHeight, batch);
  }

  lemma {:induction false} AppendOneExtends(h: TreeHash, db: TreeDb, count: nat, batch: seq<Fr>, updateTree: bool)
    requires |batch| == db.meta.Capacity() && count < Pow2(db.meta.treeHeight) && (updateTree ==> Clean(db))
    requires Coherent(h, db.View(), db.meta.Height()) && InTree(db.View(), db.meta.Height())
    ensures var (db', hash) := AppendOneSpec(h, db, count, batch, updateTree);
            && Extends(h, db.meta, db.View(), db'.View(), count, batch)
            && hash == Get(db'.View(), 0)
            && (if updateTree then db'.cache == db.cache else db'.nodes == db.nodes)
  {
    AppendOneStep(h, db, count, batch, updateTree);
    PutTreeExtends(h, db.meta, db.View(), count, batch);
  }

  /** The whole loop of an append, as long as its writes are visible to later reads. */
  lemma {:induction false} AppendLoopKeeps(h: TreeHash, db: TreeDb, count: nat, leaves: seq<Fr>, hash: Fr,
                                           updateTree: bool)
    requires Whole(|leaves|, db.meta.Capacity()) && (updateTree ==> Clean(db))
    requires count + Chunks(|leaves|, db.meta.Capacity()) <= Pow2(db.meta.treeHeight)
    requires Coherent(h, db.View(), db.meta.Height()) && InTree(db.View(), db.meta.Height())
    ensures var (db', hash') := AppendLoop(h, db, count, leaves, hash, updateTree);
            && db'.meta == db.meta
            && (if updateTree then db'.cache == db.cache else db'.nodes == db.nodes)
            && Extends(h, db.meta, db.View(), db'.View(), count, leaves)
            && (leaves != [] ==> hash' == Get(db'.View(), 0))
            && (leaves == [] ==> hash' == hash)
    decreases |leaves|
  {
    if leaves == [] {
      ExtendsNone(h, db.meta, db.View(), count);
    } else {
      var cap := db.meta.Capacity();
      var batch, rest := leaves[..cap], leaves[cap..];
      var (db1, hash1) := AppendOneSpec(h, db, count, batch, updateTree);
      AppendLoopStep(h, db, count, leaves, cap, hash, updateTree, db1, hash1);
      AppendOneExtends(h, db, count, batch, updateTree);
      AppendLoopKeeps(h, db1, count + 1, rest, hash1, updateTree);
      var db' := AppendLoop(h, db1, count + 1, rest, hash1, updateTree).0;
      ExtendsMore(h, db.meta, db.View(), db1.View(), db'.View(), count, batch, rest);
      assert leaves == batch + rest;
    }
  }

  /** A committed append from a clean, sound tree keeps it sound, replaces exactly the slots
      after the count, and returns the root it stores. It fails exactly on its own checks. */
  lemma {:induction false} AppendKeeps(h: TreeHash, db: TreeDb, leaves: seq<Fr>)
    requires Sound(h, db) && Clean(db)
    ensures var (db', r) := AppendSpec(h, db, leaves, true);
            && Sound(h, db') && Clean(db')
            && (r.Ok? <==> |leaves| % db.meta.Capacity() == 0 &&
                           db.meta.subTreeCount + db.meta.Slots(|leaves|) <= Pow2(db.meta.treeHeight))
            && (r.Err? ==> db' == db)
    ensures var (db', r) := AppendSpec(h, db, leaves, true);
            r.Ok? ==>
              && db'.meta == db.meta.(subTreeCount := db'.meta.subTreeCount, root := r.value.0)
              && Used(db') == Used(db) + |leaves| <= Pow2(db.meta.Height())
              && Leaves(db') == Splice(Leaves(db), Used(db), leaves)
  {
    var meta := db.meta;
    var cap := meta.Capacity();
    CommitClean(db, map[], meta);
    UsedInRange(h, db);
    if |leaves| == 0 {
      assert Splice(Leaves(db), Used(db), []) == Leaves(db);
    } else if AppendError(meta, |leaves|).None? {
      WholeChunks(|leaves|, cap);
      AppendLoopKeeps(h, db, meta.subTreeCount, leaves, 0, true);
      var (db1, hash) := AppendLoop(h, db, meta.subTreeCount, leaves, 0, true);
      AppendCommits(h, db, leaves, db1, hash, meta.Grown(|leaves|, hash));
      FinishClean(db1, meta.Grown(|leaves|, hash));
      ClaimedLeaves(meta.subTreeCount, |leaves|, meta.subTreeHeight);
    }
  }

  /** When a committed append succeeds. */
  lemma {:induction false} AppendAccepts(h: TreeHash, db: TreeDb, leaves: seq<Fr>)
    requires Sound(h, db) && Clean(db)
    ensures AppendSpec(h, db, leaves, true).1.Ok? <==>
              |leaves| % db.meta.Capacity() == 0
                && db.meta.subTreeCount + db.meta.Slots(|leaves|) <= Pow2(db.meta.treeHeight)
    ensures AppendSpec(h, db, leaves, true).1.Err? ==>
              && AppendSpec(h, db, leaves, true).0 == db
              && AppendSpec(h, db, leaves, true).1.error
                 == if |leaves| % db.meta.Capacity() != 0 then IncorrectBatchSize else TreeIsFull
  {
    AppendKeeps(h, db, leaves);
    AppendReturns(h, db, leaves, true);
  }

  /** What an append returns beside the root, committed or not: the number of leaves claimed when it is
      done, or which of its two checks it failed. */
  lemma {:induction false} AppendReturns(h: TreeHash, db: TreeDb, leaves: seq<Fr>, updateTree: bool)
    requires db.meta.Height() < U64_BITS
    ensures var (db', r) := AppendSpec(h, db, leaves, updateTree);
            var whole := |leaves| % db.meta.Capacity() == 0;
            var fits := leaves == [] || db.meta.subTreeCount + db.meta.Slots(|leaves|) <= Pow2(db.meta.treeHeight);
            && (r == Err(IncorrectBatchSize) <==> !whole) && (r == Err(TreeIsFull) <==> whole && !fits)
            && (r.Ok? <==> whole && fits)
            && (r.Ok? ==> r.value.1 == if updateTree then Used(db) + |leaves| else Used(db))
  {
    ShlIsProduct(db.meta.subTreeCount, db.meta.subTreeHeight);
    if AppendError(db.meta, |leaves|).None? {
      ShlIsProduct(db.meta.subTreeCount + db.meta.Slots(|leaves|), db.meta.subTreeHeight);
      ClaimedLeaves(db.meta.subTreeCount, |leaves|, db.meta.subTreeHeight);
    }
  }

  lemma {:induction false} ClaimedLeaves(count: nat, n: nat, e: nat)
    requires n % Pow2(e) == 0
    ensures Shl(count + n / Pow2(e), e) == Shl(count, e) + n
  {
    ShlAdd(count, n / Pow2(e), e);
    ShlIsProduct(n / Pow2(e), e);
  }

  /** With unused slots zero, the new root is the fold of all leaves appended so far, and
      the unused slots stay zero. */
  lemma {:induction false} AppendRoot(h: TreeHash, db: TreeDb, leaves: seq<Fr>)
    requires Sound(h, db) && Clean(db) && UnusedZero(db) && AppendSpec(h, db, leaves, true).1.Ok?
    ensures Used(db) <= |Leaves(db)|
    ensures var (db', r) := AppendSpec(h, db, leaves, true);
            && UnusedZero(db')
            && r.value.0 == SubRoot(h, Leaves(db)[..Used(db)] + leaves, db.meta.Height(), 0)
  {
    var (db', r) := AppendSpec(h, db, leaves, true);
    AppendKeeps(h, db, leaves);
    SoundRootOfUsed(h, db');
    assert Leaves(db')[..Used(db')] == Leaves(db)[..Used(db)] + leaves;
  }

  // ----- Dry runs

  /** A dry run computes what a direct commit computes, but in the cache. */
  lemma {:induction false} DryMirrorsCommit(h: TreeHash, dry: TreeDb, direct: TreeDb, count: nat, leaves: seq<Fr>,
                                            hash: Fr)
    requires dry.meta == direct.meta && dry.View() == direct.nodes && Clean(direct)
    ensures var (dry', hash') := AppendLoop(h, dry, count, leaves, hash, false);
            var (direct', hash'') := AppendLoop(h, direct, count, leaves, hash, true);
            && hash' == hash'' && Clean(direct') && direct'.nodes == dry'.View()
            && dry'.nodes == dry.nodes
            && dry'.meta == direct'.meta == dry.meta
    decreases |leaves|
  {
    var cap := dry.meta.Capacity();
    if |leaves| >= cap {
      var batch, rest := leaves[..cap], leaves[cap..];
      var (dry1, hash1) := AppendOneSpec(h, dry, count, batch, false);
      var (direct1, hash2) := AppendOneSpec(h, direct, count, batch, true);
      AppendLoopStep(h, dry, count, leaves, cap, hash, false, dry1, hash1);
      AppendLoopStep(h, direct, count, leaves, cap, hash, true, direct1, hash2);
      OneMirrors(h, dry, direct, count, batch);
      DryMirrorsCommit(h, dry1, direct1, count + 1, rest, hash1);
    }
  }

  lemma {:induction false} OneMirrors(h: TreeHash, dry: TreeDb, direct: TreeDb, count: nat, batch: seq<Fr>)
    requires dry.meta == direct.meta && dry.View() == direct.nodes && Clean(direct)
    ensures var (dry', hash) := AppendOneSpec(h, dry, count, batch, false);
            var (direct', hash') := AppendOneSpec(h, direct, count, batch, true);
            && hash == hash' && Clean(direct') && direct'.nodes == dry'.View()
            && dry'.nodes == dry.nodes
  {
    assert direct.View() == dry.View();
  }

  /** The nodes that putting a sub-tree into slot `count` writes. */
  ghost function SlotKeys(h: TreeHash, meta: TreeMetadata, count: nat): set<nat> {
    SubTreeWrites(h, map[], Pow2(meta.treeHeight) - 1 + count, CompleteTree(h, meta.subTreeHeight, [])).Keys
  }

  ghost function SlotWrites(h: TreeHash, db: TreeDb, count: nat, batch: seq<Fr>): Nodes {
    SubTreeWrites(h, db.View(), Pow2(db.meta.treeHeight) - 1 + count, CompleteTree(h, db.meta.subTreeHeight, batch))
  }

  lemma {:induction false} SlotWritesKeys(h: TreeHash, db: TreeDb, count: nat, batch: seq<Fr>)
    ensures SlotWrites(h, db, count, batch).Keys == SlotKeys(h, db.meta, count)
  {
    var e := db.meta.subTreeHeight;
    SubTreeWritesSameKeys(h, db.View(), map[], Pow2(db.meta.treeHeight) - 1 + count, CompleteTree(h, e, batch),
                          CompleteTree(h, e, []));
  }

  lemma {:induction false} AppendOnePuts(h: TreeHash, db: TreeDb, count: nat, batch: seq<Fr>, updateTree: bool)
    requires count < Pow2(db.meta.treeHeight)
    ensures AppendOneSpec(h, db, count, batch, updateTree).0 == db.Put(SlotWrites(h, db, count, batch), updateTree)
  {
    var d := db.meta.treeHeight;
    ClimbIsWrite(h, db.View(), d, Pow2(d) - 1 + count, CompleteTree(h, db.meta.subTreeHeight, batch));
  }

  lemma {:induction false} AppendOneHash(h: TreeHash, db: TreeDb, count: nat, batch: seq<Fr>, updateTree: bool)
    requires count < Pow2(db.meta.treeHeight)
    ensures AppendOneSpec(h, db, count, batch, updateTree).1
            == FoldPath(h, CompleteTree(h, db.meta.subTreeHeight, batch)[0],
              SiblingPath(db.View(), Pow2(db.meta.treeHeight) - 1 + count))
  {
    var d := db.meta.treeHeight;
    ClimbIsWrite(h, db.View(), d, Pow2(d) - 1 + count, CompleteTree(h, db.meta.subTreeHeight, batch));
  }

  lemma {:induction false} DryOneKeys(h: TreeHash, db: TreeDb, count: nat, batch: seq<Fr>)
    requires count < Pow2(db.meta.treeHeight)
    ensures SlotKeys(h, db.meta, count) <= AppendOneSpec(h, db, count, batch, false).0.cache.Keys
  {
    AppendOnePuts(h, db, count, batch, false);
    SlotWritesKeys(h, db, count, batch);
  }

  lemma {:induction false} DryGrows(h: TreeHash, db: TreeDb, count: nat, leaves: seq<Fr>, hash: Fr)
    ensures AppendLoop(h, db, count, leaves, hash, false).0.cache.Keys >= db.cache.Keys
    decreases |leaves|
  {
    var cap := db.meta.Capacity();
    if |leaves| >= cap {
      var (db1, hash1) := AppendOneSpec(h, db, count, leaves[..cap], false);
      AppendLoopStep(h, db, count, leaves, cap, hash, false, db1, hash1);
      DryGrows(h, db1, count + 1, leaves[cap..], hash1);
    }
  }

  lemma {:induction false} DryCoversFirst(h: TreeHash, db: TreeDb, count: nat, leaves: seq<Fr>, hash: Fr)
    requires count < Pow2(db.meta.treeHeight) && |leaves| >= db.meta.Capacity()
    ensures SlotKeys(h, db.meta, count) <= AppendLoop(h, db, count, leaves, hash, false).0.cache.Keys
  {
    var cap := db.meta.Capacity();
    var (db1, hash1) := AppendOneSpec(h, db, count, leaves[..cap], false);
    AppendLoopStep(h, db, count, leaves, cap, hash, false, db1, hash1);
    DryOneKeys(h, db, count, leaves[..cap]);
    DryGrows(h, db1, count + 1, leaves[cap..], hash1);
    SubsetTrans(SlotKeys(h, db.meta, count), db1.cache.Keys,
                AppendLoop(h, db, count, leaves, hash, false).0.cache.Keys);
  }

  lemma {:induction false} SubsetTrans(a: set<nat>, b: set<nat>, c: set<nat>)
    requires a <= b <= c
    ensures a <= c
  {
  }

  /** After a dry run the cache covers every node the batch writes. */
  lemma {:induction false} DryCovers(h: TreeHash, db: TreeDb, count: nat, leaves: seq<Fr>, hash: Fr, j: nat,
                                     keys: set<nat>)
    requires count + Chunks(|leaves|, db.meta.Capacity()) <= Pow2(db.meta.treeHeight)
    requires count <= j < count + Chunks(|leaves|, db.meta.Capacity())
    requires keys == SlotKeys(h, db.meta, j)
    ensures keys <= AppendLoop(h, db, count, leaves, hash, false).0.cache.Keys
    decreases |leaves|
  {
    if j == count {
      DryCoversFirst(h, db, count, leaves, hash);
    } else {
      var cap := db.meta.Capacity();
      var (db1, hash1) := AppendOneSpec(h, db, count, leaves[..cap], false);
      AppendLoopStep(h, db, count, leaves, cap, hash, false, db1, hash1);
      DryCovers(h, db1, count + 1, leaves[cap..], hash1, j, keys);
    }
  }

  /** The node of a slot is the root of the complete tree over the slot's leaves. */
  lemma {:induction false} SlotRoot(h: TreeHash, m: Nodes, d: nat, k: nat, e: nat, batch: seq<Fr>)
    requires k < Pow2(d) && Coherent(h, m, d + e)
    requires forall t: nat | t < Pow2(e) :: Leaf(batch, t) == Get(m, Pow2(d + e) - 1 + (Shl(k, e) + t))
    ensures Get(m, Pow2(d) - 1 + k) == CompleteTree(h, e, batch)[0]
  {
    var s := LeavesOf(m, d + e);
    Pow2Mono(d, d + e);
    CoherentIsComplete(h, m, d + e, Pow2(d) - 1 + k);
    NodeValIsSubRoot(h, d + e, s, d, k);
    LastBlock(d, k, e);
    ShlOne(e);
    forall t: nat | t < Pow2(e) ensures BlockLeaf(s, e, k, t) == BlockLeaf(batch, e, 0, t) {
      assert Leaf(batch, t) == Get(m, Pow2(d + e) - 1 + (Shl(k, e) + t));
    }
    SubRootCong(h, e, s, k, batch, 0);
    CompleteTreeRoot(h, e, batch);
  }

  /** `leaves` already stand in the bottom row from slot `count` on. */
  ghost predicate Present(meta: TreeMetadata, m: Nodes, count: nat, leaves: seq<Fr>) {
    forall t: nat | t < |leaves| ::
      leaves[t] == Get(m, Pow2(meta.Height()) - 1 + (Shl(count, meta.subTreeHeight) + t))
  }

  /** A covered commit changes nothing a reader sees. */
  lemma {:induction false} StaleView(h: TreeHash, db: TreeDb, count: nat, batch: seq<Fr>)
    requires count < Pow2(db.meta.treeHeight) && SlotKeys(h, db.meta, count) <= db.cache.Keys
    ensures var db' := AppendOneSpec(h, db, count, batch, true).0;
            db'.cache == db.cache && db'.View() == db.View()
  {
    AppendOnePuts(h, db, count, batch, true);
    SlotWritesKeys(h, db, count, batch);
    CoveredPut(db, SlotWrites(h, db, count, batch));
  }

  lemma {:induction false} CoveredPut(db: TreeDb, w: Nodes)
    requires w.Keys <= db.cache.Keys
    ensures db.Put(w, true).View() == db.View()
  {
  }

  /** Leaves that are already in view fold up to the root in view. */
  lemma {:induction false} PresentFold(h: TreeHash, m: Nodes, d: nat, k: nat, e: nat, batch: seq<Fr>)
    requires k < Pow2(d) && Coherent(h, m, d + e)
    requires forall t: nat | t < Pow2(e) :: Leaf(batch, t) == Get(m, Pow2(d + e) - 1 + (Shl(k, e) + t))
    ensures FoldPath(h, CompleteTree(h, e, batch)[0], SiblingPath(m, Pow2(d) - 1 + k)) == Get(m, 0)
  {
    SlotRoot(h, m, d, k, e, batch);
    Pow2Mono(d, d + e);
    CoherentFold(h, m, d + e, Pow2(d) - 1 + k);
  }

  /** A commit of leaves that are already in view hashes to the root in view. */
  lemma {:induction false} StaleHash(h: TreeHash, db: TreeDb, count: nat, batch: seq<Fr>)
    requires |batch| == db.meta.Capacity() && count < Pow2(db.meta.treeHeight)
    requires Coherent(h, db.View(), db.meta.Height()) && Present(db.meta, db.View(), count, batch)
    ensures AppendOneSpec(h, db, count, batch, true).1 == Get(db.View(), 0)
  {
    AppendOneHash(h, db, count, batch, true);
    PresentFold(h, db.View(), db.meta.treeHeight, count, db.meta.subTreeHeight, batch);
  }

  lemma {:induction false} StaleLoop(h: TreeHash, db: TreeDb, count: nat, leaves: seq<Fr>, hash: Fr)
    requires Whole(|leaves|, db.meta.Capacity())
    requires count + Chunks(|leaves|, db.meta.Capacity()) <= Pow2(db.meta.treeHeight)
    requires Coherent(h, db.View(), db.meta.Height()) && Present(db.meta, db.View(), count, leaves)
    requires forall j: nat | count <= j < count + Chunks(|leaves|, db.meta.Capacity()) ::
             SlotKeys(h, db.meta, j) <= db.cache.Keys
    ensures var (db', hash') := AppendLoop(h, db, count, leaves, hash, true);
            && db'.meta == db.meta && db'.cache == db.cache && db'.View() == db.View()
            && (leaves != [] ==> hash' == Get(db.View(), 0))
            && (leaves == [] ==> hash' == hash)
    decreases |leaves|
  {
    if leaves != [] {
      var cap := db.meta.Capacity();
      var batch, rest := leaves[..cap], leaves[cap..];
      var (db1, hash1) := AppendOneSpec(h, db, count, batch, true);
      AppendLoopStep(h, db, count, leaves, cap, hash, true, db1, hash1);
      PresentSplit(db.meta, db.View(), count, leaves);
      StaleView(h, db, count, batch);
      StaleHash(h, db, count, batch);
      StaleLoop(h, db1, count + 1, rest, hash1);
    }
  }

  lemma {:induction false} PresentSplit(meta: TreeMetadata, m: Nodes, count: nat, leaves: seq<Fr>)
    requires |leaves| >= meta.Capacity() && Present(meta, m, count, leaves)
    ensures Present(meta, m, count, leaves[..meta.Capacity()])
    ensures Present(meta, m, count + 1, leaves[meta.Capacity()..])
  {
    var cap := meta.Capacity();
    NextBlock(count, meta.subTreeHeight);
    var rest, next := leaves[cap..], Shl(count + 1, meta.subTreeHeight);
    forall t: nat | t < |rest| ensures rest[t] == Get(m, Pow2(meta.Height()) - 1 + (next + t)) {
      assert leaves[cap + t] == Get(m, Pow2(meta.Height()) - 1 + (Shl(count, meta.subTreeHeight) + (cap + t)));
    }
  }

  /** The view after the dry loop has what the stale commit needs. */
  lemma {:induction false} DryIsReady(h: TreeHash, db: TreeDb, leaves: seq<Fr>, dry: TreeDb)
    requires Sound(h, db) && Clean(db) && leaves != [] && Whole(|leaves|, db.meta.Capacity())
    requires db.meta.subTreeCount + Chunks(|leaves|, db.meta.Capacity()) <= Pow2(db.meta.treeHeight)
    requires dry == AppendLoop(h, db, db.meta.subTreeCount, leaves, 0, false).0
    ensures dry.meta == db.meta && dry.nodes == db.nodes
    ensures Coherent(h, dry.View(), db.meta.Height()) && Present(db.meta, dry.View(), db.meta.subTreeCount, leaves)
    ensures AppendLoop(h, db, db.meta.subTreeCount, leaves, 0, false).1 == Get(dry.View(), 0)
  {
    assert db.View() == db.nodes;
    AppendLoopKeeps(h, db, db.meta.subTreeCount, leaves, 0, false);
    SplicedIsPresent(db.meta, db.nodes, dry.View(), db.meta.subTreeCount, leaves);
  }

  /** Committing after the dry loop: same hash, and the same nodes once flushed. */
  lemma {:induction false} StaleAfterDry(h: TreeHash, db: TreeDb, leaves: seq<Fr>, dry: TreeDb)
    requires Sound(h, db) && Clean(db) && leaves != [] && Whole(|leaves|, db.meta.Capacity())
    requires db.meta.subTreeCount + Chunks(|leaves|, db.meta.Capacity()) <= Pow2(db.meta.treeHeight)
    requires dry == AppendLoop(h, db, db.meta.subTreeCount, leaves, 0, false).0
    ensures var (stale, hash) := AppendLoop(h, dry, db.meta.subTreeCount, leaves, 0, true);
            stale.meta == db.meta && stale.View() == dry.View() && hash == Get(dry.View(), 0)
  {
    var meta, count := db.meta, db.meta.subTreeCount;
    DryIsReady(h, db, leaves, dry);
    forall j: nat | count <= j < count + Chunks(|leaves|, meta.Capacity())
      ensures SlotKeys(h, meta, j) <= dry.cache.Keys {
      DryCovers(h, db, count, leaves, 0, j, SlotKeys(h, meta, j));
    }
    StaleLoop(h, dry, count, leaves, 0);
  }

  /** The dry loop, the commit after it and the direct commit agree. */
  lemma {:induction false} DryLoops(h: TreeHash, db: TreeDb, leaves: seq<Fr>, dry: TreeDb, hash1: Fr, stale: TreeDb,
                                    hash2: Fr, direct: TreeDb, hash3: Fr, meta: TreeMetadata)
    requires Sound(h, db) && Clean(db) && leaves != [] && Whole(|leaves|, db.meta.Capacity())
    requires db.meta.subTreeCount + Chunks(|leaves|, db.meta.Capacity()) <= Pow2(db.meta.treeHeight)
    requires (dry, hash1) == AppendLoop(h, db, db.meta.subTreeCount, leaves, 0, false)
    requires (stale, hash2) == AppendLoop(h, dry, db.meta.subTreeCount, leaves, 0, true)
    requires (direct, hash3) == AppendLoop(h, db, db.meta.subTreeCount, leaves, 0, true)
    ensures dry.meta == stale.meta == direct.meta == db.meta && dry.nodes == db.nodes
    ensures hash1 == hash2 == hash3 && Finish(stale, meta, true) == Finish(direct, meta, true)
  {
    assert db.View() == db.nodes;
    DryIsReady(h, db, leaves, dry);
    StaleAfterDry(h, db, leaves, dry);
    DryMirrorsCommit(h, db, db, db.meta.subTreeCount, leaves, 0);
    SameFinish(stale, direct, dry.View(), meta);
  }

  /** From a clean tree, a dry run and then the commit of the same leaves return the same root
      as each other and as a direct commit, leave the metadata and stored nodes untouched in
      between, and end in the very database a direct commit ends in. */
  lemma {:induction false} DryRunThenCommit(h: TreeHash, db: TreeDb, leaves: seq<Fr>)
    requires Sound(h, db) && Clean(db) && AppendSpec(h, db, leaves, true).1.Ok?
    ensures var (dry, r1) := AppendSpec(h, db, leaves, false);
            var (done, r2) := AppendSpec(h, dry, leaves, true);
            var (direct, r3) := AppendSpec(h, db, leaves, true);
            && dry.meta == db.meta && dry.nodes == db.nodes
            && r1.Ok? && r2 == r3 && r1.value.0 == r2.value.0
            && done == direct
  {
    if leaves != [] {
      var count := db.meta.subTreeCount;
      WholeChunks(|leaves|, db.meta.Capacity());
      var (dry, hash1) := AppendLoop(h, db, count, leaves, 0, false);
      var (stale, hash2) := AppendLoop(h, dry, count, leaves, 0, true);
      var (direct, hash3) := AppendLoop(h, db, count, leaves, 0, true);
      var meta := db.meta.Grown(|leaves|, hash1);
      DryLoops(h, db, leaves, dry, hash1, stale, hash2, direct, hash3, meta);
      AppendDry(h, db, leaves, dry, hash1);
      AppendCommits(h, dry, leaves, stale, hash1, meta);
      AppendCommits(h, db, leaves, direct, hash1, meta);
    }
  }

  lemma {:induction false} AppendCommits(h: TreeHash, db: TreeDb, leaves: seq<Fr>, db': TreeDb, hash: Fr,
                                         meta: TreeMetadata)
    requires leaves != [] && AppendError(db.meta, |leaves|).None? && meta == db.meta.Grown(|leaves|, hash)
    requires (db', hash) == AppendLoop(h, db, db.meta.subTreeCount, leaves, 0, true)
    ensures AppendSpec(h, db, leaves, true)
            == (Finish(db', meta, true), Ok((hash, db.meta.LeavesBelow(meta.subTreeCount))))
  {
  }

  lemma {:induction false} AppendDry(h: TreeHash, db: TreeDb, leaves: seq<Fr>, db': TreeDb, hash: Fr)
    requires leaves != [] && AppendError(db.meta, |leaves|).None?
    requires (db', hash) == AppendLoop(h, db, db.meta.subTreeCount, leaves, 0, false)
    ensures AppendSpec(h, db, leaves, false) == (db', Ok((hash, db.meta.LeavesBelow(db.meta.subTreeCount))))
  {
  }

  lemma {:induction false} SameFinish(a: TreeDb, b: TreeDb, view: Nodes, meta: TreeMetadata)
    requires a.View() == view && b.nodes == view && Clean(b)
    ensures Finish(a, meta, true) == Finish(b, meta, true)
  {
    assert b.nodes + b.cache == b.nodes;
  }

  lemma {:induction false} SplicedIsPresent(meta: TreeMetadata, pre: Nodes, post: Nodes, count: nat, leaves: seq<Fr>)
    requires Shl(count, meta.subTreeHeight) + |leaves| <= Pow2(meta.Height())
    requires LeavesOf(post, meta.Height())
             == Splice(LeavesOf(pre, meta.Height()), Shl(count, meta.subTreeHeight), leaves)
    ensures Present(meta, post, count, leaves)
  {
    var at, height := Shl(count, meta.subTreeHeight), meta.Height();
    forall t: nat | t < |leaves| ensures leaves[t] == Get(post, Pow2(height) - 1 + (at + t)) {
      assert LeavesOf(post, height)[at + t] == leaves[t];
    }
  }
}
