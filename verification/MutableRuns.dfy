/** Single-leaf inserts, updates, and runs of every committed operation of the mutable tree. */
module MutableRuns {
  import opened Basics
  import opened Fold
  import opened Heap
  import opened MutableSpec
  import opened MutableTheorems
  import opened PartialWrites

  /** A single leaf is a complete tree of height zero. */
  lemma {:induction false} LeafTree(h: TreeHash, leaf: Fr)
    ensures CompleteTree(h, 0, [leaf]) == [leaf]
  {
    CompleteTreeAt(h, 0, [leaf], 0);
  }

  // ----- Inserting a single leaf

  lemma {:induction false} InsertLeafPuts(h: TreeHash, db: TreeDb, leaf: Fr)
    requires Sound(h, db) && Clean(db) && db.meta.subTreeCount < Pow2(db.meta.treeHeight)
    ensures var (db', r) := InsertLeafSpec(h, db, leaf, true);
            && db'.nodes == PutTree(h, db.nodes, db.meta.Height(), Used(db), 0, [leaf])
            && Clean(db') && r.Ok? && r.value == Get(db'.nodes, 0)
            && db'.meta == db.meta.(subTreeCount := db.meta.subTreeCount + 1, root := r.value)
  {
    var height, m := db.meta.Height(), db.nodes;
    CommitClean(db, map[], db.meta);
    LastBlock(db.meta.treeHeight, db.meta.subTreeCount, db.meta.subTreeHeight);
    ShlIsProduct(db.meta.subTreeCount, db.meta.subTreeHeight);
    Pow2Fits(height);
    LeafTree(h, leaf);
    var r := Pow2(height) - 1 + Used(db);
    ClimbIsWrite(h, m, height, r, [leaf]);
    NoBlock(Climb(h, m, r, leaf, height).1, r, leaf);
    CommitClean(db, Climb(h, m, r, leaf, height).1, InsertLeafSpec(h, db, leaf, true).0.meta);
  }

  lemma {:induction false} NoBlock(w: Nodes, r: nat, v: Fr)
    ensures w + Block(r, [v], 1) == w
  {
  }

  /** A database whose nodes are those of a sound one with one complete tree put in. */
  lemma {:induction false} SoundAfterPut(h: TreeHash, db: TreeDb, db': TreeDb, d: nat, k: nat, e: nat, batch: seq<Fr>)
    requires Sound(h, db) && d + e == db.meta.Height() && k < Pow2(d) && |batch| == Pow2(e)
    requires db'.nodes == PutTree(h, db.nodes, d, k, e, batch)
    requires db'.meta == db.meta.(subTreeCount := db'.meta.subTreeCount, root := Get(db'.nodes, 0))
    requires db'.meta.subTreeCount <= Pow2(db.meta.treeHeight)
    ensures Sound(h, db') && Shl(k, e) + |batch| <= Pow2(db.meta.Height())
    ensures Leaves(db') == Splice(Leaves(db), Shl(k, e), batch)
  {
    PutTreeKeeps(h, db.nodes, d, k, e, batch);
  }

  lemma {:induction false} SpliceOne(s: seq<Fr>, at: nat, v: Fr)
    requires at < |s|
    ensures Splice(s, at, [v]) == s[at := v]
  {
  }

  /** `insert_leaf` takes the first leaf of the next slot; the rest of the slot stays as it is. */
  lemma {:induction false} InsertLeafKeeps(h: TreeHash, db: TreeDb, leaf: Fr)
    requires Sound(h, db) && Clean(db) && db.meta.subTreeCount < Pow2(db.meta.treeHeight)
    ensures var (db', r) := InsertLeafSpec(h, db, leaf, true);
            && Sound(h, db') && Clean(db') && r == Ok(db'.meta.root)
            && Used(db') == Used(db) + db.meta.Capacity() <= Pow2(db.meta.Height())
            && Leaves(db') == Leaves(db)[Used(db) := leaf]
  {
    LastBlock(db.meta.treeHeight, db.meta.subTreeCount, db.meta.subTreeHeight);
    NextBlock(db.meta.subTreeCount, db.meta.subTreeHeight);
    InsertLeafPuts(h, db, leaf);
    SoundAfterPut(h, db, InsertLeafSpec(h, db, leaf, true).0, db.meta.Height(), Used(db), 0, [leaf]);
    SpliceOne(Leaves(db), Used(db), leaf);
  }

  /** `insert_leaf` has no capacity check: it keeps the tree sound exactly when there is room. */
  lemma {:induction false} InsertLeafExact(h: TreeHash, db: TreeDb, leaf: Fr)
    requires Sound(h, db) && Clean(db)
    ensures InsertLeafSpec(h, db, leaf, true).1.Ok?
    ensures Sound(h, InsertLeafSpec(h, db, leaf, true).0) <==> db.meta.subTreeCount < Pow2(db.meta.treeHeight)
  {
    if db.meta.subTreeCount < Pow2(db.meta.treeHeight) {
      InsertLeafPuts(h, db, leaf);
      InsertLeafKeeps(h, db, leaf);
    } else {
      ShlIsProduct(db.meta.subTreeCount, db.meta.subTreeHeight);
      ShlPow2(db.meta.treeHeight, db.meta.subTreeHeight);
      Pow2Fits(db.meta.Height());
    }
  }

  /** An insert that is not committed returns what a committed one does and leaves its nodes in view,
      with metadata and stored nodes as they were. */
  lemma {:induction false} DryInsertLeaf(h: TreeHash, db: TreeDb, leaf: Fr)
    requires Clean(db)
    ensures var (dry, r) := InsertLeafSpec(h, db, leaf, false);
            var (done, r') := InsertLeafSpec(h, db, leaf, true);
            && r == r' && dry.meta == db.meta && dry.nodes == db.nodes && dry.View() == done.nodes
  {
    var height := db.meta.Height();
    var r := Pow2(height) - 1 + db.meta.LeavesBelow(db.meta.subTreeCount);
    if height < U64_BITS && r < U64_RANGE {
      assert db.View() == db.nodes;
      var (hash, w) := Climb(h, db.nodes, r, leaf, height);
      InsertLeafIs(h, db, leaf, r, hash, w);
      DryAndDone(db, w, db.meta.(subTreeCount := db.meta.subTreeCount + 1, root := hash));
    }
  }

  lemma {:induction false} InsertLeafIs(h: TreeHash, db: TreeDb, leaf: Fr, r: nat, hash: Fr, w: Nodes)
    requires r == Pow2(db.meta.Height()) - 1 + db.meta.LeavesBelow(db.meta.subTreeCount)
    requires db.meta.Height() < U64_BITS && r < U64_RANGE && (hash, w) == Climb(h, db.View(), r, leaf, db.meta.Height())
    ensures InsertLeafSpec(h, db, leaf, false) == (db.Put(w, false), Ok(hash))
    ensures InsertLeafSpec(h, db, leaf, true)
            == (Finish(db.Put(w, true), db.meta.(subTreeCount := db.meta.subTreeCount + 1, root := hash), true),
                Ok(hash))
  {
  }

  lemma {:induction false} DryAndDone(db: TreeDb, w: Nodes, meta: TreeMetadata)
    requires Clean(db)
    ensures db.Put(w, false).View() == Finish(db.Put(w, true), meta, true).nodes
    ensures db.Put(w, false).nodes == db.nodes && db.Put(w, false).meta == db.meta
  {
    CommitClean(db, w, meta);
    PutIsVisible(db, w, false);
  }

  /** What an insert into a full tree does: the leaf lands one row below the first leaf and rewrites
      the nodes above it up to the root's left child, whose new hash becomes the stored root. The
      internal nodes still hash their children, and the root is still the top node, exactly when
      that hash fits. */
  lemma {:induction false} InsertLeafFull(h: TreeHash, db: TreeDb, leaf: Fr)
    requires Sound(h, db) && Clean(db) && db.meta.subTreeCount == Pow2(db.meta.treeHeight)
    ensures var (db', r) := InsertLeafSpec(h, db, leaf, true);
            var height, m := db.meta.Height(), db.nodes;
            var hash := Climb(h, m, 2 * Pow2(height) - 1, leaf, height).0;
            && r == Ok(hash) && !InTree(db'.nodes, height)
            && (Coherent(h, db'.nodes, height) <==> height == 0 || h(hash, Get(m, 2)) == db.meta.root)
            && (Get(db'.nodes, 0) == db'.meta.root <==> hash == db.meta.root)
  {
    FullInsertWrites(h, db, leaf);
    FullWrite(h, db.nodes, db.meta.Height(), leaf);
  }

  lemma {:induction false} FullWrite(h: TreeHash, m: Nodes, height: nat, leaf: Fr)
    requires Coherent(h, m, height) && InTree(m, height)
    ensures var r := 2 * Pow2(height) - 1;
            var hash, m' := Climb(h, m, r, leaf, height).0, PartialWrite(h, m, r, [leaf], height);
            && !InTree(m', height) && Get(m', 0) == Get(m, 0)
            && (Coherent(h, m', height) <==> height == 0 || h(hash, Get(m, 2)) == Get(m, 0))
  {
    var r := 2 * Pow2(height) - 1;
    FullClimb(height);
    PartialRange(h, m, height, r, [leaf], height);
    PartialRoot(h, m, r, [leaf], height);
    PartialWriteExact(h, m, height, r, [leaf], height);
    assert BottomFits(m, height, r, [leaf]);
  }

  lemma {:induction false} FullInsertWrites(h: TreeHash, db: TreeDb, leaf: Fr)
    requires Sound(h, db) && Clean(db) && db.meta.subTreeCount == Pow2(db.meta.treeHeight)
    ensures var height := db.meta.Height();
            var hash := Climb(h, db.nodes, 2 * Pow2(height) - 1, leaf, height).0;
            var (db', r) := InsertLeafSpec(h, db, leaf, true);
            && r == Ok(hash) && db'.meta.root == hash
            && db'.nodes == PartialWrite(h, db.nodes, 2 * Pow2(height) - 1, [leaf], height)
  {
    var height := db.meta.Height();
    ShlIsProduct(db.meta.subTreeCount, db.meta.subTreeHeight);
    ShlPow2(db.meta.treeHeight, db.meta.subTreeHeight);
    Pow2Fits(height);
    var w := Climb(h, db.nodes, 2 * Pow2(height) - 1, leaf, height).1;
    CommitClean(db, w, InsertLeafSpec(h, db, leaf, true).0.meta);
    NoBlock(w, 2 * Pow2(height) - 1, leaf);
  }

  lemma {:induction false} FullClimb(height: nat)
    ensures Ancestor(2 * Pow2(height) - 1, height) == 1
  {
    BlockAncestor(1, 0, height);
    ShlOne(height);
    assert Pow2(1 + height) == 2 * Pow2(height);
  }

  /** What goes wrong without room: the stored root and node 0 part ways. */
  lemma {:induction false} InsertLeafOverrun(h: TreeHash, a: Fr, b: Fr)
    requires a != b
    ensures var db := TreeDb(TreeMetadata(0, 0, 1, a), map[0 := a], map[]);
            var (db', r) := InsertLeafSpec(h, db, b, true);
            Sound(h, db) && Clean(db) && r == Ok(b) && db'.meta.root == b && Get(db'.nodes, 0) == a
  {
    var db := TreeDb(TreeMetadata(0, 0, 1, a), map[0 := a], map[]);
    assert Climb(h, db.View(), 1, b, 0) == (b, map[1 := b]);
  }

  // ----- Updating a sub-tree

  /** The lengths an update is meant for: one leaf, or a regular sub-tree. */
  ghost predicate RegularLength(meta: TreeMetadata, n: nat) {
    n == 1 || n == meta.Capacity()
  }

  lemma {:induction false} Log2OfPow2(e: nat)
    ensures Log2(Pow2(e)) == e && PowerOfTwo(Pow2(e))
  {
    if e > 0 { Log2OfPow2(e - 1); }
  }

  lemma {:induction false} RegularRows(meta: TreeMetadata, n: nat)
    requires RegularLength(meta, n)
    ensures PowerOfTwo(n) && Log2(n) <= meta.Height() && Pow2(Log2(n)) == n
    ensures UpdateRow(meta, n) + Log2(n) == meta.Height()
    ensures RowsWritten(meta, n) == Log2(n)
  {
    Log2OfPow2(0);
    Log2OfPow2(meta.subTreeHeight);
  }

  /** What a committed update does to a clean database once its checks have passed. */
  lemma {:induction false} UpdateRuns(h: TreeHash, db: TreeDb, index: nat, leaves: seq<Fr>, row: nat, r: nat,
                                      sub: seq<Fr>, n: nat)
    requires Clean(db) && UpdateError(db.meta, index, |leaves|).None?
    requires row == UpdateRow(db.meta, |leaves|) && r == Pow2(row) - 1 + index
    requires sub == CompleteTree(h, Log2(|leaves|), leaves) && n == 2 * Pow2(RowsWritten(db.meta, |leaves|)) - 1
    ensures n <= |sub|
    ensures var (hash, w) := Climb(h, db.nodes, r, sub[0], row);
            UpdateSpec(h, db, index, leaves, true)
            == (TreeDb(db.meta.(root := hash), db.nodes + (w + Block(r, sub, n)), map[]), Ok(hash))
  {
    var (hash, w) := Climb(h, db.nodes, r, sub[0], row);
    CommitClean(db, w + Block(r, sub, n), db.meta.(root := hash));
  }

  lemma {:induction false} UpdatePuts(h: TreeHash, db: TreeDb, index: nat, leaves: seq<Fr>, row: nat, e: nat)
    requires Clean(db) && RegularLength(db.meta, |leaves|) && UpdateError(db.meta, index, |leaves|).None?
    requires PowerOfTwo(|leaves|) && e == Log2(|leaves|) <= db.meta.Height() && row == UpdateRow(db.meta, |leaves|)
    requires index < Pow2(row)
    ensures var (db', r) := UpdateSpec(h, db, index, leaves, true);
            && db'.nodes == PutTree(h, db.nodes, row, index, e, leaves)
            && Clean(db') && r.Ok? && r.value == Get(db'.nodes, 0)
            && db'.meta == db.meta.(root := r.value)
  {
    RegularRows(db.meta, |leaves|);
    var r, sub := Pow2(row) - 1 + index, CompleteTree(h, e, leaves);
    UpdateRuns(h, db, index, leaves, row, r, sub, |sub|);
    ClimbIsWrite(h, db.nodes, row, r, sub);
  }

  /** An update of a regular length, in range, replaces exactly its own leaves. */
  lemma {:induction false} UpdateKeeps(h: TreeHash, db: TreeDb, index: nat, leaves: seq<Fr>, row: nat, e: nat)
    requires Sound(h, db) && Clean(db) && RegularLength(db.meta, |leaves|)
    requires UpdateError(db.meta, index, |leaves|).None?
    requires PowerOfTwo(|leaves|) && e == Log2(|leaves|) <= db.meta.Height() && row == UpdateRow(db.meta, |leaves|)
    requires index < Pow2(row)
    ensures Shl(index, e) + |leaves| <= Pow2(db.meta.Height())
    ensures var (db', r) := UpdateSpec(h, db, index, leaves, true);
            && Sound(h, db') && Clean(db') && r == Ok(db'.meta.root)
            && db'.meta == db.meta.(root := db'.meta.root)
            && Leaves(db') == Splice(Leaves(db), Shl(index, e), leaves)
  {
    RegularRows(db.meta, |leaves|);
    UpdatePuts(h, db, index, leaves, row, e);
    SoundAfterPut(h, db, UpdateSpec(h, db, index, leaves, true).0, row, index, e, leaves);
  }

  /** What every update comes to: a length that is not a power of two, then an index that is not a leaf,
      then a length greater than the tree, are errors; of the others, shorter than a regular sub-tree
      but not a single leaf, panic. */
  lemma {:induction false} UpdateErrors(meta: TreeMetadata, index: nat, n: nat)
    requires meta.Height() < U64_BITS
    ensures var size := Pow2(meta.Height());
            var error := UpdateError(meta, index, n);
            && (error == Some(IncorrectBatchSize) <==> !PowerOfTwo(n))
            && (error == Some(InvalidIndex) <==> PowerOfTwo(n) && index >= size)
            && (error == Some(Failed) <==> PowerOfTwo(n) && index < size < n)
            && (error == Some(Panicked) <==> PowerOfTwo(n) && index < size && 1 < n < meta.Capacity())
            && (error == None
                <==> PowerOfTwo(n) && index < size && n <= size && (n == 1 || n >= meta.Capacity()))
  {
    Pow2Mono(meta.subTreeHeight, meta.Height());
    if PowerOfTwo(n) {
      if Log2(n) <= meta.Height() { Pow2Mono(Log2(n), meta.Height()); }
      else { Pow2Mono(meta.Height() + 1, Log2(n)); }
    }
  }

  // ----- Any update

  /** The rows of an update that are written. */
  ghost function TopRows(h: TreeHash, meta: TreeMetadata, leaves: seq<Fr>): (top: seq<Fr>)
    requires PowerOfTwo(|leaves|) && Pow2(RowsWritten(meta, |leaves|)) <= |leaves|
    ensures |top| == 2 * Pow2(RowsWritten(meta, |leaves|)) - 1
  {
    CompleteTree(h, Log2(|leaves|), leaves)[..2 * Pow2(RowsWritten(meta, |leaves|)) - 1]
  }

  lemma {:induction false} TopRowsOk(h: TreeHash, meta: TreeMetadata, leaves: seq<Fr>)
    requires PowerOfTwo(|leaves|) && Pow2(RowsWritten(meta, |leaves|)) <= |leaves|
    ensures TopOk(h, TopRows(h, meta, leaves)) && |TopRows(h, meta, leaves)| % 2 == 1
  {
    var e, top := Log2(|leaves|), TopRows(h, meta, leaves);
    forall q: nat | 2 * q + 2 < |top| ensures top[q] == h(top[2 * q + 1], top[2 * q + 2]) {
      CompleteTreeAt(h, e, leaves, q);
      CompleteTreeAt(h, e, leaves, 2 * q + 1);
      CompleteTreeAt(h, e, leaves, 2 * q + 2);
    }
  }

  lemma {:induction false} BlockPrefix(r: nat, sub: seq<Fr>, n: nat, k: nat)
    requires k <= n <= |sub|
    ensures Block(r, sub, k) == Block(r, sub[..n], k)
    decreases k
  {
    if k > 1 { BlockPrefix(r, sub, n, k - 1); }
  }

  lemma {:induction false} UpdateWrites(h: TreeHash, db: TreeDb, index: nat, leaves: seq<Fr>, row: nat, r: nat,
                                        top: seq<Fr>)
    requires Clean(db) && UpdateError(db.meta, index, |leaves|).None?
    requires row == UpdateRow(db.meta, |leaves|) && r == Pow2(row) - 1 + index && top == TopRows(h, db.meta, leaves)
    ensures var hash := Climb(h, db.nodes, r, top[0], row).0;
            UpdateSpec(h, db, index, leaves, true)
            == (TreeDb(db.meta.(root := hash), PartialWrite(h, db.nodes, r, top, row), map[]), Ok(hash))
  {
    var sub := CompleteTree(h, Log2(|leaves|), leaves);
    UpdateRuns(h, db, index, leaves, row, r, sub, |top|);
    BlockPrefix(r, sub, |top|, |top|);
  }

  /** When any accepted update, of whatever length and index, keeps the tree sound: what it writes
      lies in the tree; its last row is there already unless it is the row of leaves; and its climb
      reaches the root or ends in a hash that is the old root and fits the node above it. */
  lemma {:induction false} UpdateSoundExactly(h: TreeHash, db: TreeDb, index: nat, leaves: seq<Fr>, row: nat, r: nat,
                                              top: seq<Fr>)
    requires Sound(h, db) && Clean(db) && UpdateError(db.meta, index, |leaves|).None?
    requires row == UpdateRow(db.meta, |leaves|) && r == Pow2(row) - 1 + index && top == TopRows(h, db.meta, leaves)
    ensures var hash, height := Climb(h, db.nodes, r, top[0], row).0, db.meta.Height();
            Sound(h, UpdateSpec(h, db, index, leaves, true).0) <==>
              && Below(r, |top| - 1) < 2 * Pow2(height) - 1
              && BottomFits(db.nodes, height, r, top)
              && (index < Pow2(row) || (hash == db.meta.root && Attached(h, db.nodes, height, Ancestor(r, row), hash)))
  {
    TopRowsOk(h, db.meta, leaves);
    UpdateWrites(h, db, index, leaves, row, r, top);
    ClimbEnds(r, row);
    PartialSound(h, db, r, top, row);
  }

  lemma {:induction false} PartialSound(h: TreeHash, db: TreeDb, r: nat, top: seq<Fr>, up: nat)
    requires Sound(h, db) && r >= Pow2(up) - 1 && |top| > 0 && |top| % 2 == 1 && TopOk(h, top)
    ensures var hash, height := Climb(h, db.nodes, r, top[0], up).0, db.meta.Height();
            Sound(h, TreeDb(db.meta.(root := hash), PartialWrite(h, db.nodes, r, top, up), map[])) <==>
              && Below(r, |top| - 1) < 2 * Pow2(height) - 1
              && BottomFits(db.nodes, height, r, top)
              && (Ancestor(r, up) == 0
                  || (hash == db.meta.root && Attached(h, db.nodes, height, Ancestor(r, up), hash)))
  {
    SoundParts(h, db, Climb(h, db.nodes, r, top[0], up).0, PartialWrite(h, db.nodes, r, top, up));
    PartialRange(h, db.nodes, db.meta.Height(), r, top, up);
    PartialRoot(h, db.nodes, r, top, up);
    PartialWriteExact(h, db.nodes, db.meta.Height(), r, top, up);
  }

  lemma {:induction false} SoundParts(h: TreeHash, db: TreeDb, root: Fr, m: Nodes)
    requires Sound(h, db)
    ensures Sound(h, TreeDb(db.meta.(root := root), m, map[])) <==>
              InTree(m, db.meta.Height()) && Coherent(h, m, db.meta.Height()) && Get(m, 0) == root
  {
  }

  /** A regular update whose slot is out of range writes below the tree. */
  lemma {:induction false} UpdateOutOfRange(h: TreeHash, db: TreeDb, index: nat, leaves: seq<Fr>, row: nat, r: nat,
                                            top: seq<Fr>)
    requires Sound(h, db) && Clean(db) && RegularLength(db.meta, |leaves|)
    requires UpdateError(db.meta, index, |leaves|).None?
    requires row == UpdateRow(db.meta, |leaves|) && r == Pow2(row) - 1 + index && top == TopRows(h, db.meta, leaves)
    requires index >= Pow2(row)
    ensures !Sound(h, UpdateSpec(h, db, index, leaves, true).0)
  {
    StrayTop(h, db.meta, index, leaves, row, r, top);
    UpdateSoundExactly(h, db, index, leaves, row, r, top);
  }

  lemma {:induction false} StrayTop(h: TreeHash, meta: TreeMetadata, index: nat, leaves: seq<Fr>, row: nat, r: nat,
                                    top: seq<Fr>)
    requires RegularLength(meta, |leaves|) && PowerOfTwo(|leaves|) && Log2(|leaves|) <= meta.Height()
    requires Pow2(RowsWritten(meta, |leaves|)) <= |leaves| && row == UpdateRow(meta, |leaves|)
    requires r == Pow2(row) - 1 + index && top == TopRows(h, meta, leaves) && index >= Pow2(row)
    ensures Below(r, |top| - 1) >= 2 * Pow2(meta.Height()) - 1
  {
    RegularRows(meta, |leaves|);
    StrayRow(row, index, Log2(|leaves|));
  }

  lemma {:induction false} StrayRow(row: nat, index: nat, e: nat)
    requires index >= Pow2(row)
    ensures Below(Pow2(row) - 1 + index, 2 * Pow2(e) - 2) >= 2 * Pow2(row + e) - 1
  {
    BelowRow(Pow2(row) - 1 + index, e, Pow2(e) - 1);
    RowStartOf(row, index, e);
    ShlMono(Pow2(row), index, e);
    ShlPow2(row, e);
  }

  /** `update_sub_tree` checks its index against the number of leaves, not of slots. For its
      two regular lengths it keeps the tree sound exactly when the index names a slot. */
  lemma {:induction false} UpdateExact(h: TreeHash, db: TreeDb, index: nat, leaves: seq<Fr>)
    requires Sound(h, db) && Clean(db) && RegularLength(db.meta, |leaves|)
    requires UpdateError(db.meta, index, |leaves|).None?
    ensures PowerOfTwo(|leaves|) && Log2(|leaves|) <= db.meta.Height()
    ensures Sound(h, UpdateSpec(h, db, index, leaves, true).0) <==> index < Pow2(UpdateRow(db.meta, |leaves|))
  {
    RegularRows(db.meta, |leaves|);
    var row := UpdateRow(db.meta, |leaves|);
    if index < Pow2(row) {
      UpdateKeeps(h, db, index, leaves, row, Log2(|leaves|));
    } else {
      UpdateOutOfRange(h, db, index, leaves, row, Pow2(row) - 1 + index, TopRows(h, db.meta, leaves));
    }
  }

  /** A regular update of the second slot of a tree that has one: accepted, and written below it. */
  lemma {:induction false} StrayUpdate(h: TreeHash, a: Fr, b: Fr)
    ensures UpdateError(EmptyDb(0, 1).meta, 1, 2).None? && !Sound(h, UpdateSpec(h, EmptyDb(0, 1), 1, [a, b], true).0)
  {
    assert Log2(2) == 1 && PowerOfTwo(2);
    EmptyIsSound(h, 0, 1);
    UpdateExact(h, EmptyDb(0, 1), 1, [a, b]);
  }

  /** An update shorter than a regular sub-tree walks past its own end. */
  lemma {:induction false} ShortUpdatePanics(h: TreeHash, a: Fr, b: Fr, updateTree: bool)
    ensures UpdateSpec(h, EmptyDb(0, 2), 0, [a, b], updateTree) == (EmptyDb(0, 2), Err(Panicked))
  {
    assert Log2(2) == 1 && PowerOfTwo(2) && Pow2(2) == 4;
  }

  /** An empty update is refused as one of the wrong length. */
  lemma {:induction false} EmptyUpdateRefused(h: TreeHash, db: TreeDb, index: nat, updateTree: bool)
    requires db.meta.Height() < U64_BITS
    ensures UpdateSpec(h, db, index, [], updateTree) == (db, Err(IncorrectBatchSize))
  {
    assert !PowerOfTwo(0);
  }

  /** A long update: accepted, written only as deep as a regular sub-tree, it moves the root and
      leaves the leaves behind. */
  lemma {:induction false} LongUpdateIsStale(h: TreeHash, a: Fr, b: Fr)
    requires h(a, b) != 0
    ensures UpdateError(EmptyDb(1, 0).meta, 0, 2).None?
    ensures !Sound(h, UpdateSpec(h, EmptyDb(1, 0), 0, [a, b], true).0)
  {
    var db := EmptyDb(1, 0);
    assert Log2(2) == 1 && PowerOfTwo(2);
    EmptyIsSound(h, 1, 0);
    var top := TopRows(h, db.meta, [a, b]);
    UpdateSoundExactly(h, db, 0, [a, b], 0, 0, top);
    CompleteTreeRoot(h, 1, [a, b]);
    assert SubRoot(h, [a, b], 1, 0) == h(a, b);
    assert Get(db.nodes, Below(0, 0)) != top[0];
  }

  /** An update that is not committed writes its nodes to the cache but replaces the stored root all
      the same: the tree stays sound exactly when climbing from the new sub-tree's root leads to the
      old root. */
  lemma {:induction false} DryUpdateExact(h: TreeHash, db: TreeDb, index: nat, leaves: seq<Fr>, row: nat, r: nat)
    requires Sound(h, db) && UpdateError(db.meta, index, |leaves|).None?
    requires row == UpdateRow(db.meta, |leaves|) && r == Pow2(row) - 1 + index
    ensures var hash := Climb(h, db.View(), r, SubRoot(h, leaves, Log2(|leaves|), 0), row).0;
            var (db', result) := UpdateSpec(h, db, index, leaves, false);
            && result == Ok(hash) && db'.nodes == db.nodes && db'.meta == db.meta.(root := hash)
            && (Sound(h, db') <==> hash == db.meta.root)
  {
    var sub := CompleteTree(h, Log2(|leaves|), leaves);
    CompleteTreeRoot(h, Log2(|leaves|), leaves);
    var (db', hash) := PutSubTree(h, db, r, sub, row, RowsWritten(db.meta, |leaves|), false);
    assert UpdateSpec(h, db, index, leaves, false) == (Finish(db', db.meta.(root := hash), false), Ok(hash));
  }

  /** What it leaves in view is what a committed update stores. */
  lemma {:induction false} DryUpdateView(h: TreeHash, db: TreeDb, index: nat, leaves: seq<Fr>)
    requires Clean(db) && UpdateError(db.meta, index, |leaves|).None?
    ensures UpdateSpec(h, db, index, leaves, false).0.View() == UpdateSpec(h, db, index, leaves, true).0.nodes
  {
    var row := UpdateRow(db.meta, |leaves|);
    var r, sub, down := Pow2(row) - 1 + index, CompleteTree(h, Log2(|leaves|), leaves), RowsWritten(db.meta, |leaves|);
    UpdateRuns(h, db, index, leaves, row, r, sub, 2 * Pow2(down) - 1);
    DryPut(h, db, r, sub, row, down);
    DryUpdateIs(h, db, index, leaves, row, r, sub, down);
  }

  lemma {:induction false} DryUpdateIs(h: TreeHash, db: TreeDb, index: nat, leaves: seq<Fr>, row: nat, r: nat,
                                       sub: seq<Fr>, down: nat)
    requires UpdateError(db.meta, index, |leaves|).None? && row == UpdateRow(db.meta, |leaves|)
    requires r == Pow2(row) - 1 + index && sub == CompleteTree(h, Log2(|leaves|), leaves)
    requires down == RowsWritten(db.meta, |leaves|)
    ensures UpdateSpec(h, db, index, leaves, false).0.View() == PutSubTree(h, db, r, sub, row, down, false).0.View()
  {
  }

  lemma {:induction false} DryPut(h: TreeHash, db: TreeDb, r: nat, sub: seq<Fr>, up: nat, down: nat)
    requires Clean(db) && r >= Pow2(up) - 1 && 2 * Pow2(down) - 1 <= |sub|
    ensures PutSubTree(h, db, r, sub, up, down, false).0.View()
            == db.nodes + (Climb(h, db.nodes, r, sub[0], up).1 + Block(r, sub, 2 * Pow2(down) - 1))
  {
    assert db.View() == db.nodes;
    PutIsVisible(db, Climb(h, db.nodes, r, sub[0], up).1 + Block(r, sub, 2 * Pow2(down) - 1), false);
  }

  /** For a regular length in range that is the fold of the new leaves up the slot's siblings in
      view; and leaves that are there already always lead back. */
  lemma {:induction false} DryUpdateInRange(h: TreeHash, db: TreeDb, index: nat, leaves: seq<Fr>, row: nat, r: nat)
    requires Sound(h, db) && RegularLength(db.meta, |leaves|) && UpdateError(db.meta, index, |leaves|).None?
    requires row == UpdateRow(db.meta, |leaves|) && r == Pow2(row) - 1 + index && index < Pow2(row)
    ensures Sound(h, UpdateSpec(h, db, index, leaves, false).0) <==>
              FoldPath(h, SubRoot(h, leaves, Log2(|leaves|), 0), SiblingPath(db.View(), r)) == db.meta.root
    ensures Clean(db) && AlreadyThere(db, index, leaves) ==> Sound(h, UpdateSpec(h, db, index, leaves, false).0)
  {
    RegularRows(db.meta, |leaves|);
    DryUpdateExact(h, db, index, leaves, row, r);
    ClimbReachesRoot(h, db.View(), r, SubRoot(h, leaves, Log2(|leaves|), 0), row);
    if Clean(db) && AlreadyThere(db, index, leaves) { ThereFolds(h, db, index, leaves, row, r); }
  }

  /** The slot holds these leaves. */
  ghost predicate AlreadyThere(db: TreeDb, index: nat, leaves: seq<Fr>)
    requires PowerOfTwo(|leaves|)
  {
    forall t: nat | t < |leaves| ::
      leaves[t] == Get(db.nodes, Pow2(db.meta.Height()) - 1 + (Shl(index, Log2(|leaves|)) + t))
  }

  lemma {:induction false} ThereFolds(h: TreeHash, db: TreeDb, index: nat, leaves: seq<Fr>, row: nat, r: nat)
    requires Sound(h, db) && Clean(db) && PowerOfTwo(|leaves|) && row + Log2(|leaves|) == db.meta.Height()
    requires index < Pow2(row) && r == Pow2(row) - 1 + index && AlreadyThere(db, index, leaves)
    ensures FoldPath(h, SubRoot(h, leaves, Log2(|leaves|), 0), SiblingPath(db.View(), r)) == db.meta.root
  {
    var e := Log2(|leaves|);
    assert db.View() == db.nodes;
    SlotRoot(h, db.nodes, row, index, e, leaves);
    CompleteTreeRoot(h, e, leaves);
    Pow2Mono(row, row + e);
    CoherentFold(h, db.nodes, row + e, r);
  }

  /** A dry update of an empty tree that leaves the stored root and the stored nodes apart. */
  lemma {:induction false} DryUpdateMoves(h: TreeHash, v: Fr)
    requires v != 0
    ensures UpdateError(EmptyDb(0, 0).meta, 0, 1).None? && !Sound(h, UpdateSpec(h, EmptyDb(0, 0), 0, [v], false).0)
  {
    var db := EmptyDb(0, 0);
    assert PowerOfTwo(1) && Log2(1) == 0;
    EmptyIsSound(h, 0, 0);
    DryUpdateExact(h, db, 0, [v], 0, 0);
    LeafTree(h, v);
    assert UpdateSpec(h, db, 0, [v], false).1 == Ok(v);
  }

  // ----- Runs

  datatype Op = Append(leaves: seq<Fr>) | InsertLeaf(leaf: Fr) | Update(index: nat, leaves: seq<Fr>)

  ghost function Step(h: TreeHash, db: TreeDb, op: Op): TreeDb {
    match op
    case Append(leaves) => AppendSpec(h, db, leaves, true).0
    case InsertLeaf(leaf) => InsertLeafSpec(h, db, leaf, true).0
    case Update(index, leaves) => UpdateSpec(h, db, index, leaves, true).0
  }

  /** What a caller must respect because the code does not check it. */
  ghost predicate Allowed(meta: TreeMetadata, op: Op) {
    match op
    case Append(_) => true
    case InsertLeaf(_) => meta.subTreeCount < Pow2(meta.treeHeight)
    case Update(index, leaves) =>
      UpdateError(meta, index, |leaves|).None? ==>
        RegularLength(meta, |leaves|) && index < Pow2(UpdateRow(meta, |leaves|))
  }

  /** An update that stays within the claimed slots. */
  ghost predicate WithinUsed(db: TreeDb, op: Op) {
    op.Update? && UpdateError(db.meta, op.index, |op.leaves|).None? ==>
      Shl(op.index, Log2(|op.leaves|)) + |op.leaves| <= Used(db)
  }

  lemma {:induction false} StepKeeps(h: TreeHash, db: TreeDb, op: Op)
    requires Sound(h, db) && Clean(db) && Allowed(db.meta, op)
    ensures Sound(h, Step(h, db, op)) && Clean(Step(h, db, op))
    ensures UnusedZero(db) && WithinUsed(db, op) ==> UnusedZero(Step(h, db, op))
  {
    match op
    case Append(leaves) =>
      AppendKeeps(h, db, leaves);
    case InsertLeaf(leaf) =>
      InsertLeafKeeps(h, db, leaf);
    case Update(index, leaves) =>
      if UpdateError(db.meta, index, |leaves|).None? {
        UpdateKeeps(h, db, index, leaves, UpdateRow(db.meta, |leaves|), Log2(|leaves|));
      }
  }

  /** The database after a run, and whether each step was allowed where it was taken. */
  ghost function Run(h: TreeHash, db: TreeDb, ops: seq<Op>): TreeDb
    decreases |ops|
  {
    if ops == [] then db else Run(h, Step(h, db, ops[0]), ops[1..])
  }

  ghost predicate AllAllowed(h: TreeHash, db: TreeDb, ops: seq<Op>)
    decreases |ops|
  {
    ops == [] || (Allowed(db.meta, ops[0]) && AllAllowed(h, Step(h, db, ops[0]), ops[1..]))
  }

  ghost predicate AllWithinUsed(h: TreeHash, db: TreeDb, ops: seq<Op>)
    decreases |ops|
  {
    ops == [] || (WithinUsed(db, ops[0]) && AllWithinUsed(h, Step(h, db, ops[0]), ops[1..]))
  }

  /** Every run of committed operations keeps each internal node the hash of its children and
      the stored root the complete fold of the leaves; and, when updates touch only claimed
      slots, every unclaimed leaf stays zero. */
  lemma {:induction false} RunKeeps(h: TreeHash, db: TreeDb, ops: seq<Op>)
    requires Sound(h, db) && Clean(db) && AllAllowed(h, db, ops)
    ensures var db' := Run(h, db, ops);
            && Sound(h, db') && Clean(db')
            && db'.meta.root == SubRoot(h, Leaves(db'), db'.meta.Height(), 0)
            && (UnusedZero(db) && AllWithinUsed(h, db, ops) ==> UnusedZero(db'))
    decreases |ops|
  {
    if ops == [] {
      SoundRoot(h, db);
    } else {
      StepKeeps(h, db, ops[0]);
      RunKeeps(h, Step(h, db, ops[0]), ops[1..]);
    }
  }
}
