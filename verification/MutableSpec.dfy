/** The mutable tree as a value: what each operation does to the metadata, the stored nodes
    and the write cache laid over them. */
module MutableSpec {
  import opened Basics
  import opened Fold
  import opened Heap

  datatype TreeMetadata = TreeMetadata(treeHeight: nat, subTreeHeight: nat, subTreeCount: nat, root: Fr) {
    function Height(): nat { treeHeight + subTreeHeight }
    function Capacity(): nat { Pow2(subTreeHeight) }
    /** The leaves below the first `count` slots. */
    function LeavesBelow(count: nat): nat { count * Capacity() }

    /** The slots that `n` leaves fill. */
    function Slots(n: nat): nat {
      QuotientNat(n, Capacity());
      n / Capacity()
    }

    /** The metadata after a committed append of `n` leaves. */
    function Grown(n: nat, hash: Fr): TreeMetadata {
      this.(subTreeCount := subTreeCount + Slots(n), root := hash)
    }
  }

  datatype TreeDb = TreeDb(meta: TreeMetadata, nodes: Nodes, cache: Nodes) {
    /** Reads prefer the cache. */
    function View(): Nodes { nodes + cache }

    function Put(w: Nodes, updateTree: bool): TreeDb {
      if updateTree then this.(nodes := nodes + w) else this.(cache := cache + w)
    }

    function Flush(): TreeDb { this.(nodes := nodes + cache, cache := map[]) }
  }

  /** Climbs `n` rows from node `i`: the hash reached and the writes queued on the way. */
  function Climb(h: TreeHash, m: Nodes, i: nat, v: Fr, n: nat): (Fr, Nodes)
    requires i >= Pow2(n) - 1
    decreases n
  {
    if n == 0 then (v, map[i := v])
    else
      var (hash, w) := Climb(h, m, Parent(i), Combine(h, Sibling(m, i), v), n - 1);
      (hash, map[i := v] + w)
  }

  /** From row `n` the climb reaches the root. */
  lemma {:induction false} ClimbReachesRoot(h: TreeHash, m: Nodes, i: nat, v: Fr, n: nat)
    requires InRow(i, n)
    ensures Climb(h, m, i, v, n) == (FoldPath(h, v, SiblingPath(m, i)), PathWrites(h, m, i, v))
    decreases n
  {
    if n > 0 {
      ParentRow(i, n);
      ClimbReachesRoot(h, m, Parent(i), Combine(h, Sibling(m, i), v), n - 1);
      assert SiblingPath(m, i)[1..] == SiblingPath(m, Parent(i));
    }
  }

  /** The effect of putting `sub` at node `r`: climb `up` rows, walk `down` rows below. */
  function PutSubTree(h: TreeHash, db: TreeDb, r: nat, sub: seq<Fr>, up: nat, down: nat, updateTree: bool): (TreeDb, Fr)
    requires r >= Pow2(up) - 1 && 2 * Pow2(down) - 1 <= |sub|
  {
    var (hash, w) := Climb(h, db.View(), r, sub[0], up);
    (db.Put(w + Block(r, sub, 2 * Pow2(down) - 1), updateTree), hash)
  }

  // ----- Appending sub-trees

  /** A length that splits into whole chunks. */
  ghost predicate Whole(len: nat, cap: nat)
    requires cap > 0
  {
    len == 0 || (len >= cap && Whole(len - cap, cap))
  }

  ghost function Chunks(len: nat, cap: nat): nat
    requires cap > 0
  {
    if len < cap then 0 else 1 + Chunks(len - cap, cap)
  }

  /** Taking one chunk off a sequence of whole chunks leaves whole chunks. */
  lemma {:induction false} OneChunk(rest: seq<Fr>, cap: nat)
    requires cap > 0 && |rest| > 0 && Whole(|rest|, cap)
    ensures |rest| >= cap && |rest[cap..]| == |rest| - cap
    ensures Whole(|rest[cap..]|, cap) && Chunks(|rest|, cap) == 1 + Chunks(|rest[cap..]|, cap)
  {
  }

  lemma {:induction false} WholeMultiple(q: nat, cap: nat)
    requires cap > 0
    ensures Whole(q * cap, cap) && Chunks(q * cap, cap) == q
  {
    if q > 0 {
      WholeMultiple(q - 1, cap);
      assert q * cap == (q - 1) * cap + cap;
    }
  }

  lemma {:induction false} WholeChunks(len: nat, cap: nat)
    requires cap > 0 && len % cap == 0
    ensures Whole(len, cap) && Chunks(len, cap) == len / cap
  {
    var q := len / cap;
    assert len == q * cap;
    WholeMultiple(q, cap);
  }

  /** Puts one sub-tree into slot `count`. */
  function AppendOneSpec(h: TreeHash, db: TreeDb, count: nat, batch: seq<Fr>, updateTree: bool): (r: (TreeDb, Fr))
    ensures r.0.meta == db.meta
  {
    var sub := CompleteTree(h, db.meta.subTreeHeight, batch);
    PutSubTree(h, db, Pow2(db.meta.treeHeight) - 1 + count, sub, db.meta.treeHeight, db.meta.subTreeHeight, updateTree)
  }

  /** The loop over chunks: its test, the split into a chunk and the rest, and its body. */
  function AppendLoop(h: TreeHash, db: TreeDb, count: nat, leaves: seq<Fr>, hash: Fr, updateTree: bool): (TreeDb, Fr)
    decreases |leaves|, 2
  {
    if |leaves| < db.meta.Capacity() then (db, hash) else AppendFront(h, db, count, leaves, updateTree)
  }

  function AppendFront(h: TreeHash, db: TreeDb, count: nat, leaves: seq<Fr>, updateTree: bool): (TreeDb, Fr)
    requires |leaves| >= db.meta.Capacity()
    decreases |leaves|, 1
  {
    var cap := db.meta.Capacity();
    AppendChunk(h, db, count, leaves[..cap], leaves[cap..], updateTree)
  }

  function AppendChunk(h: TreeHash, db: TreeDb, count: nat, batch: seq<Fr>, rest: seq<Fr>, updateTree: bool)
    : (TreeDb, Fr)
    requires batch != []
    decreases |batch| + |rest|, 0
  {
    var (db', hash') := AppendOneSpec(h, db, count, batch, updateTree);
    AppendLoop(h, db', count + 1, rest, hash', updateTree)
  }

  /** One turn of the loop. */
  lemma {:induction false} AppendLoopStep(h: TreeHash, db: TreeDb, count: nat, leaves: seq<Fr>, cap: nat, hash: Fr,
                                          updateTree: bool,
                                          db': TreeDb, hash': Fr)
    requires cap == db.meta.Capacity() <= |leaves|
    requires (db', hash') == AppendOneSpec(h, db, count, leaves[..cap], updateTree)
    ensures db'.meta == db.meta
    ensures AppendLoop(h, db, count, leaves, hash, updateTree)
            == AppendLoop(h, db', count + 1, leaves[cap..], hash', updateTree)
  {
    assert AppendLoop(h, db, count, leaves, hash, updateTree) == AppendFront(h, db, count, leaves, updateTree);
    assert AppendFront(h, db, count, leaves, updateTree)
           == AppendChunk(h, db, count, leaves[..cap], leaves[cap..], updateTree);
  }

  /** The checks before an append of `n` leaves. */
  function AppendError(meta: TreeMetadata, n: nat): Option<TreeError> {
    if meta.subTreeHeight >= U64_BITS then Some(HeightTooLarge)
    else if n % meta.Capacity() != 0 then Some(IncorrectBatchSize)
    else if n == 0 then None
    else if meta.treeHeight >= U64_BITS then Some(HeightTooLarge)
    else if meta.subTreeCount + meta.Slots(n) > Pow2(meta.treeHeight) then Some(TreeIsFull)
    else None
  }

  /** Replaces the metadata and, when committing, flushes the cache. */
  function Finish(db: TreeDb, meta: TreeMetadata, updateTree: bool): TreeDb {
    if updateTree then db.(meta := meta).Flush() else db.(meta := meta)
  }

  function AppendSpec(h: TreeHash, db: TreeDb, leaves: seq<Fr>, updateTree: bool): (TreeDb, Result<(Fr, nat)>) {
    var meta := db.meta;
    match AppendError(meta, |leaves|)
    case Some(e) => (db, Err(e))
    case None =>
      if leaves == [] then (db, Ok((meta.root, meta.LeavesBelow(meta.subTreeCount))))
      else
        var (db', hash) := AppendLoop(h, db, meta.subTreeCount, leaves, 0, updateTree);
        var grown := meta.Grown(|leaves|, hash);
        if updateTree then
          (Finish(db', grown, true), Ok((hash, meta.LeavesBelow(grown.subTreeCount))))
        else
          (db', Ok((hash, meta.LeavesBelow(meta.subTreeCount))))
  }

  // ----- Inserting a single leaf

  function InsertLeafSpec(h: TreeHash, db: TreeDb, leaf: Fr, updateTree: bool): (TreeDb, Result<Fr>) {
    var height := db.meta.Height();
    var r := Pow2(height) - 1 + db.meta.LeavesBelow(db.meta.subTreeCount);
    if height >= U64_BITS then (db, Err(HeightTooLarge))
    else if r >= U64_RANGE then (db, Err(Failed))
    else
      var (hash, w) := Climb(h, db.View(), r, leaf, height);
      var db' := db.Put(w, updateTree);
      if updateTree then
        (Finish(db', db.meta.(subTreeCount := db.meta.subTreeCount + 1, root := hash), true), Ok(hash))
      else
        (db', Ok(hash))
  }

  // ----- Updating a sub-tree

  predicate PowerOfTwo(n: nat) {
    n > 0 && Pow2(Log2(n)) == n
  }

  /** How many rows of the new sub-tree are written below its root: none for a single leaf,
      otherwise as many as a regular sub-tree has, whatever the length of the update. */
  function RowsWritten(meta: TreeMetadata, n: nat): nat {
    if n == 1 then 0 else meta.subTreeHeight
  }

  /** The checks of an update with `n` leaves. The last one is the panic of walking past the
      end of a new sub-tree that is shorter than a regular one. */
  function UpdateError(meta: TreeMetadata, index: nat, n: nat): Option<TreeError> {
    if meta.Height() >= U64_BITS then Some(HeightTooLarge)
    else if !PowerOfTwo(n) then Some(IncorrectBatchSize)
    else if index >= Pow2(meta.Height()) then Some(InvalidIndex)
    else if Log2(n) > meta.Height() then Some(Failed)
    else if Pow2(RowsWritten(meta, n)) > n then Some(Panicked)
    else None
  }

  /** The row at which a tree of `n` leaves is hooked in. */
  function UpdateRow(meta: TreeMetadata, n: nat): nat
    requires PowerOfTwo(n) && Log2(n) <= meta.Height()
  {
    if Log2(n) == meta.subTreeHeight then meta.treeHeight else meta.Height() - Log2(n)
  }

  function UpdateSpec(h: TreeHash, db: TreeDb, index: nat, leaves: seq<Fr>, updateTree: bool): (TreeDb, Result<Fr>) {
    match UpdateError(db.meta, index, |leaves|)
    case Some(e) => (db, Err(e))
    case None =>
      var row := UpdateRow(db.meta, |leaves|);
      var sub := CompleteTree(h, Log2(|leaves|), leaves);
      var (db', hash) := PutSubTree(h, db, Pow2(row) - 1 + index, sub, row, RowsWritten(db.meta, |leaves|), updateTree);
      (Finish(db', db.meta.(root := hash), updateTree), Ok(hash))
  }

  // ----- The invariant

  /** Every internal node hashes its children, the metadata root is node 0, counts and node
      indices are in range. */
  ghost predicate Sound(h: TreeHash, db: TreeDb) {
    && db.meta.Height() < U64_BITS
    && db.meta.subTreeCount <= Pow2(db.meta.treeHeight)
    && InTree(db.nodes, db.meta.Height())
    && Coherent(h, db.nodes, db.meta.Height())
    && Get(db.nodes, 0) == db.meta.root
  }

  ghost predicate Clean(db: TreeDb) {
    db.cache == map[]
  }

  ghost function Leaves(db: TreeDb): (s: seq<Fr>)
    ensures |s| == Pow2(db.meta.Height())
  {
    LeavesOf(db.nodes, db.meta.Height())
  }

  /** The first leaf no sub-tree has claimed. */
  ghost function Used(db: TreeDb): nat {
    Shl(db.meta.subTreeCount, db.meta.subTreeHeight)
  }

  ghost predicate UnusedZero(db: TreeDb) {
    forall x: nat | Used(db) <= x < Pow2(db.meta.Height()) :: Leaves(db)[x] == 0
  }

  /** The metadata root is the complete fold of the leaves. */
  lemma {:induction false} SoundRoot(h: TreeHash, db: TreeDb)
    requires Sound(h, db)
    ensures db.meta.root == SubRoot(h, Leaves(db), db.meta.Height(), 0)
  {
    CoherentRoot(h, db.nodes, db.meta.Height());
  }

  /** The nodes at which the sub-trees hang. */
  ghost function SlotRoots(db: TreeDb): (s: seq<Fr>)
    ensures |s| == Pow2(db.meta.treeHeight)
  {
    seq<Fr>(Pow2(db.meta.treeHeight), (k: nat) => Get(db.nodes, Pow2(db.meta.treeHeight) - 1 + k))
  }

  /** Each of them is the fold of its own leaves, and the stored root is also the fold of them alone:
      where the total height is split makes no difference. */
  lemma {:induction false} SoundRootOfSlots(h: TreeHash, db: TreeDb)
    requires Sound(h, db)
    ensures forall k: nat | k < Pow2(db.meta.treeHeight) ::
            SlotRoots(db)[k] == SubRoot(h, Leaves(db), db.meta.subTreeHeight, k)
    ensures db.meta.root == SubRoot(h, SlotRoots(db), db.meta.treeHeight, 0)
  {
    var d, e, s := db.meta.treeHeight, db.meta.subTreeHeight, Leaves(db);
    forall k: nat ensures Leaf(SlotRoots(db), k) == SubRoot(h, s, e, k) { SlotIsFold(h, db, k); }
    forall k: nat | k < Pow2(d)
      ensures SlotRoots(db)[k] == SubRoot(h, s, e, k) { assert Leaf(SlotRoots(db), k) == SubRoot(h, s, e, k); }
    FoldOfFolds(h, s, e, SlotRoots(db), d, 0);
    SoundRoot(h, db);
  }

  lemma {:induction false} SlotIsFold(h: TreeHash, db: TreeDb, k: nat)
    requires Sound(h, db)
    ensures Leaf(SlotRoots(db), k) == SubRoot(h, Leaves(db), db.meta.subTreeHeight, k)
  {
    var d, e := db.meta.treeHeight, db.meta.subTreeHeight;
    if k < Pow2(d) {
      Pow2Mono(d, d + e);
      CoherentIsComplete(h, db.nodes, d + e, Pow2(d) - 1 + k);
      NodeValIsSubRoot(h, d + e, Leaves(db), d, k);
    } else {
      ShlMono(Pow2(d), k, e);
      ShlPow2(d, e);
      EmptyBlock(h, Leaves(db), e, k);
    }
  }

  lemma {:induction false} UsedInRange(h: TreeHash, db: TreeDb)
    requires Sound(h, db)
    ensures Used(db) <= Pow2(db.meta.Height())
  {
    ShlMono(db.meta.subTreeCount, Pow2(db.meta.treeHeight), db.meta.subTreeHeight);
    ShlPow2(db.meta.treeHeight, db.meta.subTreeHeight);
  }

  /** With unused slots zero, the root is the fold of the claimed leaves alone. */
  lemma {:induction false} SoundRootOfUsed(h: TreeHash, db: TreeDb)
    requires Sound(h, db) && UnusedZero(db)
    ensures Used(db) <= |Leaves(db)|
    ensures db.meta.root == SubRoot(h, Leaves(db)[..Used(db)], db.meta.Height(), 0)
  {
    UsedInRange(h, db);
    SoundRoot(h, db);
    PrefixFold(h, Leaves(db), Used(db), db.meta.Height());
  }

  /** Trailing zeros do not change a fold. */
  lemma {:induction false} PrefixFold(h: TreeHash, s: seq<Fr>, n: nat, height: nat)
    requires n <= |s| == Pow2(height)
    requires forall x: nat | n <= x < |s| :: s[x] == 0
    ensures SubRoot(h, s, height, 0) == SubRoot(h, s[..n], height, 0)
  {
    ShlOne(height);
    forall x: nat | x < Pow2(height) ensures BlockLeaf(s, height, 0, x) == BlockLeaf(s[..n], height, 0, x) {}
    SubRootCong(h, height, s, 0, s[..n], 0);
  }

  // ----- One write of a complete sub-tree

  /** The database after putting a complete tree at offset `k` of row `d`, nodes only. */
  ghost function PutTree(h: TreeHash, m: Nodes, d: nat, k: nat, e: nat, batch: seq<Fr>): Nodes {
    Written(h, m, Pow2(d) - 1 + k, CompleteTree(h, e, batch))
  }

  lemma {:induction false} PutTreeKeeps(h: TreeHash, m: Nodes, d: nat, k: nat, e: nat, batch: seq<Fr>)
    requires k < Pow2(d) && |batch| == Pow2(e)
    requires Coherent(h, m, d + e) && InTree(m, d + e)
    ensures Coherent(h, PutTree(h, m, d, k, e, batch), d + e) && InTree(PutTree(h, m, d, k, e, batch), d + e)
    ensures Shl(k, e) + |batch| <= Pow2(d + e)
    ensures LeavesOf(PutTree(h, m, d, k, e, batch), d + e) == Splice(LeavesOf(m, d + e), Shl(k, e), batch)
  {
    var r, sub := Pow2(d) - 1 + k, CompleteTree(h, e, batch);
    WrittenCoherent(h, m, d, k, e, batch, r, sub);
    WrittenLeaves(h, m, d, k, e, batch, r, sub);
    SubTreeWriteRange(h, m, d, k, e, r, sub);
  }

  /** A climb with its block, from a node of row `d`, is exactly such a write. */
  lemma {:induction false} ClimbIsWrite(h: TreeHash, m: Nodes, d: nat, r: nat, sub: seq<Fr>)
    requires InRow(r, d) && |sub| > 0
    ensures Climb(h, m, r, sub[0], d).1 + Block(r, sub, |sub|) == SubTreeWrites(h, m, r, sub)
    ensures Climb(h, m, r, sub[0], d).0 == Get(Written(h, m, r, sub), 0) == FoldPath(h, sub[0], SiblingPath(m, r))
  {
    ClimbReachesRoot(h, m, r, sub[0], d);
    WrittenRoot(h, m, r, sub);
  }
}
