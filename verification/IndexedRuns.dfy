/** Whole runs of the indexed tree: any sequence of its three inserts, up to the first error. */
module IndexedRuns {
  import opened Basics
  import opened Fold
  import opened MutableSpec
  import opened MutableTheorems
  import opened LinkedLeaves
  import opened IndexedSpec
  import opened ImtWitness
  import opened Positions
  import opened StoreSteps
  import opened IndexedSteps
  import opened IndexedTrees

  /** `insert_leaves`, the circuit insert of one sub-tree, and the circuit insert of several. */
  datatype Insert = Plain(values: seq<Fr>) | ForCircuit(values: seq<Fr>) | Batched(values: seq<Fr>)

  /** All the values of a run, in order. */
  ghost function AllValues(ops: seq<Insert>): seq<Fr> {
    if ops == [] then [] else AllValues(ops[..|ops| - 1]) + ops[|ops| - 1].values
  }

  /** When an insert succeeds. */
  ghost predicate Accepts(db: TreeDb, es: Entries, op: Insert) {
    match op
    case Plain(values) => HasRoom(db.meta, |values|) && NewValues(es, values)
    case ForCircuit(values) =>
      |values| == db.meta.Capacity() && db.meta.subTreeCount < Pow2(db.meta.treeHeight) && db.meta.Height() < 63
        && NewValues(es, values)
    case Batched(values) => values == [] || BatchFits(db, es, values)
  }

  /** The one thing a caller has to see to: a plain insert that fits the tree at position `at` puts
      no value at a position of more than 32 bits. */
  ghost predicate PositionsOk(db: TreeDb, op: Insert, at: nat) {
    op.Plain? && at + |op.values| <= Pow2(db.meta.Height()) ==> PositionsFit(op.values, at)
  }

  ghost predicate RunPositionsOk(db: TreeDb, ops: seq<Insert>) {
    forall k | 0 <= k < |ops| :: PositionsOk(db, ops[k], Used(db) + |AllValues(ops[..k])|)
  }

  /** In a tree of total height 32 or less every run is fine in this respect. */
  lemma {:induction false} SmallTreePositions(db: TreeDb, ops: seq<Insert>)
    requires db.meta.Height() <= 32
    ensures RunPositionsOk(db, ops)
  {
    Pow2Of32();
    Pow2Mono(db.meta.Height(), 32);
  }

  lemma {:induction false} RoomIsRange(meta: TreeMetadata, n: nat)
    requires HasRoom(meta, n)
    ensures Shl(meta.subTreeCount, meta.subTreeHeight) + n <= Pow2(meta.Height())
  {
    ClaimedLeaves(meta.subTreeCount, n, meta.subTreeHeight);
    ShlMono(meta.subTreeCount + meta.Slots(n), Pow2(meta.treeHeight), meta.subTreeHeight);
    ShlPow2(meta.treeHeight, meta.subTreeHeight);
  }

  /** One insert: it succeeds exactly when it should, and then inserts its values. */
  method Execute(t: IndexedTree, op: Insert) returns (ok: bool)
    requires t.Valid() && PositionsOk(t.tree.Db(), op, Used(t.tree.Db()))
    modifies t, t.tree
    ensures ok <==> Accepts(old(t.tree.Db()), old(t.entries), op)
    ensures ok ==> Inserted(t.tree.h, t.h3, old(t.tree.Db()), old(t.entries), op.values, t.tree.Db(), t.entries)
  {
    match op
    case Plain(values) =>
      if HasRoom(t.tree.meta, |values|) { RoomIsRange(t.tree.meta, |values|); }
      var r := t.InsertLeaves(values);
      ok := r.Ok?;
    case ForCircuit(values) =>
      var r := t.InsertNullifiersForCircuit(values);
      ok := r.Ok?;
    case Batched(values) =>
      var r := t.BatchInsertNullifiers(values);
      ok := r.Ok?;
  }

  /** What holds after a run that inserted `values` into the state `(db0, es0)`. */
  ghost predicate RunOutcome(h: TreeHash, h3: LeafHash, db0: TreeDb, es0: Entries, values: seq<Fr>, db: TreeDb,
                             es: Entries) {
    && Coherently(h, h3, db, es)
    // the entries are one strictly sorted list from zero
    && SortedChain(es, Walk(es, 0)) && (forall i :: i in es <==> i in Walk(es, 0))
    // each entry is hashed into the tree at its id, every other leaf is zero
    && (forall x: nat | x < Pow2(db.meta.Height()) :: Leaves(db)[x] == LeafHashAt(h3, es, x))
    // the stored root is the complete fold of the leaves
    && db.meta.root == SubRoot(h, Leaves(db), db.meta.Height(), 0)
    // entries keep their values, and the new ones are where they belong
    && (forall i | i in es0 :: i in es && es[i].value == es0[i].value)
    && Values(es) == Values(es0) + Placement(values, Used(db0)) && Used(db) == Used(db0) + |values|
    // no non-zero value went in that was there before, or twice
    && NewValues(es0, values)
  }

  /** Part of the way through a run. */
  ghost predicate RunSoFar(h: TreeHash, h3: LeafHash, db0: TreeDb, es0: Entries, values: seq<Fr>, db: TreeDb,
                           es: Entries) {
    IdsBelow(es0, Used(db0)) && Inserted(h, h3, db0, es0, values, db, es) && NewValues(es0, values)
  }

  lemma {:induction false} OutcomeOf(h: TreeHash, h3: LeafHash, db0: TreeDb, es0: Entries, values: seq<Fr>, db: TreeDb,
                                     es: Entries)
    requires RunSoFar(h, h3, db0, es0, values, db, es)
    ensures RunOutcome(h, h3, db0, es0, values, db, es)
  {
    OneList(es);
    SoundRoot(h, db);
    ExtendedOf(es0, es, values, Used(db0));
    forall x: nat | x < Pow2(db.meta.Height()) ensures Leaves(db)[x] == LeafHashAt(h3, es, x) {}
  }

  /** An accepted insert is of values new to the list, so a run of them is of distinct values. */
  lemma {:induction false} RunStep(h: TreeHash, h3: LeafHash, db0: TreeDb, es0: Entries, values: seq<Fr>, db: TreeDb,
                                   es: Entries,
                                   op: Insert, db': TreeDb, es': Entries)
    requires RunSoFar(h, h3, db0, es0, values, db, es)
    requires Accepts(db, es, op) && Inserted(h, h3, db, es, op.values, db', es')
    ensures RunSoFar(h, h3, db0, es0, values + op.values, db', es')
  {
    ChunkIsNew(es0, es, values, op.values, Used(db0));
    NextChunk(Values(es0), es, es', values, op.values, Used(db0), Used(db));
  }

  /** Runs inserts up to the first error. `db` and `es` are the state after the accepted ones, which
      is the tree's own unless there was an error; that error was due. */
  method RunInserts(t: IndexedTree, ops: seq<Insert>) returns (accepted: nat, ghost db: TreeDb, ghost es: Entries)
    requires t.Valid() && RunPositionsOk(t.tree.Db(), ops)
    modifies t, t.tree
    ensures accepted <= |ops|
    ensures accepted == |ops| ==> t.Valid() && db == t.tree.Db() && es == t.entries
    ensures accepted < |ops| ==> !Accepts(db, es, ops[accepted])
    ensures RunOutcome(t.tree.h, t.h3, old(t.tree.Db()), old(t.entries), AllValues(ops[..accepted]), db, es)
  {
    ghost var db0, es0, done: seq<Fr> := t.tree.Db(), t.entries, [];
    EmptyInsertion(t.tree.h, t.h3, db0, es0);
    db, es, accepted := db0, es0, 0;
    while accepted < |ops|
      invariant accepted <= |ops| && db == t.tree.Db() && es == t.entries && done == AllValues(ops[..accepted])
      invariant RunSoFar(t.tree.h, t.h3, db0, es0, done, db, es)
    {
      PositionsNow(t.tree.h, t.h3, db0, es0, ops, accepted, db, es);
      var ok := Execute(t, ops[accepted]);
      if !ok {
        OutcomeOf(t.tree.h, t.h3, db0, es0, done, db, es);
        return;
      }
      RunStep(t.tree.h, t.h3, db0, es0, done, db, es, ops[accepted], t.tree.Db(), t.entries);
      assert ops[..accepted + 1][..accepted] == ops[..accepted];
      done := done + ops[accepted].values;
      db, es, accepted := t.tree.Db(), t.entries, accepted + 1;
    }
    OutcomeOf(t.tree.h, t.h3, db0, es0, done, db, es);
  }

  lemma {:induction false} PositionsNow(h: TreeHash, h3: LeafHash, db0: TreeDb, es0: Entries, ops: seq<Insert>, k: nat,
                                        db: TreeDb, es: Entries)
    requires RunPositionsOk(db0, ops) && k < |ops| && RunSoFar(h, h3, db0, es0, AllValues(ops[..k]), db, es)
    ensures PositionsOk(db, ops[k], Used(db)) && Coherently(h, h3, db, es)
  {
  }

  // ----- From a fresh tree

  /** A run from a fresh tree of total height 32 or less, as the program makes it: nothing more is
      asked of the caller, and a run in which a value comes twice does not get to its end. */
  method RunFresh(h: TreeHash, h3: LeafHash, treeHeight: nat, subTreeHeight: nat, ops: seq<Insert>)
    returns (t: IndexedTree, accepted: nat, ghost db: TreeDb, ghost es: Entries)
    requires treeHeight + subTreeHeight <= 32
    ensures accepted <= |ops| && (accepted < |ops| ==> !Accepts(db, es, ops[accepted]))
    ensures accepted == |ops| ==> t.Valid() && db == t.tree.Db() && es == t.entries
    ensures RunOutcome(h, h3, FreshDb(h, h3, treeHeight, subTreeHeight), map[0 := ZERO_LEAF],
            AllValues(ops[..accepted]), db, es)
    ensures !DistinctNonZero(AllValues(ops)) ==> accepted < |ops|
  {
    t := new IndexedTree(h, h3, treeHeight, subTreeHeight);
    SmallTreePositions(t.tree.Db(), ops);
    accepted, db, es := RunInserts(t, ops);
    assert ops[..|ops|] == ops;
  }

  /** The database of a fresh indexed tree: the zero leaf in an empty one. */
  ghost function FreshDb(h: TreeHash, h3: LeafHash, treeHeight: nat, subTreeHeight: nat): TreeDb {
    InsertLeafSpec(h, EmptyDb(treeHeight, subTreeHeight), h3(0, 0, 0), true).0
  }

  /** A fresh tree, of which no more is said than its entries, heights and count. */
  method FreshTree(h: TreeHash, h3: LeafHash, treeHeight: nat, subTreeHeight: nat) returns (t: IndexedTree)
    requires treeHeight + subTreeHeight < U64_BITS
    ensures fresh(t) && fresh(t.tree) && t.Valid() && t.tree.h == h && t.h3 == h3
    ensures t.entries == map[0 := ZERO_LEAF]
    ensures t.tree.meta == TreeMetadata(treeHeight, subTreeHeight, 1, t.tree.meta.root)
  {
    t := new IndexedTree(h, h3, treeHeight, subTreeHeight);
  }

  /** A batch of zeros is accepted and returns zero, which is not the root. */
  method ZeroBatchReturnsZero(h: TreeHash, h3: LeafHash) returns (r: Result<Fr>, root: Fr)
    requires h(h3(0, 0, 0), 0) != 0
    ensures r == Ok(0) && root == h(h3(0, 0, 0), 0)
  {
    var t := FreshTree(h, h3, 1, 0);
    RoomForZero(t.tree.Db());
    r := t.InsertLeaves([0]);
    root := t.tree.meta.root;
    OneLeafRoot(h, h3, t.tree.Db(), t.entries);
  }

  lemma {:induction false} RoomForZero(db: TreeDb)
    requires db.meta == TreeMetadata(1, 0, 1, db.meta.root)
    ensures HasRoom(db.meta, |[0]|) && PositionsFit([0], Used(db)) && NewValues(map[0 := ZERO_LEAF], [0])
    ensures AllZero([0]) && Placement([0], Used(db)) == map[]
  {
    assert Pow2(0) == 1 && Pow2(1) == 2 && db.meta.Slots(1) == 1;
    assert [0][..0] == [];
  }

  lemma {:induction false} OneLeafRoot(h: TreeHash, h3: LeafHash, db: TreeDb, es: Entries)
    requires Coherently(h, h3, db, es) && db.meta.Height() == 1 && Values(es) == map[0 := 0]
    ensures db.meta.root == h(h3(0, 0, 0), 0)
  {
    InitiallyLinked();
    LinksDetermined(es, map[0 := ZERO_LEAF]);
    SoundRoot(h, db);
    assert Pow2(1) == 2;
    assert Leaves(db)[0] == h3(0, 0, 0) && Leaves(db)[1] == 0;
  }

  /** A tree of one slot, which the zero leaf has taken: it has no room, and one value is new to it. */
  lemma {:induction false} NoRoomForOne(h: TreeHash, h3: LeafHash, db: TreeDb, x: Fr)
    requires db.meta == TreeMetadata(0, 0, 1, db.meta.root) && x != 0
    ensures db.meta.Capacity() == 1 && !HasRoom(db.meta, |[x]|) && db.meta.subTreeCount >= Pow2(db.meta.treeHeight)
    ensures Used(db) == 1 && PositionsFit([x], 1)
    ensures NewValues(map[0 := ZERO_LEAF], [x]) && !AllZero([x])
  {
    assert Pow2(0) == 1 && db.meta.Slots(1) == 1;
    assert [x][0] == x;
  }

  /** A plain insert that is refused for want of room has already changed the list. */
  method RefusedPlainInsert(h: TreeHash, h3: LeafHash, x: Fr) returns (t: IndexedTree, r: Result<Fr>)
    requires x != 0
    ensures r.Err? && t.entries != map[0 := ZERO_LEAF] && !t.Valid()
  {
    t := FreshTree(h, h3, 0, 0);
    NoRoomForOne(h, h3, t.tree.Db(), x);
    r := t.InsertLeaves([x]);
  }

  /** So has the circuit insert. */
  method RefusedCircuitInsert(h: TreeHash, h3: LeafHash, x: Fr) returns (t: IndexedTree, r: Result<ImtInsertionInfo>)
    requires x != 0
    ensures r.Err? && t.entries != map[0 := ZERO_LEAF] && !t.Valid()
  {
    t := FreshTree(h, h3, 0, 0);
    ghost var db, es := t.tree.Db(), t.entries;
    NoRoomForOne(h, h3, db, x);
    r := t.InsertNullifiersForCircuit([x]);
    ghost var n :| PartlyInserted(h, h3, db, es, [x], n, t.tree.Db(), t.entries);
    AllTaken(es, [x], Used(db), n);
    AheadExactly(h, h3, db, es, [x], n, t.tree.Db(), t.entries);
  }

  /** Nothing stops a new batch whose ids fit. */
  lemma {:induction false} AllTaken(es: Entries, batch: seq<Fr>, at: nat, n: nat)
    requires StopsAt(es, batch, at, n) && NewValues(es, batch) && at + |batch| <= I64_MAX
    ensures n == |batch| && batch[..n] == batch
  {
    if n < |batch| {
      assert batch == batch[..n + 1] + batch[n + 1..];
      NewPrefix(es, batch[..n + 1], batch[n + 1..]);
    }
  }
}
