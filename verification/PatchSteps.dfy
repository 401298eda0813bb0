/** The low leaves of a batch and bringing their tree leaves up to date after the append. */
module PatchSteps {
  import opened Basics
  import opened Heap
  import opened MutableSpec
  import opened MutableTheorems
  import opened LinkedLeaves
  import opened IndexedSpec
  import opened StoreSteps

  // ----- The low leaves of a batch

  ghost function LowValue(es: Entries, i: nat): Fr {
    if i in es then es[i].value else 0
  }

  ghost predicate IsLowValue(es: Entries, batch: seq<Fr>, v: Fr) {
    exists i :: LowOfSome(es, batch, i) && LowValue(es, i) == v
  }

  /** The list holds the values of the batch's low leaves and nothing else. */
  ghost predicate AreLows(es: Entries, batch: seq<Fr>, lows: seq<Fr>) {
    forall v :: v in lows <==> IsLowValue(es, batch, v)
  }

  lemma {:induction false} LowsSnoc(es: Entries, batch: seq<Fr>, t: nat, before: seq<Fr>, after: seq<Fr>)
    requires Linked(es) && t < |batch| && AreLows(es, batch[..t], before)
    requires if batch[t] == 0 then after == before
             else exists low :: IsLow(es, low, batch[t]) && after == before + [es[low].value]
    ensures AreLows(es, batch[..t + 1], after)
  {
    forall v ensures v in after <==> IsLowValue(es, batch[..t + 1], v) {
      LowValueSnoc(es, batch, t, v);
    }
  }

  lemma {:induction false} LowValueSnoc(es: Entries, batch: seq<Fr>, t: nat, v: Fr)
    requires Linked(es) && t < |batch|
    ensures IsLowValue(es, batch[..t + 1], v) <==>
              IsLowValue(es, batch[..t], v)
                || (batch[t] != 0 && exists i :: IsLow(es, i, batch[t]) && LowValue(es, i) == v)
    ensures forall i, j | IsLow(es, i, batch[t]) && IsLow(es, j, batch[t]) :: i == j
  {
    forall i, j | IsLow(es, i, batch[t]) && IsLow(es, j, batch[t]) ensures i == j { LowUnique(es, i, j, batch[t]); }
    forall i: nat ensures LowOfSome(es, batch[..t + 1], i)
      <==> LowOfSome(es, batch[..t], i) || (batch[t] != 0 && IsLow(es, i, batch[t])) {
      LowOfSomeSnoc(es, batch, t, i);
    }
  }

  lemma {:induction false} LowOfSomeSnoc(es: Entries, batch: seq<Fr>, t: nat, i: nat)
    requires t < |batch|
    ensures LowOfSome(es, batch[..t + 1], i)
            <==> LowOfSome(es, batch[..t], i) || (batch[t] != 0 && IsLow(es, i, batch[t]))
  {
    var p, q := batch[..t], batch[..t + 1];
    assert q[t] == batch[t];
    if LowOfSome(es, p, i) {
      var u :| 0 <= u < |p| && p[u] != 0 && IsLow(es, i, p[u]);
      assert q[u] == p[u];
    }
    if LowOfSome(es, q, i) {
      var u :| 0 <= u < |q| && q[u] != 0 && IsLow(es, i, q[u]);
      if u < t { assert p[u] == q[u]; }
    }
  }

  /** There are low leaves exactly when some value is non-zero. */
  lemma {:induction false} LowsEmpty(es: Entries, batch: seq<Fr>, lows: seq<Fr>)
    requires Linked(es)
    requires AreLows(es, batch, lows)
    ensures lows == [] <==> AllZero(batch)
  {
    if !AllZero(batch) {
      var t :| 0 <= t < |batch| && batch[t] != 0;
      var low := LowExists(es, batch[t]);
      assert LowOfSome(es, batch, low);
      assert IsLowValue(es, batch, LowValue(es, low));
    }
    if lows != [] { assert lows[0] in lows; }
  }

  predicate StrictlySorted(s: seq<Fr>) {
    forall a, b | 0 <= a < b < |s| :: s[a] < s[b]
  }

  /** Puts a value into its place in a sorted sequence, unless it is there. */
  function SortedInsert(s: seq<Fr>, v: Fr): (t: seq<Fr>)
    requires StrictlySorted(s)
    ensures StrictlySorted(t) && forall u :: u in t <==> u == v || u in s
  {
    if s == [] then [v]
    else if v < s[0] then [v] + s
    else if v == s[0] then s
    else
      var rest := SortedInsert(s[1..], v);
      HeadFirst(s, v, rest);
      [s[0]] + rest
  }

  lemma {:induction false} HeadFirst(s: seq<Fr>, v: Fr, rest: seq<Fr>)
    requires StrictlySorted(s) && s != [] && s[0] < v && StrictlySorted(rest)
    requires forall u :: u in rest <==> u == v || u in s[1..]
    ensures StrictlySorted([s[0]] + rest) && forall u :: u in [s[0]] + rest <==> u == v || u in s
  {
    forall k | 0 <= k < |rest| ensures s[0] < rest[k] {
      assert rest[k] in rest;
      if rest[k] != v {
        var j :| 0 <= j < |s[1..]| && s[1..][j] == rest[k];
        assert s[j + 1] == rest[k];
      }
    }
    assert s == [s[0]] + s[1..];
  }

  /** Sorts and removes repeats. */
  function SortDedup(s: seq<Fr>): (t: seq<Fr>)
    ensures StrictlySorted(t) && forall u :: u in t <==> u in s
  {
    if s == [] then [] else SortedInsert(SortDedup(s[1..]), s[0])
  }

  // ----- Patching

  /** The tree is sound and agrees with the list except at entries whose value is listed. */
  ghost predicate Behind(h: TreeHash, h3: LeafHash, db: TreeDb, es: Entries, lows: seq<Fr>) {
    && Sound(h, db) && Clean(db)
    && forall x: nat {:trigger Leaves(db)[x]} | x < Pow2(db.meta.Height()) ::
         Leaves(db)[x] == LeafHashAt(h3, es, x) || (x in es && es[x].value in lows)
  }

  /** With nothing left behind, the tree and the list are coherent. */
  lemma {:induction false} CaughtUp(h: TreeHash, h3: LeafHash, db: TreeDb, es: Entries)
    requires Behind(h, h3, db, es, []) && Linked(es) && IdsBelow(es, Used(db)) && Used(db) <= Pow2(db.meta.Height())
    ensures Coherently(h, h3, db, es)
  {
    forall x: nat | x < Pow2(db.meta.Height())
      ensures Leaves(db)[x] == if x < Used(db) then LeafHashAt(h3, es, x) else 0
    {
    }
  }

  lemma {:induction false} EntryHasId(es: Entries, e: IndexedLeaf)
    requires Linked(es) && exists i :: i in es && es[i] == e
    ensures e.id in es && es[e.id] == e
  {
    var i :| i in es && es[i] == e;
    assert LinkOk(es, i);
  }

  lemma {:induction false} PatchOne(h: TreeHash, h3: LeafHash, db: TreeDb, es: Entries, lows: seq<Fr>, e: IndexedLeaf,
                                    db': TreeDb)
    requires Behind(h, h3, db, es, lows) && lows != [] && Distinct(es)
    requires e.id in es && es[e.id] == e && e.value == lows[0] && e.id < Pow2(db.meta.Height())
    requires db' == UpdateSpec(h, db, e.id, [HashLeaf(h3, e)], true).0
    ensures Behind(h, h3, db', es, lows[1..])
  {
    UpdateOneLeaf(h, db, e.id, HashLeaf(h3, e));
    forall x: nat | x < Pow2(db'.meta.Height())
      ensures Leaves(db')[x] == LeafHashAt(h3, es, x) || (x in es && es[x].value in lows[1..])
    {
      assert Leaves(db)[x] == LeafHashAt(h3, es, x) || (x in es && es[x].value in lows);
    }
  }

  /** The hash and the id of an entry with the given value. */
  ghost predicate UpdateFor(h3: LeafHash, es: Entries, v: Fr, update: (Fr, nat)) {
    exists i :: i in es && es[i].value == v && update == (HashLeaf(h3, es[i]), es[i].id)
  }

  ghost predicate UpdatesFor(h3: LeafHash, es: Entries, lows: seq<Fr>, updates: seq<(Fr, nat)>) {
    |updates| == |lows| && forall k | 0 <= k < |lows| :: UpdateFor(h3, es, lows[k], updates[k])
  }

  ghost predicate Patchable(h: TreeHash, h3: LeafHash, db: TreeDb, es: Entries, lows: seq<Fr>,
    updates: seq<(Fr, nat)>) {
    Behind(h, h3, db, es, lows) && Linked(es) && IdsBelow(es, Pow2(db.meta.Height()))
      && UpdatesFor(h3, es, lows, updates)
  }

  ghost predicate PatchProgress(h: TreeHash, h3: LeafHash, db: TreeDb, es: Entries, lows: seq<Fr>,
                                updates: seq<(Fr, nat)>, k: nat,
                                db1: TreeDb, root: Fr) {
    && k <= |updates| == |lows| && Behind(h, h3, db1, es, lows[k..])
    && db1.meta == db.meta.(root := db1.meta.root)
    && root == if k == 0 then 0 else db1.meta.root
  }

  lemma {:induction false} PatchStep(h: TreeHash, h3: LeafHash, db: TreeDb, es: Entries, lows: seq<Fr>,
                                     updates: seq<(Fr, nat)>, k: nat,
                                     db1: TreeDb, root: Fr, db2: TreeDb, updated: Result<Fr>)
    requires Patchable(h, h3, db, es, lows, updates) && k < |updates|
    requires PatchProgress(h, h3, db, es, lows, updates, k, db1, root)
    requires (db2, updated) == UpdateSpec(h, db1, updates[k].1, [updates[k].0], true)
    ensures updated.Ok? && PatchProgress(h, h3, db, es, lows, updates, k + 1, db2, updated.value)
  {
    assert UpdateFor(h3, es, lows[k], updates[k]);
    var i :| i in es && es[i].value == lows[k] && updates[k] == (HashLeaf(h3, es[i]), es[i].id);
    EntryHasId(es, es[i]);
    PatchOne(h, h3, db1, es, lows[k..], es[i], db2);
    assert lows[k..][1..] == lows[k + 1..];
    UpdateOneLeaf(h, db1, i, HashLeaf(h3, es[i]));
  }

  lemma {:induction false} PatchedIsInserted(h: TreeHash, h3: LeafHash, db: TreeDb, es: Entries, batch: seq<Fr>,
                                             db1: TreeDb, db2: TreeDb, es': Entries)
    requires ListUpdated(es, es', batch, Used(db)) && Used(db1) == Used(db) + |batch| <= Pow2(db1.meta.Height())
    requires db1.meta == db.meta.(subTreeCount := db1.meta.subTreeCount, root := db1.meta.root)
    requires Behind(h, h3, db2, es', []) && db2.meta == db1.meta.(root := db2.meta.root)
    ensures Inserted(h, h3, db, es, batch, db2, es')
  {
    CaughtUp(h, h3, db2, es');
  }

  /** The state between appending a batch and patching the low leaves. */
  ghost predicate Appended(h: TreeHash, h3: LeafHash, db: TreeDb, batch: seq<Fr>, lows: seq<Fr>, db': TreeDb,
                           es': Entries) {
    && Behind(h, h3, db', es', lows)
    && (forall v | v in lows :: Stored(es', v))
    && Used(db') == Used(db) + |batch| <= Pow2(db'.meta.Height())
    && db'.meta == db.meta.(subTreeCount := db'.meta.subTreeCount, root := db'.meta.root)
  }

  /** After the append only the low leaves of the batch, taken before it, are behind. */
  lemma {:induction false} AppendLeavesBehind(h: TreeHash, h3: LeafHash, db: TreeDb, es: Entries, es': Entries,
                                              batch: seq<Fr>,
                                              hashes: seq<Fr>, lows: seq<Fr>, db': TreeDb)
    requires Coherently(h, h3, db, es) && Linked(es') && NoneStored(es, batch) && |hashes| == |batch|
    requires Values(es') == Values(es) + Placement(batch, Used(db)) && IdsBelow(es', Used(db) + |batch|)
    requires BatchHashes(h3, es', Used(db), hashes)
    requires AreLows(es, batch, lows)
    requires AppendSpec(h, db, hashes, true).1.Ok? && db' == AppendSpec(h, db, hashes, true).0
    ensures Appended(h, h3, db, batch, lows, db', es')
  {
    AppendKeeps(h, db, hashes);
    ExtendedOf(es, es', batch, Used(db));
    forall x: nat | x < Pow2(db'.meta.Height())
      ensures Leaves(db')[x] == LeafHashAt(h3, es', x) || (x in es' && es'[x].value in lows)
    {
      if x in es { RelinkedAreLows(es, es', batch, Used(db), x); }
      LeafBehind(h, h3, db, es, es', batch, hashes, lows, db', x);
    }
    forall v | v in lows ensures Stored(es', v) { LowIsStored(es, es', batch, Used(db), v); }
  }

  lemma {:induction false} LeafBehind(h: TreeHash, h3: LeafHash, db: TreeDb, es: Entries, es': Entries, batch: seq<Fr>,
                                      hashes: seq<Fr>, lows: seq<Fr>, db': TreeDb, x: nat)
    requires Coherently(h, h3, db, es) && Extended(es, es', batch, Used(db)) && |hashes| == |batch|
    requires BatchHashes(h3, es', Used(db), hashes) && AreLows(es, batch, lows)
    requires Used(db) + |hashes| <= Pow2(db.meta.Height()) == Pow2(db'.meta.Height())
    requires Leaves(db') == Splice(Leaves(db), Used(db), hashes) && x < Pow2(db'.meta.Height())
    requires x in es ==> x in es' && (es'[x] != es[x] <==> LowOfSome(es, batch, x))
    ensures Leaves(db')[x] == LeafHashAt(h3, es', x) || (x in es' && es'[x].value in lows)
  {
    if x in es {
      OldLeafBehind(h, h3, db, es, es', batch, lows, x);
    } else if Used(db) <= x < Used(db) + |hashes| {
      var t := x - Used(db);
      assert hashes[t] == LeafHashAt(h3, es', Used(db) + t);
    } else {
      assert Leaves(db)[x] == 0;
    }
  }

  lemma {:induction false} OldLeafBehind(h: TreeHash, h3: LeafHash, db: TreeDb, es: Entries, es': Entries,
                                         batch: seq<Fr>, lows: seq<Fr>, x: nat)
    requires Coherently(h, h3, db, es) && AreLows(es, batch, lows) && x in es && x in es' && es'[x].value == es[x].value
    requires es'[x] != es[x] <==> LowOfSome(es, batch, x)
    ensures x < Used(db) <= Pow2(db.meta.Height())
    ensures Leaves(db)[x] == LeafHashAt(h3, es', x) || es'[x].value in lows
  {
    if LowOfSome(es, batch, x) {
      assert LowValue(es, x) == es[x].value;
      assert IsLowValue(es, batch, es[x].value);
    }
  }

  lemma {:induction false} LowIsStored(es: Entries, es': Entries, batch: seq<Fr>, at: nat, v: Fr)
    requires Extended(es, es', batch, at) && IsLowValue(es, batch, v)
    ensures Stored(es', v)
  {
    var i :| LowOfSome(es, batch, i) && LowValue(es, i) == v;
    assert i in es' && es'[i].value == v;
  }
}
