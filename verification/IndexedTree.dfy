/** The indexed (nullifier) tree: a mutable tree and, beside it, its leaf entries, both changed
    in place by two different batch-insert algorithms. */
module IndexedTrees {
  import opened Basics
  import opened Fold
  import opened MutableSpec
  import opened MutableTheorems
  import opened MutableRuns
  import opened Witness
  import opened LinkedLeaves
  import opened IndexedSpec
  import opened ImtWitness
  import opened ImtChains
  import opened Positions
  import opened StoreSteps
  import opened PatchSteps
  import opened IndexedSteps
  import opened MutableTrees

  class IndexedTree {
    const tree: MutableTree
    const h3: LeafHash
    var entries: Entries

    ghost predicate Valid()
      reads this, tree
    {
      Coherently(tree.h, h3, tree.Db(), entries)
    }

    /** A fresh tree with its one entry, the zero leaf, hashed into the first slot. */
    constructor (h: TreeHash, h3: LeafHash, treeHeight: nat, subTreeHeight: nat)
      requires treeHeight + subTreeHeight < U64_BITS
      ensures Valid() && fresh(tree) && tree.h == h && this.h3 == h3
      ensures entries == map[0 := ZERO_LEAF]
      ensures tree.Db() == InsertLeafSpec(h, EmptyDb(treeHeight, subTreeHeight), h3(0, 0, 0), true).0
      ensures tree.meta == TreeMetadata(treeHeight, subTreeHeight, 1, tree.meta.root)
    {
      tree := new MutableTree(h, treeHeight, subTreeHeight);
      this.h3 := h3;
      entries := map[0 := ZERO_LEAF];
      new;
      ghost var db0 := tree.Db();
      EmptyIsSound(h, treeHeight, subTreeHeight);
      ShlOne(subTreeHeight);
      InsertLeafPuts(h, db0, h3(0, 0, 0));
      InsertLeafKeeps(h, db0, h3(0, 0, 0));
      var r := tree.InsertLeaf(h3(0, 0, 0), true);
      InitiallyLinked();
      FreshIsCoherent(h, h3, db0, tree.Db());
    }

    /** The entry holding a value; values are distinct, so there is at most one. */
    method GetLeaf(v: Fr) returns (e: Option<IndexedLeaf>)
      ensures e.Some? <==> Stored(entries, v)
      ensures e.Some? ==> exists i :: i in entries && entries[i] == e.value && e.value.value == v
    {
      if Stored(entries, v) {
        var i :| i in entries && entries[i].value == v;
        e := Some(entries[i]);
      } else {
        e := None;
      }
    }

    /** An entry with the greatest value below `x`. */
    method GetLowLeaf(x: Fr) returns (e: Option<IndexedLeaf>)
      ensures FoundLow(entries, x, e)
    {
      if i :| i in entries && entries[i].value < x {
        ghost var some := MaxBelow(entries, entries.Keys, x, i);
        var low :| low in entries && IsLow(entries, low, x);
        e := Some(entries[low]);
      } else {
        e := None;
      }
    }

    /** Relinks the entry holding a value. */
    method UpdateLeaf(v: Fr, nextIndex: nat, nextValue: Fr) returns (ok: bool)
      modifies this
      ensures ok <==> Stored(old(entries), v)
      ensures !ok ==> entries == old(entries)
      ensures ok ==> exists i :: && i in old(entries) && old(entries)[i].value == v
                                 && entries == old(entries)[i := old(entries)[i].(nextIndex := nextIndex,
                                    nextValue := nextValue)]
    {
      if !Stored(entries, v) { return false; }
      var i :| i in entries && entries[i].value == v;
      entries := entries[i := entries[i].(nextIndex := nextIndex, nextValue := nextValue)];
      ok := true;
    }

    /** Stores a value at an id, taking over its low leaf's link. A value already there is
        skipped and an index too large for the database is an error. An id in use is
        overwritten, and if it was the low leaf's there is nothing left to relink. */
    method StoreLeaf(x: Fr, id: nat) returns (r: Result<bool>)
      modifies this
      ensures entries.Keys <= old(entries).Keys + {id}
      ensures Stored(old(entries), x) ==> r == Ok(false)
      ensures Stored(old(entries), x) || id > I64_MAX ==> entries == old(entries)
      ensures !Stored(old(entries), x) && id > I64_MAX ==> r.Err?
      ensures Linked(old(entries)) && !Stored(old(entries), x) && id <= I64_MAX
              && IdsBelow(old(entries), I64_MAX + 1) ==>
                exists low :: IsLow(old(entries), low, x) && StoredAt(old(entries), x, id, low, entries, r)
    {
      var found := GetLeaf(x);
      if found.Some? { return Ok(false); }
      var lowLeaf := GetLowLeaf(x);
      ghost var es := entries;
      if Linked(es) { FoundInLinked(es, x, lowLeaf); }
      if lowLeaf.None? { return Err(LeafExists); }
      var e := lowLeaf.value;
      if id > I64_MAX || e.nextIndex > I64_MAX { return Err(Failed); }
      entries := entries[id := IndexedLeaf(x, id, e.nextIndex, e.nextValue)];
      ghost var es1 := entries;
      var ok := UpdateLeaf(e.value, id, x);
      if Linked(es) { RelinkStored(es, x, id, e.id, es1, ok, entries); }
      if !ok { return Err(Failed); }
      r := Ok(true);
    }

    /** A non-membership proof is the membership proof of the low leaf. */
    method GetNonMembershipProof(x: Fr, ghost first: nat) returns (r: Result<MembershipProof>, ghost low: nat)
      requires Partial(tree.h, h3, tree.Db(), entries, first)
      requires forall l: nat {:trigger IsLow(entries, l, x)} | IsLow(entries, l, x) :: l < Pow2(tree.meta.Height())
      ensures if x != 0 && !Stored(entries, x) then r.Ok? else r == Err(LeafExists)
      ensures r.Ok? ==>
                && IsLow(entries, low, x) && Skips(entries[low], x)
                && r.value == MembershipProof(HashLeaf(h3, entries[low]), ProofPath(tree.Db(), low), low)
      ensures r.Ok? && low < first ==> FoldPath(tree.h, r.value.nodeValue, r.value.siblingPath) == tree.meta.root
    {
      low := 0;
      if x == 0 { return Err(LeafExists), 0; }
      var found := GetLeaf(x);
      if found.Some? { return Err(LeafExists), 0; }
      var lowLeaf := GetLowLeaf(x);
      FoundInLinked(entries, x, lowLeaf);
      var e := lowLeaf.value;
      low := e.id;
      LowProof(tree.h, h3, tree.Db(), entries, first, low, x);
      var path := tree.WalkPath(Pow2(tree.meta.Height()) - 1 + e.id, tree.meta.Height());
      r := Ok(MembershipProof(h3(e.value, e.nextIndex, e.nextValue), path, e.id));
    }

    /** The circuit insert of a value whose low leaf is in the tree: prove, store, rewrite the
        low leaf's tree leaf. */
    method InsertInTree(x: Fr, index: nat, low: IndexedLeaf, ghost first: nat) returns (w: LowWitness)
      requires CanInsert(tree.h, h3, tree.Db(), entries, first, index) && !Stored(entries, x)
      requires IsLow(entries, low.id, x) && entries[low.id] == low && low.id < first
      modifies this, tree
      ensures OneInserted(tree.h, h3, old(tree.Db()), old(entries), first, x, index, tree.Db(), entries, w)
      ensures LowForm(tree.meta.Height(), first, x, index, w)
    {
      ghost var db, es := tree.Db(), entries;
      forall l: nat | IsLow(entries, l, x) ensures l == low.id { LowUnique(entries, l, low.id, x); }
      ghost var l;
      var proof;
      proof, l := GetNonMembershipProof(x, first);
      LowUnique(es, l, low.id, x);
      var stored := StoreLeaf(x, index);
      ghost var l2 :| IsLow(es, l2, x) && StoredAt(es, x, index, l2, entries, stored);
      LowUnique(es, l2, low.id, x);
      StoreKeepsLinked(es, x, index, low.id);
      var updated := GetLeaf(low.value);
      RelinkedEntry(es, entries, x, index, low.id, updated);
      var hash := h3(updated.value.value, updated.value.nextIndex, updated.value.nextValue);
      var done := tree.UpdateSubTree(updated.value.id, [hash], true);
      w := (low, proof.value);
      InTreeStep(tree.h, h3, db, es, first, x, index, low.id, tree.Db(), w);
    }

    /** The circuit insert of a value whose low leaf is itself pending: only the list changes,
        and the proof is a dummy. */
    method InsertPending(x: Fr, index: nat, low: IndexedLeaf, ghost first: nat) returns (w: LowWitness)
      requires CanInsert(tree.h, h3, tree.Db(), entries, first, index) && !Stored(entries, x)
      requires IsLow(entries, low.id, x) && entries[low.id] == low && low.id >= first
      modifies this
      ensures OneInserted(tree.h, h3, tree.Db(), old(entries), first, x, index, tree.Db(), entries, w)
      ensures LowForm(tree.meta.Height(), first, x, index, w)
    {
      ghost var db, es := tree.Db(), entries;
      var stored := StoreLeaf(x, index);
      ghost var l :| IsLow(es, l, x) && StoredAt(es, x, index, l, entries, stored);
      LowUnique(es, l, low.id, x);
      var dummy := DummyPath(tree.meta.Height());
      w := (low, MembershipProof(h3(low.value, low.nextIndex, low.nextValue), dummy, index));
      PendingStep(tree.h, h3, db, es, first, x, index, low.id, w);
    }

    /** One round of the circuit insert. */
    method InsertOne(x: Fr, index: nat, first: nat) returns (r: Result<LowWitness>)
      requires Partial(tree.h, h3, tree.Db(), entries, first) && first <= index && IdsBelow(entries, index)
      modifies this, tree
      ensures r.Ok? <==> x == 0 || (!Stored(old(entries), x) && index <= I64_MAX)
      ensures r.Ok? ==>
              && OneInserted(tree.h, h3, old(tree.Db()), old(entries), first, x, index, tree.Db(), entries, r.value)
              && LowForm(tree.meta.Height(), first, x, index, r.value)
      ensures r.Err? ==> entries == old(entries) && tree.Db() == old(tree.Db())
      ensures r.Err? ==> r.error == if Stored(old(entries), x) then LeafExists else Failed
    {
      var found := GetLeaf(x);
      if found.Some? && x != 0 { return Err(LeafExists); }
      if x != 0 {
        var lowLeaf := GetLowLeaf(x);
        FoundInLinked(entries, x, lowLeaf);
        var low := lowLeaf.value;
        if index > I64_MAX {
          var refused := StoreLeaf(x, index);
          return Err(Failed);
        }
        var w;
        if low.id < first {
          w := InsertInTree(x, index, low, first);
        } else {
          w := InsertPending(x, index, low, first);
        }
        r := Ok(w);
      } else {
        var dummy := DummyPath(tree.meta.Height());
        r := Ok((ZERO_LEAF, MembershipProof(0, dummy, 0)));
        ZeroStep(tree.h, h3, tree.Db(), entries, first, index, r.value);
      }
    }

    /** Round `t` of the circuit insert. */
    method InsertRound(batch: seq<Fr>, t: nat, first: nat, lows: seq<LowWitness>, ghost db: TreeDb, ghost es: Entries)
      returns (r: Result<LowWitness>)
      requires t < |batch| && RoundsDone(tree.h, h3, db, es, first, batch, t, tree.Db(), entries, lows)
      modifies this, tree
      ensures r.Ok? ==> RoundsDone(tree.h, h3, db, es, first, batch, t + 1, tree.Db(), entries, lows + [r.value])
      ensures r.Err? ==> !NewValues(es, batch) || first + |batch| > I64_MAX + 1
      ensures r.Err? ==> StopsAt(es, batch, first, t) && entries == old(entries) && tree.Db() == old(tree.Db())
      ensures r.Err? ==> r.error == LeafExists || (r.error == Failed && first + |batch| > I64_MAX + 1)
    {
      ghost var db1, es1 := tree.Db(), entries;
      RoundReady(tree.h, h3, db, es, first, batch, t, db1, es1, lows);
      r := InsertOne(batch[t], first + t, first);
      if r.Ok? {
        NextInserted(tree.h, h3, db, es, first, batch, t, db1, es1, lows, tree.Db(), entries, r.value);
        LowFormsSnoc(db.meta.Height(), first, batch, lows, r.value);
      } else {
        RoundRefused(tree.h, h3, db, es, first, batch, t, db1, es1, lows);
      }
    }

    /** The first loop of the circuit insert: every value in turn, with its witness. */
    method InsertAll(batch: seq<Fr>, first: nat) returns (r: Result<seq<LowWitness>>)
      requires Valid() && first == Used(tree.Db())
      modifies this, tree
      ensures r.Ok? ==> AllInserted(tree.h, h3, old(tree.Db()), old(entries), first, batch, tree.Db(), entries, r.value)
      ensures r.Ok? ==> NewValues(old(entries), batch) && LowForms(old(tree.meta).Height(), first, batch, r.value)
      ensures NewValues(old(entries), batch) && first + |batch| <= I64_MAX + 1 ==> r.Ok?
      ensures r.Err? ==>
              exists n :: PartlyInserted(tree.h, h3, old(tree.Db()), old(entries), batch, n, tree.Db(), entries)
      ensures r.Err? ==> r.error == LeafExists || (r.error == Failed && first + |batch| > I64_MAX + 1)
    {
      ghost var db, es := tree.Db(), entries;
      var lows := [];
      NothingInserted(tree.h, h3, db, es, first, batch);
      for t := 0 to |batch|
        invariant RoundsDone(tree.h, h3, db, es, first, batch, t, tree.Db(), entries, lows)
      {
        var w := InsertRound(batch, t, first, lows, db, es);
        if w.Err? {
          StoppedIsPartly(tree.h, h3, db, es, batch, t, tree.Db(), entries, lows);
          return Err(w.error);
        }
        lows := lows + [w.value];
      }
      AllRoundsDone(tree.h, h3, db, es, first, batch, tree.Db(), entries, lows);
      r := Ok(lows);
    }

    /** The stored entries of a batch and the tree leaves they call for. */
    method CollectInserts(batch: seq<Fr>, ghost at: nat, ghost es: Entries)
      returns (pending: seq<IndexedLeaf>, hashes: seq<Fr>)
      requires Linked(entries) && Extended(es, entries, batch, at) && IdsBelow(es, at)
      ensures pending == Pending(entries, at, |batch|) && |hashes| == |batch| && BatchHashes(h3, entries, at, hashes)
    {
      pending, hashes := [], [];
      for t := 0 to |batch|
        invariant pending == Pending(entries, at, t) && |hashes| == t && BatchHashes(h3, entries, at, hashes)
      {
        BatchEntry(es, entries, batch, at, t);
        if batch[t] != 0 {
          var found := GetLeaf(batch[t]);
          pending := pending + [found.value];
          hashes := hashes + [h3(found.value.value, found.value.nextIndex, found.value.nextValue)];
        } else {
          pending := pending + [ZERO_LEAF];
          hashes := hashes + [0];
        }
      }
    }

    /** The circuit insert of one sub-tree: relink the low leaves one by one, each with its
        proof, then append the new leaves. A refusal leaves behind what was done before it. */
    method InsertNullifiersForCircuit(batch: seq<Fr>) returns (r: Result<ImtInsertionInfo>)
      requires Valid()
      modifies this, tree
      ensures r.Ok? <==> && |batch| == old(tree.meta).Capacity()
                         && old(tree.meta).subTreeCount < Pow2(old(tree.meta).treeHeight)
                         && old(tree.meta).Height() < 63
                         && NewValues(old(entries), batch)
      ensures r.Ok? ==> Valid() && Inserted(tree.h, h3, old(tree.Db()), old(entries), batch, tree.Db(), entries)
      ensures r.Ok? ==> ValidWitness(tree.h, h3, old(tree.Db()), batch, tree.Db(), entries, r.value)
      ensures r.Err? ==> ChunkStopped(tree.h, h3, old(tree.Db()), old(entries), batch, tree.Db(), entries)
      ensures r.Err? ==> (Valid() <==> entries == old(entries))
      ensures r == Err(IncorrectBatchSize) <==> |batch| != old(tree.meta).Capacity()
      ensures |batch| == old(tree.meta).Capacity() && Used(old(tree.Db())) + |batch| <= I64_MAX + 1 && r.Err? ==>
                r.error == if !NewValues(old(entries), batch) then LeafExists
                           else if old(tree.meta).Height() >= 63 then HeightTooLarge
                           else InvalidProof
    {
      ghost var db, es := tree.Db(), entries;
      var cap := Pow2(tree.meta.subTreeHeight);
      if cap != |batch| { return Err(IncorrectBatchSize); }
      var oldRoot := tree.meta.root;
      var first := tree.meta.LeavesBelow(tree.meta.subTreeCount);
      ShlIsProduct(tree.meta.subTreeCount, tree.meta.subTreeHeight);
      CountIsFull(tree.h, db);
      IndicesFit(tree.h, db, |batch|);
      var inserted := InsertAll(batch, first);
      if inserted.Err? {
        ghost var n :| PartlyInserted(tree.h, h3, db, es, batch, n, tree.Db(), entries);
        AheadExactly(tree.h, h3, db, es, batch, n, tree.Db(), entries);
        return Err(inserted.error);
      }
      ghost var db1 := tree.Db();
      ExtendedOf(es, entries, batch, first);
      PartialUnusedZero(tree.h, h3, db1, entries);
      var pending, hashes := CollectInserts(batch, first, es);
      InsertForCircuitRecord(tree.h, db1, hashes);
      var info := tree.InsertForCircuit(hashes);
      if info.Err? {
        InsertForCircuitErrors(tree.h, db1, hashes);
        AllIsPartly(tree.h, h3, db, es, batch, db1, entries, inserted.value);
        AheadExactly(tree.h, h3, db, es, batch, |batch|, db1, entries);
        return Err(info.error);
      }
      r := Ok(ImtInsertionInfo(oldRoot, info.value, first, inserted.value, pending));
      CircuitInserted(tree.h, h3, db, es, batch, db1, entries, hashes, tree.Db());
      WitnessAssembled(tree.h, h3, db, es, batch, db1.meta.root, entries, tree.Db(), r.value);
    }

    /** The circuit insert of several sub-trees, one after the other. */
    method BatchInsertNullifiers(nullifiers: seq<Fr>) returns (r: Result<seq<ImtInsertionInfo>>)
      requires Valid()
      modifies this, tree
      ensures r.Ok? <==> nullifiers == [] || BatchFits(old(tree.Db()), old(entries), nullifiers)
      ensures r.Ok? ==> Valid() && Inserted(tree.h, h3, old(tree.Db()), old(entries), nullifiers, tree.Db(), entries)
      ensures r.Ok? ==> TreeChained(tree.h, h3, old(tree.Db()), nullifiers, r.value, tree.meta.root)
      ensures r.Ok? ==> StatedWitnesses(tree.meta.Height(), r.value)
      ensures r.Ok? ==> |nullifiers| == Shl(|r.value|, tree.meta.subTreeHeight)
      ensures r.Err? ==> exists k, db1, es1 ::
                BatchStopped(tree.h, h3, old(tree.Db()), old(entries), nullifiers, k, db1, es1, tree.Db(), entries)
    {
      ghost var done: seq<Fr>, db, es := [], tree.Db(), entries;
      ShlOne(tree.meta.subTreeHeight);
      NothingDone(tree.h, h3, db, es);
      if |nullifiers| == 0 { return Ok([]); }
      var infos: seq<ImtInsertionInfo>, rest, cap := [], nullifiers, Pow2(tree.meta.subTreeHeight);
      while |rest| > 0
        invariant Valid() && tree.meta.Capacity() == cap && done + rest == nullifiers
        invariant BatchSoFar(db, es, done, tree.Db(), entries)
        invariant TreeChained(tree.h, h3, db, done, infos, tree.meta.root) && StatedWitnesses(db.meta.Height(), infos)
        decreases |rest|
      {
        ghost var db1, es1 := tree.Db(), entries;
        var n := if |rest| < cap then |rest| else cap;
        var chunk := rest[..n];
        var info := InsertNullifiersForCircuit(chunk);
        if info.Err? {
          ChunkRefused(db, es, done, rest, chunk, db1, es1);
          StoppedInBatch(tree.h, h3, db, es, nullifiers, done, rest, db1, es1, tree.Db(), entries);
          return Err(info.error);
        }
        BatchGrows(db, es, done, chunk, db1, es1, tree.Db(), entries);
        ChainGrows(tree.h, h3, db, done, infos, chunk, info.value, db1, tree.Db(), entries);
        SplitRest(nullifiers, done, rest, n);
        infos, rest, done := infos + [info.value], rest[n..], done + chunk;
      }
      assert done + rest == done;
      BatchAccepted(tree.h, h3, db, es, done, tree.Db(), entries);
      ImtChainLength(Checks(tree.h, h3, db.meta.treeHeight, db.meta.subTreeHeight), db.meta.subTreeHeight, Used(db),
                     db.meta.root, done, infos, tree.meta.root);
      r := Ok(infos);
    }

    // ----- The other algorithm: append first, then patch

    method AllUnseen(batch: seq<Fr>) returns (ok: bool)
      ensures ok <==> NoneStored(entries, batch)
    {
      for t := 0 to |batch|
        invariant forall u | 0 <= u < t && batch[u] != 0 :: !Stored(entries, batch[u])
      {
        var found := GetLeaf(batch[t]);
        if found.Some? && batch[t] != 0 { return false; }
      }
      ok := true;
    }

    /** The values of the batch's low leaves, sorted and without repeats. */
    method CollectLows(batch: seq<Fr>) returns (lows: seq<Fr>)
      requires Linked(entries)
      ensures StrictlySorted(lows)
      ensures AreLows(entries, batch, lows)
    {
      var all: seq<Fr> := [];
      for t := 0 to |batch|
        invariant AreLows(entries, batch[..t], all)
      {
        var low := GetLowLeaf(batch[t]);
        FoundInLinked(entries, batch[t], low);
        ghost var before := all;
        if low.Some? { all := all + [low.value.value]; }
        LowsSnoc(entries, batch, t, before, all);
      }
      assert batch[..|batch|] == batch;
      lows := SortDedup(all);
    }

    /** Stores a value at an id unless it is zero. */
    method StoreNonZero(x: Fr, id: nat) returns (ok: bool)
      modifies this
      ensures entries.Keys <= old(entries).Keys + {id}
      ensures x == 0 ==> ok && entries == old(entries)
      ensures Linked(old(entries)) && IdsBelow(old(entries), id) && id <= I64_MAX ==>
                && (ok <==> x == 0 || !Stored(old(entries), x))
                && (!ok ==> entries == old(entries))
                && (ok ==> Linked(entries) && IdsBelow(entries, id + 1))
                && (ok ==> Values(entries) == if x == 0 then Values(old(entries)) else Values(old(entries))[id := x])
    {
      ghost var es := entries;
      if x != 0 {
        var stored := StoreLeaf(x, id);
        if Linked(es) && IdsBelow(es, id) && id <= I64_MAX && !Stored(es, x) {
          ghost var low :| IsLow(es, low, x) && StoredAt(es, x, id, low, entries, stored);
          StoreKeepsLinked(es, x, id, low);
          StoreValues(es, x, id, low);
        }
        if stored.Err? || !stored.value { return false; }
      }
      ok := true;
    }

    /** Stores value `t` of a batch at the program's position for it. */
    method StoreNext(batch: seq<Fr>, t: nat, index: nat, ghost at: nat, ghost es: Entries) returns (ok: bool)
      requires t < |batch| && index < U32_RANGE
      modifies this
      ensures entries.Keys <= old(entries).Keys + {index}
      ensures StoreProgress(es, batch, at, t, old(entries)) && (batch[t] != 0 ==> index == at + t) ==>
                if ok then StoreProgress(es, batch, at, t + 1, entries)
                else !NewValues(es, batch) && StopsAt(es, batch, at, t) && entries == old(entries)
    {
      ghost var es1 := entries;
      ok := StoreNonZero(batch[t], index);
      if StoreProgress(es, batch, at, t, es1) && (batch[t] != 0 ==> index == at + t) {
        StoreStep(es, batch, at, t, es1, ok, entries);
      }
    }

    /** Stores the non-zero values of a batch at the program's positions, which are the true
        consecutive ones when those fit. */
    method StoreAll(batch: seq<Fr>, ghost at: nat) returns (ok: bool)
      requires at == tree.meta.LeavesBelow(tree.meta.subTreeCount)
      modifies this
      ensures forall k | k in entries && k !in old(entries) :: k < U32_RANGE
      ensures Linked(old(entries)) && IdsBelow(old(entries), at) && PositionsFit(batch, at) ==>
                && (ok <==> NewValues(old(entries), batch)) && (ok ==> ListUpdated(old(entries), entries, batch, at))
                && exists n :: StoredUpTo(old(entries), batch, at, n, entries) && (ok <==> n == |batch|)
    {
      ghost var es := entries;
      ghost var fits := Linked(es) && IdsBelow(es, at) && PositionsFit(batch, at);
      var index := InsertIndexU32(tree.meta);
      if fits { NothingStored(es, batch, at); }
      for t := 0 to |batch|
        invariant index == PositionU32(tree.meta, t)
        invariant forall k | k in entries && k !in es :: k < U32_RANGE
        invariant fits ==> StoreProgress(es, batch, at, t, entries)
      {
        PositionExact(tree.meta, t);
        var stored := StoreNext(batch, t, index, at, es);
        if !stored {
          assert fits ==> StoredUpTo(es, batch, at, t, entries);
          return false;
        }
        NextPosition(tree.meta, t);
        index := (index + 1) % U32_RANGE;
      }
      if fits {
        AllStored(es, batch, at, entries);
        assert StoredUpTo(es, batch, at, |batch|, entries);
      }
      ok := true;
    }

    /** The tree leaves of the stored values of a batch. */
    method CollectHashes(batch: seq<Fr>, ghost at: nat, ghost es: Entries) returns (r: Result<seq<Fr>>)
      ensures r.Ok? ==> |r.value| == |batch|
      ensures IdsBelow(es, at) && ListUpdated(es, entries, batch, at) ==> r.Ok? && BatchHashes(h3, entries, at, r.value)
    {
      ghost var updated := IdsBelow(es, at) && ListUpdated(es, entries, batch, at);
      if updated { ExtendedOf(es, entries, batch, at); }
      var hashes: seq<Fr> := [];
      for t := 0 to |batch|
        invariant |hashes| == t && (updated ==> BatchHashes(h3, entries, at, hashes))
      {
        if updated { BatchEntry(es, entries, batch, at, t); }
        var found := GetLeaf(batch[t]);
        if found.None? { return Err(Failed); }
        var e := found.value;
        hashes := hashes + [if e.value != 0 then h3(e.value, e.nextIndex, e.nextValue) else 0];
      }
      r := Ok(hashes);
    }

    /** The new tree leaf and the place of each listed value's entry. */
    method GatherUpdates(lows: seq<Fr>) returns (r: Result<seq<(Fr, nat)>>)
      ensures r.Ok? <==> forall v | v in lows :: Stored(entries, v)
      ensures r.Ok? ==> UpdatesFor(h3, entries, lows, r.value)
    {
      var updates: seq<(Fr, nat)> := [];
      for k := 0 to |lows|
        invariant UpdatesFor(h3, entries, lows[..k], updates)
        invariant forall j | 0 <= j < k :: Stored(entries, lows[j])
      {
        var found := GetLeaf(lows[k]);
        if found.None? {
          assert lows[k] in lows;
          return Err(ItemNotFound);
        }
        var e := found.value;
        updates := updates + [(h3(e.value, e.nextIndex, e.nextValue), e.id)];
      }
      assert lows[..|lows|] == lows;
      r := Ok(updates);
    }

    /** Rewrites those tree leaves one by one, returning the last root. */
    method ApplyUpdates(updates: seq<(Fr, nat)>, ghost lows: seq<Fr>) returns (r: Result<Fr>)
      modifies tree
      ensures Patchable(tree.h, h3, old(tree.Db()), entries, lows, updates) ==>
                && r.Ok? && Behind(tree.h, h3, tree.Db(), entries, [])
                && tree.meta == old(tree.meta).(root := tree.meta.root)
                && r.value == if updates == [] then 0 else tree.meta.root
    {
      var root := 0;
      ghost var db := tree.Db();
      ghost var fine := Patchable(tree.h, h3, db, entries, lows, updates);
      for k := 0 to |updates|
        invariant fine ==> PatchProgress(tree.h, h3, db, entries, lows, updates, k, tree.Db(), root)
      {
        ghost var db1 := tree.Db();
        var updated := tree.UpdateSubTree(updates[k].1, [updates[k].0], true);
        if fine { PatchStep(tree.h, h3, db, entries, lows, updates, k, db1, root, tree.Db(), updated); }
        if updated.Err? { return Err(updated.error); }
        root := updated.value;
      }
      r := Ok(root);
    }

    /** Inserts whole sub-trees of values: store them all, append their leaves, then patch the
        low leaves found before anything was stored. The list ends up as it should exactly when
        the positions of the stored values fit 32 bits. */
    method InsertLeaves(batch: seq<Fr>) returns (r: Result<Fr>)
      requires Valid()
      modifies this, tree
      ensures r.Ok? ==> HasRoom(old(tree.meta), |batch|) && NoneStored(old(entries), batch)
      ensures r.Ok? ==> (Values(entries) == Values(old(entries)) + Placement(batch, Used(old(tree.Db())))
                         <==> PositionsFit(batch, Used(old(tree.Db()))))
      ensures PositionsFit(batch, Used(old(tree.Db()))) ==>
                && (r.Ok? <==> HasRoom(old(tree.meta), |batch|) && NewValues(old(entries), batch))
                && (r.Ok? ==> Valid() && Inserted(tree.h, h3, old(tree.Db()), old(entries), batch, tree.Db(), entries))
                && (r.Ok? ==> r.value == if batch != [] && AllZero(batch) then 0 else tree.meta.root)
                && (r.Err? ==> tree.Db() == old(tree.Db()) && (Valid() <==> entries == old(entries)))
                && (r.Err? ==> r.error == InsertLeavesError(old(tree.meta), old(entries), batch))
                && (r.Err? ==> (entries == old(entries) <==> !NoneStored(old(entries), batch) || AllZero(batch)))
                && (r.Err? && NoneStored(old(entries), batch) ==>
                      exists n :: StoredUpTo(old(entries), batch, Used(old(tree.Db())), n, entries))
    {
      ghost var db, es := tree.Db(), entries;
      if |batch| == 0 {
        EmptyInsertion(tree.h, h3, db, es);
        NoRoomNeeded(tree.h, db);
        return Ok(tree.meta.root);
      }
      var unseen := AllUnseen(batch);
      if !unseen { return Err(LeafExists); }
      var lows := CollectLows(batch);
      ShlIsProduct(tree.meta.subTreeCount, tree.meta.subTreeHeight);
      var stored := StoreAll(batch, Used(db));
      if PositionsFit(batch, Used(db)) {
        ghost var n :| StoredUpTo(es, batch, Used(db), n, entries) && (stored <==> n == |batch|);
        RefusedAhead(tree.h, h3, db, es, batch, n, entries);
      }
      if !stored { return Err(Failed); }
      LowsEmpty(es, batch, lows);
      PlacedExactly(es, entries, batch, Used(db));
      r := AppendAndPatch(batch, lows, Used(db), es);
    }

    /** Why a plain insert is refused, first reason first. */
    ghost static function InsertLeavesError(meta: TreeMetadata, es: Entries, batch: seq<Fr>): TreeError {
      if !NoneStored(es, batch) then LeafExists
      else if !NewValues(es, batch) then Failed
      else if |batch| % meta.Capacity() != 0 then IncorrectBatchSize
      else TreeIsFull
    }

    /** The tree's half of the insertion, once the list is up to date. */
    method AppendAndPatch(batch: seq<Fr>, lows: seq<Fr>, ghost at: nat, ghost es: Entries) returns (r: Result<Fr>)
      requires Coherently(tree.h, h3, tree.Db(), es) && at == Used(tree.Db()) && AreLows(es, batch, lows)
      requires NoneStored(es, batch)
      modifies tree
      ensures r.Ok? ==> HasRoom(old(tree.meta), |batch|)
      ensures ListUpdated(es, entries, batch, at) ==>
                && (r.Ok? <==> HasRoom(old(tree.meta), |batch|)) && (r.Err? ==> tree.Db() == old(tree.Db()))
                && (r.Err? ==> r.error == if |batch| % old(tree.meta).Capacity() != 0 then IncorrectBatchSize
                                          else TreeIsFull)
                && (r.Ok? ==> Inserted(tree.h, h3, old(tree.Db()), es, batch, tree.Db(), entries))
                && (r.Ok? ==> r.value == if lows == [] then 0 else tree.meta.root)
    {
      ghost var db, updated := tree.Db(), ListUpdated(es, entries, batch, at);
      var hashes := CollectHashes(batch, at, es);
      if hashes.Err? { return Err(hashes.error); }
      AppendAccepts(tree.h, db, hashes.value);
      var appended := tree.AppendSubTrees(hashes.value, true);
      if appended.Err? { return Err(appended.error); }
      ghost var db1 := tree.Db();
      if updated { AppendLeavesBehind(tree.h, h3, db, es, entries, batch, hashes.value, lows, db1); }
      var gathered := GatherUpdates(lows);
      if gathered.Err? { return Err(gathered.error); }
      r := ApplyUpdates(gathered.value, lows);
      if updated { PatchedIsInserted(tree.h, h3, db, es, batch, db1, tree.Db(), entries); }
    }
  }

  /** A fresh tree, unless its heights together do not fit 64 bits. */
  method NewIndexedTree(h: TreeHash, h3: LeafHash, treeHeight: nat, subTreeHeight: nat) returns (r: Result<IndexedTree>)
    ensures if treeHeight + subTreeHeight < U64_BITS then r.Ok? else r == Err(HeightTooLarge)
    ensures r.Ok? ==>
            fresh(r.value) && fresh(r.value.tree) && r.value.Valid() && r.value.tree.h == h && r.value.h3 == h3
    ensures r.Ok? ==> r.value.entries == map[0 := ZERO_LEAF]
    ensures r.Ok? ==> r.value.tree.Db() == InsertLeafSpec(h, EmptyDb(treeHeight, subTreeHeight), h3(0, 0, 0), true).0
    ensures r.Ok? ==> r.value.tree.meta == TreeMetadata(treeHeight, subTreeHeight, 1, r.value.tree.meta.root)
  {
    if treeHeight + subTreeHeight >= U64_BITS { return Err(HeightTooLarge); }
    var tree := new IndexedTree(h, h3, treeHeight, subTreeHeight);
    r := Ok(tree);
  }
}
