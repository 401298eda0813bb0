/** The trees and the rollup checks together: the records the trees hand out for a block, laid out
    over a tree of proofs, are accepted, and the block's roots are the roots the trees hold; and a
    block that is accepted holds no nullifier twice. */
module Blocks {
  import opened Basics
  import opened Fold
  import opened MutableSpec
  import opened Witness
  import opened IndexedSpec
  import opened ImtWitness
  import opened ImtChains
  import opened IndexedSteps
  import opened LinkedLeaves
  import opened WitnessSoundness
  import opened MutableTrees
  import opened IndexedTrees
  import opened Rollup

  /** How records become circuit variables; the roots are among them. */
  datatype Encoding = Encoding(commitment: CircuitInsertionInfo -> seq<Fr>, nullifier: ImtInsertionInfo -> seq<Fr>)
  {
    function Commitment(info: CircuitInsertionInfo): Insertion {
      Insertion(info.oldRoot, info.newRoot, commitment(info))
    }

    function Nullifier(info: ImtInsertionInfo): Insertion {
      Insertion(info.oldRoot, info.circuitInfo.newRoot, nullifier(info))
    }

    function CommitmentsOf(infos: seq<CircuitInsertionInfo>): (s: seq<Insertion>)
      ensures |s| == |infos|
    {
      if infos == [] then [] else CommitmentsOf(infos[..|infos| - 1]) + [Commitment(infos[|infos| - 1])]
    }

    function NullifiersOf(infos: seq<ImtInsertionInfo>): (s: seq<Insertion>)
      ensures |s| == |infos|
    {
      if infos == [] then [] else NullifiersOf(infos[..|infos| - 1]) + [Nullifier(infos[|infos| - 1])]
    }
  }

  /** The shapes of the two trees and their hashes. */
  datatype Shape = Shape(h: TreeHash, h3: LeafHash, commitments: (nat, nat), nullifiers: (nat, nat))
  {
    ghost function Checks(): Check {
      ImtChains.Checks(h, h3, nullifiers.0, nullifiers.1)
    }
  }

  /** The commitment gadget accepts every valid record. */
  ghost predicate AcceptsRecords(c: Circuit, enc: Encoding, sh: Shape) {
    forall info | ValidRecord(sh.h, sh.commitments.0, sh.commitments.1, info) :: c.commitmentOk(enc.Commitment(info))
  }

  ghost predicate Checked(sh: Shape, info: ImtInsertionInfo) {
    CheckedWitness(sh.h, sh.h3, sh.nullifiers.0, sh.nullifiers.1, info.firstIndex, ValuesOf(info.pendingInserts), info)
  }

  /** The nullifier gadget accepts every checked witness. */
  ghost predicate AcceptsWitnesses(c: Circuit, enc: Encoding, sh: Shape) {
    forall info | Checked(sh, info) :: c.nullifierOk(enc.Nullifier(info))
  }

  /** And no other. */
  ghost predicate RefusesOthers(c: Circuit, enc: Encoding, sh: Shape) {
    forall info | c.nullifierOk(enc.Nullifier(info)) :: Checked(sh, info)
  }

  /** A gadget that does both, for any encoding that loses nothing. */
  lemma {:induction false} ExactGadget(c: Circuit, enc: Encoding, sh: Shape) returns (c': Circuit)
    requires forall a, b | enc.Nullifier(a) == enc.Nullifier(b) :: a == b
    ensures AcceptsWitnesses(c', enc, sh) && RefusesOthers(c', enc, sh)
    ensures c' == c.(nullifierOk := c'.nullifierOk)
  {
    c' := c.(nullifierOk := i => exists info :: enc.Nullifier(info) == i && Checked(sh, info));
  }

  lemma {:induction false} RootChainSnoc(ok: Insertion -> bool, from: Fr, s: seq<Insertion>, i: Insertion)
    requires RootChain(ok, from, s, i.oldRoot) && ok(i)
    ensures RootChain(ok, from, s + [i], i.newRoot)
  {
    assert [i][1..] == [];
    RootChainAppend(ok, from, s, i.oldRoot, [i], i.newRoot);
  }

  /** The commitment records of a batch make one chain of accepted insertions. */
  lemma {:induction false} CommitmentChain(c: Circuit, enc: Encoding, sh: Shape, from: Fr,
                                           infos: seq<CircuitInsertionInfo>, to: Fr)
    requires AcceptsRecords(c, enc, sh) && Chained(sh.h, sh.commitments.0, sh.commitments.1, from, infos, to)
    ensures RootChain(c.commitmentOk, from, enc.CommitmentsOf(infos), to)
    decreases |infos|
  {
    if infos != [] {
      var n := |infos| - 1;
      CommitmentChain(c, enc, sh, from, infos[..n], infos[n].oldRoot);
      RootChainSnoc(c.commitmentOk, from, enc.CommitmentsOf(infos[..n]), enc.Commitment(infos[n]));
    }
  }

  lemma {:induction false} WitnessAccepted(c: Circuit, enc: Encoding, sh: Shape, first: nat, batch: seq<Fr>,
                                           info: ImtInsertionInfo)
    requires AcceptsWitnesses(c, enc, sh)
    requires CheckedWitness(sh.h, sh.h3, sh.nullifiers.0, sh.nullifiers.1, first, batch, info)
    ensures c.nullifierOk(enc.Nullifier(info))
  {
    WitnessNamesBatch(sh.h, sh.h3, sh.nullifiers.0, sh.nullifiers.1, first, batch, info);
    assert Checked(sh, info);
  }

  /** So do the nullifier witnesses. */
  lemma {:induction false} NullifierChain(c: Circuit, enc: Encoding, sh: Shape, at: nat, from: Fr, batch: seq<Fr>,
                                          infos: seq<ImtInsertionInfo>, to: Fr)
    requires AcceptsWitnesses(c, enc, sh) && ImtChained(sh.Checks(), sh.nullifiers.1, at, from, batch, infos, to)
    ensures RootChain(c.nullifierOk, from, enc.NullifiersOf(infos), to)
  {
    forall first: nat, batch, info | sh.Checks()(first, batch, info) ensures c.nullifierOk(enc.Nullifier(info)) {
      WitnessAccepted(c, enc, sh, first, batch, info);
    }
    PassedChain(c, enc, sh.Checks(), sh.nullifiers.1, at, from, batch, infos, to);
  }

  lemma {:induction false} PassedChain(c: Circuit, enc: Encoding, ok: Check, e: nat, at: nat, from: Fr, batch: seq<Fr>,
                                       infos: seq<ImtInsertionInfo>, to: Fr)
    requires forall first: nat, batch, info | ok(first, batch, info) :: c.nullifierOk(enc.Nullifier(info))
    requires ImtChained(ok, e, at, from, batch, infos, to)
    ensures RootChain(c.nullifierOk, from, enc.NullifiersOf(infos), to)
    decreases |infos|
  {
    if infos != [] {
      var n, k := |infos| - 1, |batch| - Pow2(e);
      PassedChain(c, enc, ok, e, at, from, batch[..k], infos[..n], infos[n].oldRoot);
      RootChainSnoc(c.nullifierOk, from, enc.NullifiersOf(infos[..n]), enc.Nullifier(infos[n]));
    }
  }

  // ----- Over a tree of proofs

  /** The historic roots the transactions name are members of the historic-root tree. */
  ghost predicate MembershipsOk(c: Circuit, p: Proof)
    requires Alternating(p)
  {
    if p.Base? then HalfMember(c, p.first) && HalfMember(c, p.second)
    else MembershipsOk(c, p.left) && MembershipsOk(c, p.right)
  }

  ghost predicate HalfMember(c: Circuit, b: BaseHalf)
    requires HalfShape(b)
  {
    forall k | 0 <= k < 2 :: FoldPath(c.treeHash, b.leafRoots[k], b.paths[k]) == b.roots[k]
  }

  ghost predicate AllOk(ok: Insertion -> bool, s: seq<Insertion>) {
    forall k | 0 <= k < |s| :: ok(s[k])
  }

  lemma {:induction false} RootChainOk(ok: Insertion -> bool, from: Fr, s: seq<Insertion>, to: Fr)
    requires RootChain(ok, from, s, to)
    ensures AllOk(ok, s)
    decreases |s|
  {
    if s != [] {
      RootChainOk(ok, s[0].newRoot, s[1..], to);
      forall k | 0 <= k < |s| ensures ok(s[k]) {
        if k > 0 { assert s[1..][k - 1] == s[k]; }
      }
    }
  }

  lemma {:induction false} AllOkSplit(ok: Insertion -> bool, a: seq<Insertion>, b: seq<Insertion>)
    requires AllOk(ok, a + b)
    ensures AllOk(ok, a) && AllOk(ok, b)
  {
    assert forall k | 0 <= k < |a| :: (a + b)[k] == a[k];
    forall k | 0 <= k < |b| ensures ok(b[k]) { assert (a + b)[|a| + k] == b[k]; }
  }

  lemma {:induction false} HalvesOkOf(c: Circuit, p: Proof)
    requires Alternating(p) && MembershipsOk(c, p)
    requires AllOk(c.commitmentOk, Commitments(p)) && AllOk(c.nullifierOk, Nullifiers(p))
    ensures HalvesOk(c, p)
    decreases p
  {
    if p.Base? {
      assert Commitments(p)[0] == p.first.commitment && Commitments(p)[1] == p.second.commitment;
      assert Nullifiers(p)[0] == p.first.nullifier && Nullifiers(p)[1] == p.second.nullifier;
    } else {
      AllOkSplit(c.commitmentOk, Commitments(p.left), Commitments(p.right));
      AllOkSplit(c.nullifierOk, Nullifiers(p.left), Nullifiers(p.right));
      HalvesOkOf(c, p.left);
      HalvesOkOf(c, p.right);
    }
  }

  /** The other way round, every historic root named in an accepted tree of proofs is a member, and every
      insertion in it passes its gadget. */
  lemma {:induction false} AcceptedMembers(c: Circuit, p: Proof)
    requires c.Valid() && Alternating(p) && Output(c, p).Some?
    ensures MembershipsOk(c, p) && AllOk(c.commitmentOk, Commitments(p)) && AllOk(c.nullifierOk, Nullifiers(p))
    decreases p
  {
    RootsChained(c, p);
    var o := Output(c, p).value;
    RootChainOk(c.commitmentOk, o[0], Commitments(p), o[1]);
    RootChainOk(c.nullifierOk, o[2], Nullifiers(p), o[3]);
    if !p.Base? {
      AcceptedMembers(c, p.left);
      AcceptedMembers(c, p.right);
    }
  }

  /** A tree of proofs whose insertions form two chains is accepted, with the ends of the chains as
      its roots. */
  lemma {:induction false} ChainsAccepted(c: Circuit, p: Proof, commitments: (Fr, Fr), nullifiers: (Fr, Fr))
    requires c.Valid() && Alternating(p) && MembershipsOk(c, p)
    requires RootChain(c.commitmentOk, commitments.0, Commitments(p), commitments.1)
    requires RootChain(c.nullifierOk, nullifiers.0, Nullifiers(p), nullifiers.1)
    ensures Output(c, p).Some?
    ensures var o := Output(c, p).value; (o[0], o[1]) == commitments && (o[2], o[3]) == nullifiers
  {
    AcceptedExactly(c, p);
    RootChainOk(c.commitmentOk, commitments.0, Commitments(p), commitments.1);
    RootChainOk(c.nullifierOk, nullifiers.0, Nullifiers(p), nullifiers.1);
    HalvesOkOf(c, p);
    RootChainEnds(c.commitmentOk, commitments.0, Commitments(p), commitments.1);
    RootChainEnds(c.nullifierOk, nullifiers.0, Nullifiers(p), nullifiers.1);
    OutputEnds(c, p);
  }

  /** A block of these records, ready for the decider: any tree of proofs over them, in any shape
      the merges allow, with whatever transactions. */
  ghost predicate Ready(c: Circuit, enc: Encoding, sh: Shape, l: Proof, r: Proof,
                        cs: seq<CircuitInsertionInfo>, ns: seq<ImtInsertionInfo>) {
    && c.Valid() && c.treeHash == sh.h && AcceptsRecords(c, enc, sh) && AcceptsWitnesses(c, enc, sh)
    && Alternating(Bn254(l, r)) && MembershipsOk(c, Bn254(l, r))
    && Commitments(Bn254(l, r)) == enc.CommitmentsOf(cs) && Nullifiers(Bn254(l, r)) == enc.NullifiersOf(ns)
  }

  /** The decider accepts, and what it makes public are these roots, and the historic-root tree with
      the new commitment root in it. */
  ghost predicate Settles(c: Circuit, l: Proof, r: Proof, path: seq<PathElement>, historic: (Fr, Fr),
                          commitments: (Fr, Fr), nullifiers: (Fr, Fr))
    requires c.Valid() && Alternating(Bn254(l, r))
  {
    && Output(c, l).Some? && Output(c, r).Some?
    && var d := Decider(c, Output(c, l).value, Output(c, r).value, path, historic.0);
       && d.Some? && (d.value[2], d.value[3]) == commitments && (d.value[4], d.value[5]) == nullifiers
       && (d.value[6], d.value[7]) == historic
  }

  /** The path leads from an empty leaf to the one root and from the new leaf to the other. */
  ghost predicate HistoricPath(h: (Fr, Fr) -> Fr, path: seq<PathElement>, leaf: Fr, historic: (Fr, Fr)) {
    FoldPath(h, 0, path) == historic.0 && FoldPath(h, leaf, path) == historic.1
  }

  /** Where the last merge would pass, the decider does. */
  lemma {:induction false} MergeSettles(c: Circuit, l: Proof, r: Proof, path: seq<PathElement>, historic: (Fr, Fr),
                                        commitments: (Fr, Fr), nullifiers: (Fr, Fr))
    requires c.Valid() && Alternating(Bn254(l, r)) && Output(c, Bn254(l, r)).Some?
    requires HistoricPath(c.treeHash, path, commitments.1, historic)
    requires var o := Output(c, Bn254(l, r)).value; (o[0], o[1]) == commitments && (o[2], o[3]) == nullifiers
    ensures Settles(c, l, r, path, historic, commitments, nullifiers)
  {
  }

  /** Any block proof over chained records and witnesses is accepted, with the ends of the chains. */
  lemma {:induction false} BlockAccepted(c: Circuit, enc: Encoding, sh: Shape, l: Proof, r: Proof,
                                         path: seq<PathElement>, historic: (Fr, Fr),
                                         cs: seq<CircuitInsertionInfo>, commitments: (Fr, Fr),
                                         at: nat, values: seq<Fr>, ns: seq<ImtInsertionInfo>, nullifiers: (Fr, Fr))
    requires Ready(c, enc, sh, l, r, cs, ns) && HistoricPath(sh.h, path, commitments.1, historic)
    requires Chained(sh.h, sh.commitments.0, sh.commitments.1, commitments.0, cs, commitments.1)
    requires ImtChained(sh.Checks(), sh.nullifiers.1, at, nullifiers.0, values, ns, nullifiers.1)
    ensures Settles(c, l, r, path, historic, commitments, nullifiers)
  {
    CommitmentChain(c, enc, sh, commitments.0, cs, commitments.1);
    NullifierChain(c, enc, sh, at, nullifiers.0, values, ns, nullifiers.1);
    ChainsAccepted(c, Bn254(l, r), commitments, nullifiers);
    MergeSettles(c, l, r, path, historic, commitments, nullifiers);
  }

  /** What the prover is given for a block. */
  datatype BlockData = BlockData(
    commitments: seq<CircuitInsertionInfo>,
    nullifiers: seq<ImtInsertionInfo>,
    historicProof: MembershipProof,
    newHistoricRoot: Fr)

  /** Every block proof over this is accepted and takes the first roots to the second. */
  ghost predicate EveryBlockSettles(sh: Shape, data: BlockData, historic: Fr, commitments: (Fr, Fr),
                                    nullifiers: (Fr, Fr)) {
    forall c: Circuit, enc: Encoding, l: Proof, r: Proof | Ready(c, enc, sh, l, r, data.commitments, data.nullifiers) ::
      Settles(c, l, r, data.historicProof.siblingPath, (historic, data.newHistoricRoot), commitments, nullifiers)
  }

  lemma {:induction false} ChainsSettle(sh: Shape, data: BlockData, historic: Fr, commitments: (Fr, Fr),
                                        at: nat, values: seq<Fr>, nullifiers: (Fr, Fr))
    requires HistoricPath(sh.h, data.historicProof.siblingPath, commitments.1, (historic, data.newHistoricRoot))
    requires Chained(sh.h, sh.commitments.0, sh.commitments.1, commitments.0, data.commitments, commitments.1)
    requires ImtChained(sh.Checks(), sh.nullifiers.1, at, nullifiers.0, values, data.nullifiers, nullifiers.1)
    ensures EveryBlockSettles(sh, data, historic, commitments, nullifiers)
  {
    forall c: Circuit, enc: Encoding, l: Proof, r: Proof | Ready(c, enc, sh, l, r, data.commitments, data.nullifiers)
      ensures Settles(c, l, r, data.historicProof.siblingPath, (historic, data.newHistoricRoot), commitments,
                      nullifiers)
    {
      BlockAccepted(c, enc, sh, l, r, data.historicProof.siblingPath, (historic, data.newHistoricRoot),
                    data.commitments, commitments, at, values, data.nullifiers, nullifiers);
    }
  }

  ghost predicate GoodTree(ct: MutableTree)
    reads ct
  {
    Sound(ct.h, ct.Db()) && Clean(ct.Db()) && UnusedZero(ct.Db())
  }

  /** Whole sub-trees with room for them, in a tree that gives proofs. */
  ghost predicate CommitmentsFit(db: TreeDb, leaves: seq<Fr>) {
    && |leaves| % db.meta.Capacity() == 0
    && (leaves == [] || (Used(db) + |leaves| <= Pow2(db.meta.Height()) && db.meta.Height() < 63))
  }

  /** What inserting commitments leaves behind: all of them after what was there or, where they do not
      fit, as many whole sub-trees as do, and none of a ragged batch. */
  ghost predicate Took(db: TreeDb, db': TreeDb, leaves: seq<Fr>) {
    && TookFirst(db, db', leaves)
    && Used(db') == if CommitmentsFit(db, leaves) then Used(db) + |leaves|
                    else if |leaves| % db.meta.Capacity() == 0 && db.meta.Height() < 63 then Pow2(db.meta.Height())
                    else Used(db)
  }

  /** Inserts a block's commitments: succeeds exactly for whole sub-trees with room in a tree that
      gives proofs, and the records chain the root before to the root after. */
  method InsertCommitments(ct: MutableTree, leaves: seq<Fr>) returns (r: Result<seq<CircuitInsertionInfo>>)
    requires GoodTree(ct)
    modifies ct
    ensures GoodTree(ct) && SameShape(ct.meta, old(ct.meta))
    ensures r.Ok? <==> CommitmentsFit(old(ct.Db()), leaves)
    ensures r.Err? ==> r.error == if |leaves| % old(ct.meta).Capacity() != 0 then IncorrectBatchSize else Panicked
    ensures Took(old(ct.Db()), ct.Db(), leaves)
    ensures r.Ok? ==> RecordsHold(r.value, old(ct.meta).subTreeCount, leaves)
    ensures r.Ok? ==> Chained(ct.h, ct.meta.treeHeight, ct.meta.subTreeHeight, old(ct.meta).root, r.value, ct.meta.root)
  {
    ghost var db := ct.Db();
    r := ct.BatchInsertWithCircuitInfo(leaves);
    if |leaves| % db.meta.Capacity() == 0 {
      RecordsChained(ct.h, db, leaves, ct.Db(), r);
    } else {
      UsedInRange(ct.h, db);
      TookNone(db, leaves);
    }
  }

  lemma {:induction false} RecordsChained(h: TreeHash, db: TreeDb, leaves: seq<Fr>, db': TreeDb,
                                          r: Result<seq<CircuitInsertionInfo>>)
    requires Sound(h, db) && Clean(db) && UnusedZero(db) && |leaves| % db.meta.Capacity() == 0
    requires (db', r) == BatchLoop(h, db, leaves, [])
    ensures Sound(h, db') && Clean(db') && UnusedZero(db') && SameShape(db'.meta, db.meta)
    ensures r.Ok? <==> CommitmentsFit(db, leaves)
    ensures r.Err? ==> r.error == Panicked
    ensures Took(db, db', leaves)
    ensures r.Ok? ==> RecordsHold(r.value, db.meta.subTreeCount, leaves)
    ensures r.Ok? ==> Chained(h, db.meta.treeHeight, db.meta.subTreeHeight, db.meta.root, r.value, db'.meta.root)
  {
    WholeChunks(|leaves|, db.meta.Capacity());
    UsedInRange(h, db);
    var db1, r1 := BatchChain(h, db, leaves, db.meta.root, db.meta.subTreeCount, [], []);
    assert [] + leaves == leaves;
  }

  ghost predicate SameShape(a: TreeMetadata, b: TreeMetadata) {
    a.treeHeight == b.treeHeight && a.subTreeHeight == b.subTreeHeight
  }

  /** Single leaves, and room for one more in a tree that gives proofs. */
  ghost predicate HistoryFits(meta: TreeMetadata) {
    meta.subTreeHeight == 0 && meta.subTreeCount < Pow2(meta.treeHeight) && meta.Height() < 63
  }

  /** Adds a commitment root to the historic-root tree in a dry run and reads the proof of its slot,
      which leads from the stored root to the root of the dry run. */
  method ProveHistoric(ht: MutableTree, root: Fr) returns (r: Result<(MembershipProof, Fr)>)
    requires GoodTree(ht)
    modifies ht
    ensures ht.meta == old(ht.meta) && ht.nodes == old(ht.nodes)
    ensures r.Ok? <==> HistoryFits(ht.meta)
    ensures r.Ok? ==> HistoricPath(ht.h, r.value.0.siblingPath, root, (ht.meta.root, r.value.1))
    ensures r.Ok? ==> r.value.0.leafIndex == ht.meta.subTreeCount && r.value.0.nodeValue == root
  {
    ghost var db := ht.Db();
    var count := ht.meta.subTreeCount;
    var updated := ht.AppendSubTrees([root], false);
    DryProof(ht.h, db, root, ht.Db(), updated);
    if updated.Err? { return Err(updated.error); }
    var proof := ht.GetMembershipProof(None, Some(count));
    CountIsFull(ht.h, db);
    if proof.Err? { return Err(proof.error); }
    r := Ok((proof.value, updated.value.0));
  }

  /** Makes a block: inserts its commitments, then its nullifiers, then tries the new commitment root
      in the historic-root tree. That succeeds exactly when both batches are whole sub-trees with
      room, the nullifiers are new and the historic-root tree has room; and then every block proof
      over what is handed out is accepted and takes the roots the trees held before to the roots they
      hold now. What was inserted before a failure stays. */
  method MakeBlock(ct: MutableTree, nt: IndexedTree, ht: MutableTree, commitments: seq<Fr>, nullifiers: seq<Fr>)
    returns (r: Result<BlockData>)
    requires GoodTree(ct) && nt.Valid() && GoodTree(ht) && ct.h == nt.tree.h == ht.h
    requires ct != nt.tree && ct != ht && ht != nt.tree
    modifies ct, nt, nt.tree, ht
    ensures r.Ok? <==> && CommitmentsFit(old(ct.Db()), commitments)
                       && NullifiersFit(old(nt.tree.Db()), old(nt.entries), nullifiers) && HistoryFits(old(ht.meta))
    ensures r.Ok? ==>
              EveryBlockSettles(ShapeOf(ct, nt), r.value, ht.meta.root,
                                (old(ct.meta).root, ct.meta.root), (old(nt.tree.meta).root, nt.tree.meta.root))
    ensures GoodTree(ct) && ht.meta == old(ht.meta) && ht.nodes == old(ht.nodes)
    ensures Took(old(ct.Db()), ct.Db(), commitments)
    ensures r.Ok? ==>
              && RecordsHold(r.value.commitments, old(ct.meta).subTreeCount, commitments)
              && StatedWitnesses(nt.tree.meta.Height(), r.value.nullifiers)
              && AllNullifiers(r.value.nullifiers) == nullifiers
              && r.value.historicProof.leafIndex == ht.meta.subTreeCount
              && r.value.historicProof.nodeValue == ct.meta.root
    ensures !CommitmentsFit(old(ct.Db()), commitments) ==>
              nt.tree.Db() == old(nt.tree.Db()) && nt.entries == old(nt.entries)
    ensures CommitmentsFit(old(ct.Db()), commitments) ==>
              NullifiersTried(nt.tree.h, nt.h3, old(nt.tree.Db()), old(nt.entries), nullifiers,
                              nt.tree.Db(), nt.entries)
  {
    ghost var root, ndb, es := ct.meta.root, nt.tree.Db(), nt.entries;
    var cs := InsertCommitments(ct, commitments);
    if cs.Err? { return Err(cs.error); }
    var ns := nt.BatchInsertNullifiers(nullifiers);
    if ns.Err? { return Err(ns.error); }
    var proof := ProveHistoric(ht, ct.meta.root);
    if proof.Err? { return Err(proof.error); }
    r := Ok(BlockData(cs.value, ns.value, proof.value.0, proof.value.1));
    ChainNamesAll(nt.tree.h, nt.h3, ndb, nullifiers, ns.value, nt.tree.meta.root);
    ChainsSettle(ShapeOf(ct, nt), r.value, ht.meta.root, (root, ct.meta.root), Used(ndb), nullifiers,
                 (ndb.meta.root, nt.tree.meta.root));
  }

  ghost predicate NullifiersFit(db: TreeDb, es: Entries, nullifiers: seq<Fr>) {
    nullifiers == [] || BatchFits(db, es, nullifiers)
  }

  /** What inserting a block's nullifiers leaves behind, all of them or part. */
  ghost predicate NullifiersTried(h: TreeHash, h3: LeafHash, db: TreeDb, es: Entries, nullifiers: seq<Fr>,
                                  db': TreeDb, es': Entries) {
    if NullifiersFit(db, es, nullifiers) then Inserted(h, h3, db, es, nullifiers, db', es')
    else exists k, db1, es1 :: BatchStopped(h, h3, db, es, nullifiers, k, db1, es1, db', es')
  }

  ghost function ShapeOf(ct: MutableTree, nt: IndexedTree): Shape
    reads ct, nt, nt.tree
  {
    Shape(nt.tree.h, nt.h3, (ct.meta.treeHeight, ct.meta.subTreeHeight),
      (nt.tree.meta.treeHeight, nt.tree.meta.subTreeHeight))
  }

  // ----- What an accepted block means for the nullifiers

  /** The witnesses of a block are for consecutive sub-trees from position `at` on. */
  ghost predicate Consecutive(ns: seq<ImtInsertionInfo>, at: nat, e: nat) {
    forall k | 0 <= k < |ns| :: ns[k].firstIndex == at + Shl(k, e)
  }

  ghost function AllNullifiers(ns: seq<ImtInsertionInfo>): seq<Fr> {
    if ns == [] then [] else AllNullifiers(ns[..|ns| - 1]) + ValuesOf(ns[|ns| - 1].pendingInserts)
  }

  /** The witnesses handed out for a batch hold it, in order. */
  lemma {:induction false} ChainNamesAll(h: TreeHash, h3: LeafHash, db: TreeDb, batch: seq<Fr>,
                                         infos: seq<ImtInsertionInfo>, to: Fr)
    requires TreeChained(h, h3, db, batch, infos, to)
    ensures AllNullifiers(infos) == batch
  {
    var ok := ImtChains.Checks(h, h3, db.meta.treeHeight, db.meta.subTreeHeight);
    forall first: nat, chunk, info | ok(first, chunk, info) ensures ValuesOf(info.pendingInserts) == chunk {
      WitnessNamesBatch(h, h3, db.meta.treeHeight, db.meta.subTreeHeight, first, chunk, info);
    }
    NamesAll(ok, db.meta.subTreeHeight, Used(db), db.meta.root, batch, infos, to);
  }

  lemma {:induction false} NamesAll(ok: Check, e: nat, at: nat, from: Fr, batch: seq<Fr>, infos: seq<ImtInsertionInfo>,
                                    to: Fr)
    requires forall first: nat, chunk, info | ok(first, chunk, info) :: ValuesOf(info.pendingInserts) == chunk
    requires ImtChained(ok, e, at, from, batch, infos, to)
    ensures AllNullifiers(infos) == batch
    decreases |infos|
  {
    if infos != [] {
      var last, n := infos[|infos| - 1], |batch| - Pow2(e);
      NamesAll(ok, e, at, from, batch[..n], infos[..|infos| - 1], last.oldRoot);
      assert batch == batch[..n] + batch[n..];
    }
  }

  lemma {:induction false} RootChainLast(ok: Insertion -> bool, from: Fr, s: seq<Insertion>, i: Insertion, to: Fr)
    requires RootChain(ok, from, s + [i], to)
    ensures RootChain(ok, from, s, i.oldRoot) && ok(i) && i.newRoot == to
    decreases |s|
  {
    assert (s + [i])[1..] == if s == [] then [] else s[1..] + [i];
    if s != [] { RootChainLast(ok, s[0].newRoot, s[1..], i, to); }
  }

  /** Insertions that a strict gadget accepts, one after another, are a chain of checked witnesses. */
  lemma {:induction false} StrictChain(c: Circuit, enc: Encoding, sh: Shape, at: nat, from: Fr,
                                       ns: seq<ImtInsertionInfo>, to: Fr)
    requires RefusesOthers(c, enc, sh) && Consecutive(ns, at, sh.nullifiers.1)
    requires RootChain(c.nullifierOk, from, enc.NullifiersOf(ns), to)
    ensures ImtChained(sh.Checks(), sh.nullifiers.1, at, from, AllNullifiers(ns), ns, to)
  {
    forall info | c.nullifierOk(enc.Nullifier(info)) ensures Names(sh.Checks(), sh.nullifiers.1, info) {
      assert Checked(sh, info);
      WitnessNamesBatch(sh.h, sh.h3, sh.nullifiers.0, sh.nullifiers.1, info.firstIndex, ValuesOf(info.pendingInserts),
                        info);
    }
    FailsOthers(c, enc, sh.Checks(), sh.nullifiers.1, at, from, ns, to);
  }

  /** A witness passes a check for the sub-tree it names. */
  ghost predicate Names(ok: Check, e: nat, info: ImtInsertionInfo) {
    ok(info.firstIndex, ValuesOf(info.pendingInserts), info) && |info.pendingInserts| == Pow2(e)
  }

  lemma {:induction false} FailsOthers(c: Circuit, enc: Encoding, ok: Check, e: nat, at: nat, from: Fr,
                                       ns: seq<ImtInsertionInfo>, to: Fr)
    requires forall info | c.nullifierOk(enc.Nullifier(info)) :: Names(ok, e, info)
    requires Consecutive(ns, at, e) && RootChain(c.nullifierOk, from, enc.NullifiersOf(ns), to)
    ensures ImtChained(ok, e, at, from, AllNullifiers(ns), ns, to)
    decreases |ns|
  {
    if ns != [] {
      var n := |ns| - 1;
      var before, last := ns[..n], ns[n];
      RootChainLast(c.nullifierOk, from, enc.NullifiersOf(before), enc.Nullifier(last), to);
      FailsOthers(c, enc, ok, e, at, from, before, last.oldRoot);
      ImtChainLength(ok, e, at, from, AllNullifiers(before), before, last.oldRoot);
      assert Names(ok, e, last);
      ImtChainSnoc(ok, e, at, from, AllNullifiers(before), before, ValuesOf(last.pendingInserts), last);
      assert before + [last] == ns;
    }
  }

  /** A block that is accepted, by a nullifier gadget that refuses all but checked witnesses, from the
      root of a valid tree: none of its nullifiers is in the tree already or comes twice, and the new
      nullifier root is that of the tree with all of them in it. */
  lemma {:induction false} BlockSound(c: Circuit, enc: Encoding, sh: Shape, l: Proof, r: Proof,
                                      path: seq<PathElement>, historic: Fr, ns: seq<ImtInsertionInfo>,
                                      db: TreeDb, es: Entries)
    requires c.Valid() && Alternating(Bn254(l, r)) && RefusesOthers(c, enc, sh) && IsTree(sh.h, sh.h3, db, es)
    requires Output(c, l).Some? && Output(c, r).Some?
    requires Decider(c, Output(c, l).value, Output(c, r).value, path, historic).Some?
    requires Nullifiers(Bn254(l, r)) == enc.NullifiersOf(ns) && Consecutive(ns, Used(db), sh.nullifiers.1)
    requires sh.nullifiers == (db.meta.treeHeight, db.meta.subTreeHeight)
    requires Decider(c, Output(c, l).value, Output(c, r).value, path, historic).value[4] == db.meta.root
    ensures InsertsTo(sh.h, sh.h3, db, es, AllNullifiers(ns),
                      Decider(c, Output(c, l).value, Output(c, r).value, path, historic).value[5])
  {
    var o := Decider(c, Output(c, l).value, Output(c, r).value, path, historic).value;
    RootsChained(c, Bn254(l, r));
    StrictChain(c, enc, sh, Used(db), db.meta.root, ns, o[5]);
    ChainSound(sh.h, sh.h3, db, es, AllNullifiers(ns), ns, o[5]);
  }
}
