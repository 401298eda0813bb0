/** The witnesses of a batch of nullifier insertions, one after another. */
module ImtChains {
  import opened Basics
  import opened MutableSpec
  import opened LinkedLeaves
  import opened ImtWitness

  /** A check of a witness for a batch at a position. */
  type Check = (nat, seq<Fr>, ImtInsertionInfo) -> bool

  ghost function Checks(h: TreeHash, h3: LeafHash, d: nat, e: nat): Check {
    (first: nat, batch: seq<Fr>, info: ImtInsertionInfo) => CheckedWitness(h, h3, d, e, first, batch, info)
  }

  /** The witnesses of a batch of sub-trees of height `e`: one for each sub-tree in order, each of
      them checked and each starting where the one before it ended. */
  ghost predicate ImtChained(ok: Check, e: nat, at: nat, from: Fr, batch: seq<Fr>, infos: seq<ImtInsertionInfo>, to: Fr)
    decreases |infos|
  {
    if infos == [] then batch == [] && from == to
    else
      var last, n := infos[|infos| - 1], |batch| - Pow2(e);
      && n >= 0 && ok(at + n, batch[n..], last) && last.circuitInfo.newRoot == to
      && ImtChained(ok, e, at, from, batch[..n], infos[..|infos| - 1], last.oldRoot)
  }

  lemma {:induction false} ImtChainSnoc(ok: Check, e: nat, at: nat, from: Fr, batch: seq<Fr>,
                                        infos: seq<ImtInsertionInfo>, chunk: seq<Fr>, info: ImtInsertionInfo)
    requires ImtChained(ok, e, at, from, batch, infos, info.oldRoot)
    requires |chunk| == Pow2(e) && ok(at + |batch|, chunk, info)
    ensures ImtChained(ok, e, at, from, batch + chunk, infos + [info], info.circuitInfo.newRoot)
  {
    assert (infos + [info])[|infos|] == info && (infos + [info])[..|infos|] == infos;
    assert (batch + chunk)[..|batch|] == batch && (batch + chunk)[|batch|..] == chunk;
  }

  /** A chain has one witness for each sub-tree. */
  lemma {:induction false} ImtChainLength(ok: Check, e: nat, at: nat, from: Fr, batch: seq<Fr>,
                                          infos: seq<ImtInsertionInfo>, to: Fr)
    requires ImtChained(ok, e, at, from, batch, infos, to)
    ensures |batch| == Shl(|infos|, e)
    decreases |infos|
  {
    if infos == [] {
      ShlOne(e);
    } else {
      var last, n := infos[|infos| - 1], |batch| - Pow2(e);
      ImtChainLength(ok, e, at, from, batch[..n], infos[..|infos| - 1], last.oldRoot);
      NextBlock(|infos| - 1, e);
    }
  }

  /** A valid witness for the next sub-tree carries the chain on. */
  lemma {:induction false} ChainGrows(h: TreeHash, h3: LeafHash, db: TreeDb, done: seq<Fr>,
                                      infos: seq<ImtInsertionInfo>,
                                      chunk: seq<Fr>, info: ImtInsertionInfo, db1: TreeDb, db2: TreeDb, es2: Entries)
    requires TreeChained(h, h3, db, done, infos, db1.meta.root) && StatedWitnesses(db.meta.Height(), infos)
    requires db1.meta.treeHeight == db.meta.treeHeight && db1.meta.subTreeHeight == db.meta.subTreeHeight
    requires Used(db1) == Used(db) + |done| && |chunk| == db.meta.Capacity()
    requires ValidWitness(h, h3, db1, chunk, db2, es2, info)
    ensures TreeChained(h, h3, db, done + chunk, infos + [info], db2.meta.root)
    ensures StatedWitnesses(db.meta.Height(), infos + [info])
  {
    ImtChainSnoc(Checks(h, h3, db.meta.treeHeight, db.meta.subTreeHeight), db.meta.subTreeHeight, Used(db),
                 db.meta.root, done, infos, chunk, info);
  }

  /** A chain of checked witnesses from the root and the next free position of a tree. */
  ghost predicate TreeChained(h: TreeHash, h3: LeafHash, db: TreeDb, batch: seq<Fr>, infos: seq<ImtInsertionInfo>,
                              to: Fr) {
    ImtChained(Checks(h, h3, db.meta.treeHeight, db.meta.subTreeHeight), db.meta.subTreeHeight, Used(db), db.meta.root,
               batch, infos, to)
  }
}
