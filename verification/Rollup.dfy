/** The checks of the recursive rollup circuits, read as equations over their public inputs, and
    what an accepted tree of them says about the whole block. */
module Rollup {
  import opened Basics
  import opened Fold

  /** An insertion record as the base circuit sees it; the gadgets that check its variables are
      not modelled. */
  datatype Insertion = Insertion(oldRoot: Fr, newRoot: Fr, vars: seq<Fr>)

  /** One client pair: two historic-root memberships, a commitment and a nullifier insertion. */
  datatype BaseHalf = BaseHalf(
    leafRoots: seq<Fr>,
    paths: seq<seq<PathElement>>,
    roots: seq<Fr>,
    commitment: Insertion,
    nullifier: Insertion)

  /** The gadgets and fields the circuits are built from. */
  datatype Circuit = Circuit(
    treeHash: (Fr, Fr) -> Fr,
    commitmentOk: Insertion -> bool,
    nullifierOk: Insertion -> bool,
    sha: (Fr, Fr) -> Fr,
    txHash: (seq<Fr>, bool) -> Fr,
    fr: nat,   // order of the scalar field of BN254
    fq: nat)   // order of its base field
  {
    predicate Valid() { fr > 0 && fq > 0 }
  }

  const FIELDS_PER_TX: nat := 15

  // ----- The base circuit

  predicate HalfShape(b: BaseHalf) {
    |b.leafRoots| == |b.paths| == |b.roots| == 2
  }

  ghost predicate HalfOk(c: Circuit, b: BaseHalf)
    requires HalfShape(b)
  {
    && (forall k | 0 <= k < 2 :: FoldPath(c.treeHash, b.leafRoots[k], b.paths[k]) == b.roots[k])
    && c.commitmentOk(b.commitment) && c.nullifierOk(b.nullifier)
  }

  /** Checks both halves, collecting their roots, and chains the first to the second. */
  method BaseExtraChecks(c: Circuit, first: BaseHalf, second: BaseHalf) returns (r: Option<seq<Fr>>)
    requires HalfShape(first) && HalfShape(second)
    ensures r.Some? <==> && HalfOk(c, first) && HalfOk(c, second)
                         && first.commitment.newRoot == second.commitment.oldRoot
                         && first.nullifier.newRoot == second.nullifier.oldRoot
    ensures r.Some? ==>
              r.value == [first.commitment.oldRoot, second.commitment.newRoot,
                          first.nullifier.oldRoot, second.nullifier.newRoot]
  {
    var halves := [first, second];
    var startComm: seq<Fr>, endComm: seq<Fr>, startNull: seq<Fr>, endNull: seq<Fr> := [], [], [], [];
    for i := 0 to 2
      invariant |startComm| == |endComm| == |startNull| == |endNull| == i
      invariant forall j | 0 <= j < i :: && HalfOk(c, halves[j])
                                         && startComm[j] == halves[j].commitment.oldRoot
                                         && endComm[j] == halves[j].commitment.newRoot
                                         && startNull[j] == halves[j].nullifier.oldRoot
                                         && endNull[j] == halves[j].nullifier.newRoot
    {
      var b := halves[i];
      for k := 0 to 2
        invariant forall j | 0 <= j < k :: FoldPath(c.treeHash, b.leafRoots[j], b.paths[j]) == b.roots[j]
      {
        if FoldPath(c.treeHash, b.leafRoots[k], b.paths[k]) != b.roots[k] {
          assert !HalfOk(c, halves[i]);
          return None;
        }
      }
      if !c.commitmentOk(b.commitment) || !c.nullifierOk(b.nullifier) {
        assert !HalfOk(c, halves[i]);
        return None;
      }
      startComm, endComm := startComm + [b.commitment.oldRoot], endComm + [b.commitment.newRoot];
      startNull, endNull := startNull + [b.nullifier.oldRoot], endNull + [b.nullifier.newRoot];
    }
    assert HalfOk(c, halves[0]) && HalfOk(c, halves[1]);
    if startComm[1] != endComm[0] || startNull[1] != endNull[0] { return None; }
    r := Some([startComm[0], endComm[1], startNull[0], endNull[1]]);
  }

  predicate TxShape(tx: seq<Fr>) {
    |tx| == FIELDS_PER_TX
  }

  function HashTx(c: Circuit, tx: seq<Fr>): Fr
    requires TxShape(tx)
  {
    c.txHash(tx[2..14], tx[14] == 1)
  }

  function Hashes(c: Circuit, txs: seq<seq<Fr>>): (s: seq<Fr>)
    requires forall k | 0 <= k < |txs| :: TxShape(txs[k])
    ensures |s| == |txs|
  {
    if txs == [] then [] else [HashTx(c, txs[0])] + Hashes(c, txs[1..])
  }

  function FeeSum(txs: seq<seq<Fr>>): nat
    requires forall k | 0 <= k < |txs| :: TxShape(txs[k])
  {
    if txs == [] then 0
    else
      assert TxShape(txs[0]);
      txs[0][0] + FeeSum(txs[1..])
  }

  /** Sums the fees in the field and hashes the four transactions pairwise, twice. */
  method BaseChecks(c: Circuit, txs: seq<seq<Fr>>) returns (fee: Fr, hash: Fr)
    requires c.Valid() && |txs| == 4 && forall k | 0 <= k < |txs| :: TxShape(txs[k])
    ensures fee == FeeSum(txs) % c.fr
    ensures hash == SubRoot(c.sha, Hashes(c, txs), 2, 0)
  {
    fee := 0;
    for i := 0 to 4
      invariant fee == FeeSum(txs[..i]) % c.fr
    {
      FeeSumSnoc(txs[..i], txs[i]);
      ModAdd(FeeSum(txs[..i]), txs[i][0], c.fr);
      assert txs[..i + 1] == txs[..i] + [txs[i]];
      fee := (fee + txs[i][0]) % c.fr;
    }
    assert txs[..4] == txs;
    var shas: seq<Fr> := [];
    for i := 0 to 4
      invariant shas == Hashes(c, txs[..i])
    {
      HashesAppend(c, txs[..i], [txs[i]]);
      assert txs[..i + 1] == txs[..i] + [txs[i]];
      assert Hashes(c, [txs[i]]) == [HashTx(c, txs[i])];
      shas := shas + [c.txHash(txs[i][2..14], txs[i][14] == 1)];
    }
    var second: seq<Fr> := [];
    for i := 0 to 2
      invariant |second| == i
      invariant forall j: nat | j < i :: second[j] == SubRoot(c.sha, shas, 1, j)
    {
      assert SubRoot(c.sha, shas, 1, i) == c.sha(SubRoot(c.sha, shas, 0, 2 * i), SubRoot(c.sha, shas, 0, 2 * i + 1));
      second := second + [c.sha(shas[2 * i], shas[2 * i + 1])];
    }
    hash := c.sha(second[0], second[1]);
  }

  lemma {:induction false} FeeSumSnoc(txs: seq<seq<Fr>>, tx: seq<Fr>)
    requires TxShape(tx) && forall k | 0 <= k < |txs| :: TxShape(txs[k])
    ensures FeeSum(txs + [tx]) == FeeSum(txs) + tx[0]
  {
    FeeSumAppend(txs, [tx]);
  }

  lemma {:induction false} FeeSumAppend(a: seq<seq<Fr>>, b: seq<seq<Fr>>)
    requires forall k | 0 <= k < |a| :: TxShape(a[k])
    requires forall k | 0 <= k < |b| :: TxShape(b[k])
    ensures FeeSum(a + b) == FeeSum(a) + FeeSum(b)
    decreases |a|
  {
    if a == [] {
      assert a + b == b;
    } else {
      assert (a + b)[1..] == a[1..] + b;
      FeeSumAppend(a[1..], b);
    }
  }

  lemma {:induction false} HashesAppend(c: Circuit, a: seq<seq<Fr>>, b: seq<seq<Fr>>)
    requires forall k | 0 <= k < |a| :: TxShape(a[k])
    requires forall k | 0 <= k < |b| :: TxShape(b[k])
    ensures Hashes(c, a + b) == Hashes(c, a) + Hashes(c, b)
    decreases |a|
  {
    if a == [] {
      assert a + b == b;
    } else {
      assert (a + b)[1..] == a[1..] + b;
      HashesAppend(c, a[1..], b);
    }
  }

  lemma {:induction false} ModAdd(a: nat, b: nat, m: nat)
    requires m > 0
    ensures ((a % m) + b) % m == (a + b) % m
  {
    EuclidSplit(a, m);
    ModShift(a % m + b, a / m, m);
  }

  // ----- Merging

  /** A merge over the base field: chains the roots, adds the fees, passes both hashes on. */
  function GrumpkinMerge(c: Circuit, a: seq<Fr>, b: seq<Fr>): Option<seq<Fr>>
    requires c.Valid() && |a| == |b| == 6
  {
    if a[1] == b[0] && a[3] == b[2] then
      Some([a[0], b[1], a[2], b[3], (a[4] + b[4]) % c.fq, a[5], b[5]])
    else None
  }

  /** A merge over the scalar field: chains the roots, adds the fees, folds four hashes. */
  function Bn254Merge(c: Circuit, a: seq<Fr>, b: seq<Fr>): Option<seq<Fr>>
    requires c.Valid() && |a| == |b| == 7
  {
    if a[1] == b[0] && a[3] == b[2] then
      Some([a[0], b[1], a[2], b[3], (a[4] + b[4]) % c.fr, c.sha(c.sha(a[5], a[6]), c.sha(b[5], b[6]))])
    else None
  }

  /** The last step: a scalar-field merge that also moves the historic-root tree on from an
      empty leaf to the block's final commitment root. */
  function Decider(c: Circuit, a: seq<Fr>, b: seq<Fr>, path: seq<PathElement>, historic: Fr): Option<seq<Fr>>
    requires c.Valid() && |a| == |b| == 7
  {
    if a[1] == b[0] && a[3] == b[2] && FoldPath(c.treeHash, 0, path) == historic then
      Some([(a[4] + b[4]) % c.fr, c.sha(c.sha(a[5], a[6]), c.sha(b[5], b[6])),
            a[0], b[1], a[2], b[3], historic, FoldPath(c.treeHash, b[1], path)])
    else None
  }

  // ----- Trees of proofs

  datatype Proof =
    | Base(first: BaseHalf, second: BaseHalf, txs: seq<seq<Fr>>)
    | Grumpkin(left: Proof, right: Proof)
    | Bn254(left: Proof, right: Proof)

  /** Base proofs and scalar-field merges feed base-field merges, and the other way round. */
  predicate Alternating(p: Proof) {
    match p
    case Base(first, second, txs) =>
      HalfShape(first) && HalfShape(second) && |txs| == 4 && forall k | 0 <= k < |txs| :: TxShape(txs[k])
    case Grumpkin(l, r) => Alternating(l) && Alternating(r) && !l.Grumpkin? && !r.Grumpkin?
    case Bn254(l, r) => Alternating(l) && Alternating(r) && l.Grumpkin? && r.Grumpkin?
  }

  /** The levels of pairwise hashing a proof stands for; both sides of a merge must match. */
  function Levels(p: Proof): nat {
    match p
    case Base(_, _, _) => 2
    case Grumpkin(l, _) => Levels(l) + 1
    case Bn254(l, _) => Levels(l) + 1
  }

  predicate Perfect(p: Proof) {
    p.Base? || (Perfect(p.left) && Perfect(p.right) && Levels(p.left) == Levels(p.right))
  }

  /** The public outputs of a proof, if every check in it passes. */
  ghost function Output(c: Circuit, p: Proof): (o: Option<seq<Fr>>)
    requires c.Valid() && Alternating(p)
    ensures o.Some? ==> |o.value| == if p.Grumpkin? then 7 else 6
  {
    match p
    case Base(first, second, txs) =>
      if && HalfOk(c, first) && HalfOk(c, second)
         && first.commitment.newRoot == second.commitment.oldRoot && first.nullifier.newRoot == second.nullifier.oldRoot
      then Some([first.commitment.oldRoot, second.commitment.newRoot, first.nullifier.oldRoot, second.nullifier.newRoot,
                 FeeSum(txs) % c.fr, SubRoot(c.sha, Hashes(c, txs), 2, 0)])
      else None
    case Grumpkin(l, r) =>
      var a, b := Output(c, l), Output(c, r);
      if a.None? || b.None? then None else GrumpkinMerge(c, a.value, b.value)
    case Bn254(l, r) =>
      var a, b := Output(c, l), Output(c, r);
      if a.None? || b.None? then None else Bn254Merge(c, a.value, b.value)
  }

  /** The whole base circuit computes the outputs of a base proof. */
  method BaseCircuit(c: Circuit, first: BaseHalf, second: BaseHalf, txs: seq<seq<Fr>>) returns (r: Option<seq<Fr>>)
    requires c.Valid() && Alternating(Base(first, second, txs))
    ensures r == Output(c, Base(first, second, txs))
  {
    var roots := BaseExtraChecks(c, first, second);
    var fee, hash := BaseChecks(c, txs);
    if roots.None? { return None; }
    var v := roots.value;
    r := Some([v[0], v[1], v[2], v[3], fee, hash]);
  }

  // ----- What is inside a tree of proofs, in order

  ghost function Txs(p: Proof): (s: seq<seq<Fr>>)
    requires Alternating(p)
    ensures forall k | 0 <= k < |s| :: TxShape(s[k])
  {
    if p.Base? then p.txs else Txs(p.left) + Txs(p.right)
  }

  ghost function Commitments(p: Proof): seq<Insertion> {
    if p.Base? then [p.first.commitment, p.second.commitment] else Commitments(p.left) + Commitments(p.right)
  }

  ghost function Nullifiers(p: Proof): seq<Insertion> {
    if p.Base? then [p.first.nullifier, p.second.nullifier] else Nullifiers(p.left) + Nullifiers(p.right)
  }

  /** Each insertion starts from the root the one before it ended at, and each passes `ok`. */
  ghost predicate RootChain(ok: Insertion -> bool, from: Fr, s: seq<Insertion>, to: Fr)
    decreases |s|
  {
    if s == [] then from == to
    else s[0].oldRoot == from && ok(s[0]) && RootChain(ok, s[0].newRoot, s[1..], to)
  }

  lemma {:induction false} RootChainAppend(ok: Insertion -> bool, from: Fr, s: seq<Insertion>, mid: Fr,
                                           t: seq<Insertion>, to: Fr)
    requires RootChain(ok, from, s, mid) && RootChain(ok, mid, t, to)
    ensures RootChain(ok, from, s + t, to)
    decreases |s|
  {
    if s == [] {
      assert s + t == t;
    } else {
      assert (s + t)[1..] == s[1..] + t;
      RootChainAppend(ok, s[0].newRoot, s[1..], mid, t, to);
    }
  }

  lemma {:induction false} RootsChained(c: Circuit, p: Proof)
    requires c.Valid() && Alternating(p) && Output(c, p).Some?
    ensures var o := Output(c, p).value;
            && RootChain(c.commitmentOk, o[0], Commitments(p), o[1])
            && RootChain(c.nullifierOk, o[2], Nullifiers(p), o[3])
    decreases p
  {
    if p.Base? {
      TwoChain(c.commitmentOk, p.first.commitment, p.second.commitment);
      TwoChain(c.nullifierOk, p.first.nullifier, p.second.nullifier);
    } else {
      RootsChained(c, p.left);
      RootsChained(c, p.right);
      var a, b := Output(c, p.left).value, Output(c, p.right).value;
      RootChainAppend(c.commitmentOk, a[0], Commitments(p.left), a[1], Commitments(p.right), b[1]);
      RootChainAppend(c.nullifierOk, a[2], Nullifiers(p.left), a[3], Nullifiers(p.right), b[3]);
    }
  }

  /** Neighbouring insertions meet. */
  ghost predicate Unbroken(s: seq<Insertion>) {
    forall k {:trigger s[k].newRoot} | 0 <= k < |s| - 1 :: s[k].newRoot == s[k + 1].oldRoot
  }

  ghost predicate HalvesOk(c: Circuit, p: Proof)
    requires Alternating(p)
  {
    if p.Base? then HalfOk(c, p.first) && HalfOk(c, p.second) else HalvesOk(c, p.left) && HalvesOk(c, p.right)
  }

  lemma {:induction false} RootChainEnds(ok: Insertion -> bool, from: Fr, s: seq<Insertion>, to: Fr)
    requires RootChain(ok, from, s, to) && s != []
    ensures s[0].oldRoot == from && s[|s| - 1].newRoot == to && Unbroken(s)
    decreases |s|
  {
    if |s| > 1 {
      RootChainEnds(ok, s[0].newRoot, s[1..], to);
      forall k | 0 <= k < |s| - 1 ensures s[k].newRoot == s[k + 1].oldRoot {
        if k > 0 { assert s[1..][k - 1].newRoot == s[1..][k].oldRoot; }
      }
    }
  }

  lemma {:induction false} UnbrokenSplit(a: seq<Insertion>, b: seq<Insertion>)
    requires a != [] && b != []
    ensures Unbroken(a + b) <==> Unbroken(a) && Unbroken(b) && a[|a| - 1].newRoot == b[0].oldRoot
  {
    var s := a + b;
    if Unbroken(s) {
      assert s[|a| - 1].newRoot == s[|a|].oldRoot;
      forall k | 0 <= k < |a| - 1 ensures a[k].newRoot == a[k + 1].oldRoot { assert s[k].newRoot == s[k + 1].oldRoot; }
      forall k | 0 <= k < |b| - 1
        ensures b[k].newRoot == b[k + 1].oldRoot { assert s[|a| + k].newRoot == s[|a| + k + 1].oldRoot; }
    } else {
      var k :| 0 <= k < |s| - 1 && s[k].newRoot != s[k + 1].oldRoot;
      if k < |a| - 1 { assert a[k].newRoot == s[k].newRoot; }
      if k >= |a| { assert b[k - |a|].newRoot == s[k].newRoot; }
    }
  }

  /** A tree of proofs is accepted exactly when every base half checks and neither sequence of
      insertions has a break in it. */
  lemma {:induction false} AcceptedExactly(c: Circuit, p: Proof)
    requires c.Valid() && Alternating(p)
    ensures Commitments(p) != [] && Nullifiers(p) != []
    ensures Output(c, p).Some? <==> HalvesOk(c, p) && Unbroken(Commitments(p)) && Unbroken(Nullifiers(p))
    decreases p
  {
    if p.Base? {
      var a, b := Commitments(p), Nullifiers(p);
      assert a[0].newRoot == p.first.commitment.newRoot && b[0].newRoot == p.first.nullifier.newRoot;
    } else {
      AcceptedExactly(c, p.left);
      AcceptedExactly(c, p.right);
      UnbrokenSplit(Commitments(p.left), Commitments(p.right));
      UnbrokenSplit(Nullifiers(p.left), Nullifiers(p.right));
      if Output(c, p.left).Some? && Output(c, p.right).Some? {
        OutputEnds(c, p.left);
        OutputEnds(c, p.right);
      }
    }
  }

  lemma {:induction false} OutputEnds(c: Circuit, p: Proof)
    requires c.Valid() && Alternating(p) && Output(c, p).Some? && Commitments(p) != [] && Nullifiers(p) != []
    ensures var o, cs, ns := Output(c, p).value, Commitments(p), Nullifiers(p);
            && o[0] == cs[0].oldRoot && o[1] == cs[|cs| - 1].newRoot
            && o[2] == ns[0].oldRoot && o[3] == ns[|ns| - 1].newRoot
  {
    RootsChained(c, p);
    var o := Output(c, p).value;
    RootChainEnds(c.commitmentOk, o[0], Commitments(p), o[1]);
    RootChainEnds(c.nullifierOk, o[2], Nullifiers(p), o[3]);
  }

  lemma {:induction false} TwoChain(ok: Insertion -> bool, a: Insertion, b: Insertion)
    requires ok(a) && ok(b) && a.newRoot == b.oldRoot
    ensures RootChain(ok, a.oldRoot, [a, b], b.newRoot)
  {
    assert [a, b][1..] == [b] && [b][1..] == [];
  }

  /** While the total stays below both field orders, the fee output is the integer sum. */
  lemma {:induction false} FeesAdded(c: Circuit, p: Proof)
    requires c.Valid() && Alternating(p) && Output(c, p).Some? && FeeSum(Txs(p)) < c.fr && FeeSum(Txs(p)) < c.fq
    ensures Output(c, p).value[4] == FeeSum(Txs(p))
    decreases p
  {
    if p.Base? {
      SmallMod(FeeSum(p.txs), c.fr);
    } else {
      FeeSumAppend(Txs(p.left), Txs(p.right));
      FeesAdded(c, p.left);
      FeesAdded(c, p.right);
      MergedFee(c, p, Output(c, p.left).value, Output(c, p.right).value, FeeSum(Txs(p)));
    }
  }

  /** In every step, whether or not the total fits, the fee is the sum of the fees below in that step's
      own field: that of the base field after a merge over it, of the scalar field otherwise. */
  lemma {:induction false} FeeInField(c: Circuit, p: Proof)
    requires c.Valid() && Alternating(p) && Output(c, p).Some?
    ensures var order := if p.Grumpkin? then c.fq else c.fr;
            && Output(c, p).value[4] < order
            && (p.Base? ==> SameIn(order, Output(c, p).value[4], FeeSum(p.txs)))
            && (!p.Base? ==>
                  SameIn(order, Output(c, p).value[4], Output(c, p.left).value[4] + Output(c, p.right).value[4]))
  {
    if p.Base? {
      EuclidSplit(FeeSum(p.txs), c.fr);
    } else {
      var sum := Output(c, p.left).value[4] + Output(c, p.right).value[4];
      EuclidSplit(sum, c.fr);
      EuclidSplit(sum, c.fq);
    }
  }

  /** Two numbers differ by a multiple of the order. */
  ghost predicate SameIn(order: nat, a: nat, b: nat) {
    exists k: int :: b == k * order + a
  }

  lemma {:induction false} DeciderFeeInField(c: Circuit, a: seq<Fr>, b: seq<Fr>, path: seq<PathElement>, historic: Fr)
    requires c.Valid() && |a| == |b| == 7 && Decider(c, a, b, path, historic).Some?
    ensures var fee := Decider(c, a, b, path, historic).value[0]; fee < c.fr && SameIn(c.fr, fee, a[4] + b[4])
  {
    EuclidSplit(a[4] + b[4], c.fr);
  }

  lemma {:induction false} MergedFee(c: Circuit, p: Proof, a: seq<Fr>, b: seq<Fr>, total: nat)
    requires c.Valid() && Alternating(p) && !p.Base? && Output(c, p).Some?
    requires Output(c, p.left) == Some(a) && Output(c, p.right) == Some(b)
    requires a[4] + b[4] == total && total < c.fr && total < c.fq
    ensures Output(c, p).value[4] == total
  {
    SmallMod(total, c.fr);
    SmallMod(total, c.fq);
  }

  lemma {:induction false} HashCount(c: Circuit, p: Proof)
    requires Alternating(p) && Perfect(p)
    ensures |Txs(p)| == Pow2(Levels(p))
    decreases p
  {
    if p.Base? {
      assert Pow2(2) == 4;
    } else {
      HashCount(c, p.left);
      HashCount(c, p.right);
    }
  }

  /** The two halves of a doubled sequence fold separately. */
  lemma {:induction false} HalvesFold(f: (Fr, Fr) -> Fr, a: seq<Fr>, b: seq<Fr>, level: nat)
    requires |a| == |b| == Pow2(level)
    ensures SubRoot(f, a + b, level, 0) == SubRoot(f, a, level, 0)
    ensures SubRoot(f, a + b, level, 1) == SubRoot(f, b, level, 0)
    ensures SubRoot(f, a + b, level + 1, 0) == f(SubRoot(f, a, level, 0), SubRoot(f, b, level, 0))
  {
    ShlOne(level);
    forall x: nat | x < Pow2(level) ensures BlockLeaf(a + b, level, 0, x) == BlockLeaf(a, level, 0, x) {}
    SubRootCong(f, level, a + b, 0, a, 0);
    forall x: nat | x < Pow2(level) ensures BlockLeaf(a + b, level, 1, x) == BlockLeaf(b, level, 0, x) {}
    SubRootCong(f, level, a + b, 1, b, 0);
  }

  /** The hash outputs are the balanced fold of the transaction hashes: one root after a base
      or scalar-field step, the two roots one level below after a base-field step. */
  ghost predicate HashOutputs(c: Circuit, p: Proof, o: seq<Fr>)
    requires Alternating(p) && |o| == if p.Grumpkin? then 7 else 6
  {
    var s := Hashes(c, Txs(p));
    if p.Grumpkin? then
      o[5] == SubRoot(c.sha, s, Levels(p) - 1, 0) && o[6] == SubRoot(c.sha, s, Levels(p) - 1, 1)
    else
      o[5] == SubRoot(c.sha, s, Levels(p), 0)
  }

  /** The root of the fold, from a proof's outputs. */
  function RootHash(c: Circuit, p: Proof, o: seq<Fr>): Fr
    requires |o| == if p.Grumpkin? then 7 else 6
  {
    if p.Grumpkin? then c.sha(o[5], o[6]) else o[5]
  }

  lemma {:induction false} RootHashIsFold(c: Circuit, p: Proof, o: seq<Fr>)
    requires Alternating(p) && |o| == (if p.Grumpkin? then 7 else 6) && HashOutputs(c, p, o)
    ensures RootHash(c, p, o) == SubRoot(c.sha, Hashes(c, Txs(p)), Levels(p), 0)
  {
  }

  lemma {:induction false} HashesFolded(c: Circuit, p: Proof)
    requires c.Valid() && Alternating(p) && Perfect(p) && Output(c, p).Some?
    ensures HashOutputs(c, p, Output(c, p).value)
    decreases p
  {
    if !p.Base? {
      var l, r := p.left, p.right;
      HashesFolded(c, l);
      HashesFolded(c, r);
      MergedHashes(c, p, Output(c, l).value, Output(c, r).value);
    }
  }

  /** What the hashes of the two sides of a merge fold to. */
  lemma {:induction false} MergedHashes(c: Circuit, p: Proof, a: seq<Fr>, b: seq<Fr>)
    requires !p.Base? && Alternating(p) && Perfect(p)
    requires |a| == (if p.left.Grumpkin? then 7 else 6) && |b| == (if p.right.Grumpkin? then 7 else 6)
    requires HashOutputs(c, p.left, a) && HashOutputs(c, p.right, b)
    ensures var s := Hashes(c, Txs(p));
            && SubRoot(c.sha, s, Levels(p) - 1, 0) == RootHash(c, p.left, a)
            && SubRoot(c.sha, s, Levels(p) - 1, 1) == RootHash(c, p.right, b)
            && SubRoot(c.sha, s, Levels(p), 0) == c.sha(RootHash(c, p.left, a), RootHash(c, p.right, b))
  {
    RootHashIsFold(c, p.left, a);
    RootHashIsFold(c, p.right, b);
    HashCount(c, p.left);
    HashCount(c, p.right);
    HashesAppend(c, Txs(p.left), Txs(p.right));
    HalvesFold(c.sha, Hashes(c, Txs(p.left)), Hashes(c, Txs(p.right)), Levels(p.left));
  }

  /** The outputs of an accepted scalar-field step over a perfect tree of any depth. */
  ghost predicate Settled(c: Circuit, p: Proof, fee: Fr, hash: Fr, commitments: (Fr, Fr), nullifiers: (Fr, Fr))
    requires Alternating(p)
  {
    && RootChain(c.commitmentOk, commitments.0, Commitments(p), commitments.1)
    && RootChain(c.nullifierOk, nullifiers.0, Nullifiers(p), nullifiers.1)
    && (FeeSum(Txs(p)) < c.fr && FeeSum(Txs(p)) < c.fq ==> fee == FeeSum(Txs(p)))
    && hash == SubRoot(c.sha, Hashes(c, Txs(p)), Levels(p), 0)
    && |Txs(p)| == Pow2(Levels(p))
  }

  lemma {:induction false} BlockSettled(c: Circuit, p: Proof)
    requires c.Valid() && Alternating(p) && Perfect(p) && p.Bn254? && Output(c, p).Some?
    ensures var o := Output(c, p).value; Settled(c, p, o[4], o[5], (o[0], o[1]), (o[2], o[3]))
  {
    RootsChained(c, p);
    HashesFolded(c, p);
    HashCount(c, p);
    if FeeSum(Txs(p)) < c.fr && FeeSum(Txs(p)) < c.fq { FeesAdded(c, p); }
  }

  // ----- Which fields the hash output binds

  /** Two transactions agree on what is hashed: fields 2 to 13, and whether field 14 is one. */
  ghost predicate SameHashed(a: seq<Fr>, b: seq<Fr>)
    requires TxShape(a) && TxShape(b)
  {
    (forall i | 2 <= i <= 13 :: a[i] == b[i]) && (a[14] == 1 <==> b[14] == 1)
  }

  ghost predicate AllSameHashed(a: seq<seq<Fr>>, b: seq<seq<Fr>>)
    requires |a| == |b|
    requires forall k | 0 <= k < |a| :: TxShape(a[k]) && TxShape(b[k])
  {
    forall k | 0 <= k < |a| :: SameHashed(a[k], b[k])
  }

  ghost predicate ShaApart(c: Circuit, u: Fr, v: Fr, x: Fr, y: Fr) {
    c.sha(u, v) == c.sha(x, y) ==> u == x && v == y
  }

  ghost predicate TxsApart(c: Circuit, s: seq<Fr>, f: bool, t: seq<Fr>, g: bool) {
    c.txHash(s, f) == c.txHash(t, g) ==> s == t && f == g
  }

  /** Neither of the two hashes has collisions. */
  ghost predicate NoCollisions(c: Circuit) {
    && (forall u, v, x, y {:trigger ShaApart(c, u, v, x, y)} :: ShaApart(c, u, v, x, y))
    && (forall s, f, t, g {:trigger TxsApart(c, s, f, t, g)} :: TxsApart(c, s, f, t, g))
  }

  /** The fields in the order in which they are hashed. */
  lemma {:induction false} TxHashIs(c: Circuit, tx: seq<Fr>)
    requires TxShape(tx)
    ensures HashTx(c, tx) == c.txHash([tx[2], tx[3], tx[4], tx[5], tx[6], tx[7],
                                       tx[8], tx[9], tx[10], tx[11], tx[12], tx[13]], tx[14] == 1)
  {
    assert tx[2..14] == [tx[2], tx[3], tx[4], tx[5], tx[6], tx[7], tx[8], tx[9], tx[10], tx[11], tx[12], tx[13]];
  }

  /** A transaction's hash depends on exactly those fields. */
  lemma {:induction false} TxBinds(c: Circuit, a: seq<Fr>, b: seq<Fr>)
    requires TxShape(a) && TxShape(b)
    ensures SameHashed(a, b) ==> HashTx(c, a) == HashTx(c, b)
    ensures NoCollisions(c) && HashTx(c, a) == HashTx(c, b) ==> SameHashed(a, b)
  {
    var s, t := a[2..14], b[2..14];
    if SameHashed(a, b) { assert s == t; }
    if NoCollisions(c) && HashTx(c, a) == HashTx(c, b) {
      assert TxsApart(c, s, a[14] == 1, t, b[14] == 1);
      forall i | 2 <= i <= 13 ensures a[i] == b[i] { assert s[i - 2] == a[i] && t[i - 2] == b[i]; }
    }
  }

  lemma {:induction false} HashesBind(c: Circuit, a: seq<seq<Fr>>, b: seq<seq<Fr>>)
    requires |a| == |b|
    requires forall k | 0 <= k < |a| :: TxShape(a[k]) && TxShape(b[k])
    ensures AllSameHashed(a, b) ==> Hashes(c, a) == Hashes(c, b)
    ensures NoCollisions(c) && Hashes(c, a) == Hashes(c, b) ==> AllSameHashed(a, b)
    decreases |a|
  {
    if a != [] {
      var s, t := Hashes(c, a), Hashes(c, b);
      TxBinds(c, a[0], b[0]);
      HashesBind(c, a[1..], b[1..]);
      assert s[0] == HashTx(c, a[0]) && s[1..] == Hashes(c, a[1..]);
      assert t[0] == HashTx(c, b[0]) && t[1..] == Hashes(c, b[1..]);
      if AllSameHashed(a, b) {
        assert SameHashed(a[0], b[0]);
        forall k | 0 <= k < |a[1..]| ensures SameHashed(a[1..][k], b[1..][k]) {
          assert SameHashed(a[k + 1], b[k + 1]);
        }
      }
      if NoCollisions(c) && s == t {
        forall k | 0 <= k < |a| ensures SameHashed(a[k], b[k]) {
          if k > 0 { assert SameHashed(a[1..][k - 1], b[1..][k - 1]); }
        }
      }
    }
  }

  /** Without collisions a balanced fold has one set of leaves. */
  lemma {:induction false} FoldBinds(c: Circuit, s: seq<Fr>, t: seq<Fr>, level: nat)
    requires NoCollisions(c) && |s| == |t| == Pow2(level)
    requires SubRoot(c.sha, s, level, 0) == SubRoot(c.sha, t, level, 0)
    ensures s == t
    decreases level
  {
    if level == 0 {
      assert s == [s[0]] && t == [t[0]];
    } else {
      var n := Pow2(level - 1);
      var a, b, x, y := s[..n], s[n..], t[..n], t[n..];
      assert s == a + b && t == x + y;
      HalvesBind(c, a, b, x, y, level - 1);
      FoldBinds(c, a, x, level - 1);
      FoldBinds(c, b, y, level - 1);
    }
  }

  lemma {:induction false} HalvesBind(c: Circuit, a: seq<Fr>, b: seq<Fr>, x: seq<Fr>, y: seq<Fr>, level: nat)
    requires NoCollisions(c) && |a| == |b| == |x| == |y| == Pow2(level)
    requires SubRoot(c.sha, a + b, level + 1, 0) == SubRoot(c.sha, x + y, level + 1, 0)
    ensures SubRoot(c.sha, a, level, 0) == SubRoot(c.sha, x, level, 0)
    ensures SubRoot(c.sha, b, level, 0) == SubRoot(c.sha, y, level, 0)
  {
    HalvesFold(c.sha, a, b, level);
    HalvesFold(c.sha, x, y, level);
    assert ShaApart(c, SubRoot(c.sha, a, level, 0), SubRoot(c.sha, b, level, 0),
                    SubRoot(c.sha, x, level, 0), SubRoot(c.sha, y, level, 0));
  }

  /** The hash of a number of transactions, as the circuits compute it, depends on exactly those fields
      of each of them. */
  lemma {:induction false} FoldedHashBinds(c: Circuit, a: seq<seq<Fr>>, b: seq<seq<Fr>>, level: nat)
    requires |a| == |b| == Pow2(level)
    requires forall k | 0 <= k < |a| :: TxShape(a[k]) && TxShape(b[k])
    ensures AllSameHashed(a, b) ==>
              SubRoot(c.sha, Hashes(c, a), level, 0) == SubRoot(c.sha, Hashes(c, b), level, 0)
    ensures NoCollisions(c) && SubRoot(c.sha, Hashes(c, a), level, 0) == SubRoot(c.sha, Hashes(c, b), level, 0) ==>
              AllSameHashed(a, b)
  {
    HashesBind(c, a, b);
    if NoCollisions(c) && SubRoot(c.sha, Hashes(c, a), level, 0) == SubRoot(c.sha, Hashes(c, b), level, 0) {
      FoldBinds(c, Hashes(c, a), Hashes(c, b), level);
    }
  }

  /** Four transactions through the base checks, twice: equal hashes for transactions that agree on the
      hashed fields and, without collisions, for no others. */
  method BaseChecksBind(c: Circuit, a: seq<seq<Fr>>, b: seq<seq<Fr>>) returns (x: Fr, y: Fr)
    requires c.Valid() && |a| == |b| == 4
    requires forall k | 0 <= k < 4 :: TxShape(a[k]) && TxShape(b[k])
    ensures AllSameHashed(a, b) ==> x == y
    ensures NoCollisions(c) && x == y ==> AllSameHashed(a, b)
  {
    var feeA, feeB;
    feeA, x := BaseChecks(c, a);
    feeB, y := BaseChecks(c, b);
    assert Pow2(2) == 4;
    FoldedHashBinds(c, a, b, 2);
  }

  /** Two accepted blocks of the same depth have the same hash output if their transactions agree on the
      hashed fields and, without collisions, only then. */
  lemma {:induction false} DeciderBinds(c: Circuit, l: Proof, r: Proof, path: seq<PathElement>, historic: Fr,
                                        l': Proof, r': Proof, path': seq<PathElement>, historic': Fr)
    requires c.Valid() && Levels(Bn254(l, r)) == Levels(Bn254(l', r'))
    requires Alternating(Bn254(l, r)) && Perfect(Bn254(l, r)) && Output(c, l).Some? && Output(c, r).Some?
    requires Alternating(Bn254(l', r')) && Perfect(Bn254(l', r')) && Output(c, l').Some? && Output(c, r').Some?
    requires Decider(c, Output(c, l).value, Output(c, r).value, path, historic).Some?
    requires Decider(c, Output(c, l').value, Output(c, r').value, path', historic').Some?
    ensures |Txs(Bn254(l, r))| == |Txs(Bn254(l', r'))|
    ensures var hash := Decider(c, Output(c, l).value, Output(c, r).value, path, historic).value[1];
            var hash' := Decider(c, Output(c, l').value, Output(c, r').value, path', historic').value[1];
            && (AllSameHashed(Txs(Bn254(l, r)), Txs(Bn254(l', r'))) ==> hash == hash')
            && (NoCollisions(c) && hash == hash' ==> AllSameHashed(Txs(Bn254(l, r)), Txs(Bn254(l', r'))))
  {
    DeciderSound(c, l, r, path, historic);
    DeciderSound(c, l', r', path', historic');
    FoldedHashBinds(c, Txs(Bn254(l, r)), Txs(Bn254(l', r')), Levels(Bn254(l, r)));
  }

  /** Numbers in a row: a hash of them without collisions. */
  function Row(s: seq<Fr>): nat {
    if s == [] then 0 else 1 + Pairing(s[0], Row(s[1..]))
  }

  lemma {:induction false} RowInjective(s: seq<Fr>, t: seq<Fr>)
    requires Row(s) == Row(t)
    ensures s == t
    decreases |s|
  {
    if s != [] && t != [] {
      PairingInjective(s[0], Row(s[1..]), t[0], Row(t[1..]));
      RowInjective(s[1..], t[1..]);
      assert s == [s[0]] + s[1..] && t == [t[0]] + t[1..];
    }
  }

  /** There are such hashes, whatever the rest of the circuit. */
  lemma {:induction false} CircuitExists(c: Circuit) returns (c': Circuit)
    ensures NoCollisions(c') && c' == c.(sha := c'.sha, txHash := c'.txHash)
  {
    c' := c.(sha := (a, b) => Pairing(a, b), txHash := (s, f) => Pairing(if f then 1 else 0, Row(s)));
    forall u, v, x, y ensures ShaApart(c', u, v, x, y) {
      if c'.sha(u, v) == c'.sha(x, y) { PairingInjective(u, v, x, y); }
    }
    forall s, f, t, g ensures TxsApart(c', s, f, t, g) {
      if c'.txHash(s, f) == c'.txHash(t, g) {
        PairingInjective(if f then 1 else 0, Row(s), if g then 1 else 0, Row(t));
        RowInjective(s, t);
      }
    }
  }

  /** An accepted decider over a perfect tree of any depth: one unbroken chain of commitment
      roots and one of nullifier roots, through every insertion in order and each of them
      checked; the fee output is the sum of all fees; the hash output is the balanced fold of
      all transaction hashes; and the historic-root tree moved from an empty leaf to the final
      commitment root. */
  lemma {:induction false} DeciderSound(c: Circuit, l: Proof, r: Proof, path: seq<PathElement>, historic: Fr)
    requires c.Valid() && Alternating(Bn254(l, r)) && Perfect(Bn254(l, r))
    requires Output(c, l).Some? && Output(c, r).Some?
    requires Decider(c, Output(c, l).value, Output(c, r).value, path, historic).Some?
    ensures var o := Decider(c, Output(c, l).value, Output(c, r).value, path, historic).value;
            && Settled(c, Bn254(l, r), o[0], o[1], (o[2], o[3]), (o[4], o[5]))
            && o[6] == FoldPath(c.treeHash, 0, path) && o[7] == FoldPath(c.treeHash, o[3], path)
  {
    BlockSettled(c, Bn254(l, r));
  }

  /** Fees of at most `bound` each cannot wrap in a block small enough for both fields: then an
      accepted decider's fee output is their sum outright. */
  lemma {:induction false} DeciderFees(c: Circuit, l: Proof, r: Proof, path: seq<PathElement>, historic: Fr, bound: nat)
    requires c.Valid() && Alternating(Bn254(l, r)) && Perfect(Bn254(l, r))
    requires Output(c, l).Some? && Output(c, r).Some?
    requires Decider(c, Output(c, l).value, Output(c, r).value, path, historic).Some?
    requires forall k | 0 <= k < |Txs(Bn254(l, r))| :: TxShape(Txs(Bn254(l, r))[k]) && Txs(Bn254(l, r))[k][0] < bound
    requires Pow2(Levels(Bn254(l, r))) * bound <= c.fr && Pow2(Levels(Bn254(l, r))) * bound <= c.fq
    ensures Decider(c, Output(c, l).value, Output(c, r).value, path, historic).value[0] == FeeSum(Txs(Bn254(l, r)))
  {
    DeciderSound(c, l, r, path, historic);
    FeesBelow(Txs(Bn254(l, r)), bound);
  }

  /** Bounded fees have a bounded sum. */
  lemma {:induction false} FeesBelow(txs: seq<seq<Fr>>, bound: nat)
    requires forall k | 0 <= k < |txs| :: TxShape(txs[k]) && txs[k][0] < bound
    ensures txs != [] ==> FeeSum(txs) < |txs| * bound
    ensures txs == [] ==> FeeSum(txs) == 0
    decreases |txs|
  {
    if txs != [] {
      assert TxShape(txs[0]);
      FeesBelow(txs[1..], bound);
      assert |txs| * bound == (|txs| - 1) * bound + bound;
    }
  }
}
