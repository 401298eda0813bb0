/** The witness of a nullifier insertion and what can be checked of it without the tree. */
module ImtWitness {
  import opened Basics
  import opened Fold
  import opened MutableSpec
  import opened Witness
  import opened LinkedLeaves
  import opened IndexedSpec

  type LowWitness = (IndexedLeaf, MembershipProof)

  datatype ImtInsertionInfo = ImtInsertionInfo(
    oldRoot: Fr,
    circuitInfo: CircuitInsertionInfo,
    firstIndex: nat,
    lowNullifiers: seq<LowWitness>,
    pendingInserts: seq<IndexedLeaf>)

  // ----- What the circuit checks of the low-leaf witnesses

  ghost predicate Skips(e: IndexedLeaf, x: Fr) {
    e.value < x && (e.nextValue == 0 || x < e.nextValue)
  }

  /** What the checks carry from one value to the next: the root reached, and the entries of the
      batch so far, which are not in the tree yet. */
  datatype ChainState = ChainState(root: Fr, pending: seq<IndexedLeaf>)

  /** One step of the witness chain. Zeros take a position and nothing else. The low leaf of any
      other value must skip over it. A low leaf from before the batch must fold up its proof to the
      current root, and its relinked form folds up to the next one; a low leaf from the batch must be
      the pending entry it claims to be, which is relinked. The new entry takes over its link. */
  ghost function ChainStep(h: TreeHash, h3: LeafHash, height: nat, first: nat, x: Fr, w: LowWitness, st: ChainState)
    : Option<ChainState> {
    var (low, proof) := w;
    var index := first + |st.pending|;
    if |proof.siblingPath| != height then None
    else if x == 0 then Some(ChainState(st.root, st.pending + [ZERO_LEAF]))
    else if !Skips(low, x) || proof.nodeValue != HashLeaf(h3, low) then None
    else
      var added := [IndexedLeaf(x, index, low.nextIndex, low.nextValue)];
      if low.id < first then
        if ProofChecks(h, low.id, proof, st.root)
        then Some(ChainState(FoldPath(h, h3(low.value, index, x), proof.siblingPath), st.pending + added))
        else None
      else if low.id < index && st.pending[low.id - first] == low
      then Some(ChainState(st.root, Relink(st.pending, low.id - first, index, x) + added))
      else None
  }

  /** The proof is for the leaf at `id` and folds to the root. */
  ghost predicate ProofChecks(h: TreeHash, id: nat, proof: MembershipProof, root: Fr) {
    && (forall l | 0 <= l < |proof.siblingPath| :: proof.siblingPath[l].direction == DirectionAt(id, l))
    && FoldPath(h, proof.nodeValue, proof.siblingPath) == root
  }

  ghost function Relink(pending: seq<IndexedLeaf>, k: nat, index: nat, x: Fr): seq<IndexedLeaf>
    requires k < |pending|
  {
    pending[k := pending[k].(nextIndex := index, nextValue := x)]
  }

  /** What the first witnesses of a batch lead to, if all of them check. */
  ghost function ChainRun(h: TreeHash, h3: LeafHash, height: nat, first: nat, batch: seq<Fr>, lows: seq<LowWitness>,
                          root: Fr): Option<ChainState>
    requires |lows| <= |batch|
    decreases |lows|
  {
    if lows == [] then Some(ChainState(root, []))
    else
      var t := |lows| - 1;
      match ChainRun(h, h3, height, first, batch, lows[..t], root)
      case None => None
      case Some(now) => ChainStep(h, h3, height, first, batch[t], lows[t], now)
  }

  lemma {:induction false} ChainRunSnoc(h: TreeHash, h3: LeafHash, height: nat, first: nat, batch: seq<Fr>,
                                        lows: seq<LowWitness>, root: Fr, now: ChainState, w: LowWitness)
    requires |lows| < |batch| && ChainRun(h, h3, height, first, batch, lows, root) == Some(now)
    ensures ChainRun(h, h3, height, first, batch, lows + [w], root)
            == ChainStep(h, h3, height, first, batch[|lows|], w, now)
  {
    assert (lows + [w])[..|lows|] == lows;
  }

  /** The chain looks at no more of the batch than it has witnesses for. */
  lemma {:induction false} ChainPrefix(h: TreeHash, h3: LeafHash, height: nat, first: nat, batch: seq<Fr>,
                                       more: seq<Fr>, lows: seq<LowWitness>, root: Fr)
    requires |lows| <= |batch|
    ensures ChainRun(h, h3, height, first, batch + more, lows, root)
            == ChainRun(h, h3, height, first, batch, lows, root)
    decreases |lows|
  {
    if lows != [] { ChainPrefix(h, h3, height, first, batch, more, lows[..|lows| - 1], root); }
  }

  /** The tree leaf of a new entry: zeros have none. */
  ghost function PendingLeaf(h3: LeafHash, e: IndexedLeaf): Fr {
    if e.value == 0 then 0 else HashLeaf(h3, e)
  }

  /** All that can be checked of a witness without the tree: the low-leaf chain runs from the old
      root to the root of the sub-tree insertion and ends with the pending entries; the inserted
      leaves are their hashes; and the record of the insertion is valid and is for the slot in which
      the batch begins. */
  ghost predicate CheckedWitness(h: TreeHash, h3: LeafHash, d: nat, e: nat, first: nat, batch: seq<Fr>,
                                 info: ImtInsertionInfo) {
    var record := info.circuitInfo;
    && info.firstIndex == first == Shl(record.proof.leafIndex, e) && |info.lowNullifiers| == |batch|
    && ChainRun(h, h3, d + e, first, batch, info.lowNullifiers, info.oldRoot)
       == Some(ChainState(record.oldRoot, info.pendingInserts))
    && ValidRecord(h, d, e, record)
    && |info.pendingInserts| == |record.leaves| == |batch|
    && forall t | 0 <= t < |batch| :: record.leaves[t] == PendingLeaf(h3, info.pendingInserts[t])
  }

  ghost function ValuesOf(s: seq<IndexedLeaf>): (vs: seq<Fr>)
    ensures |vs| == |s| && forall t | 0 <= t < |s| :: vs[t] == s[t].value
  {
    if s == [] then [] else ValuesOf(s[..|s| - 1]) + [s[|s| - 1].value]
  }

  /** The pending entries hold the batch, in order. */
  lemma {:induction false} ChainHoldsBatch(h: TreeHash, h3: LeafHash, height: nat, first: nat, batch: seq<Fr>,
                                           lows: seq<LowWitness>, root: Fr, st: ChainState)
    requires |lows| <= |batch| && ChainRun(h, h3, height, first, batch, lows, root) == Some(st)
    ensures |st.pending| == |lows| && forall t | 0 <= t < |lows| :: st.pending[t].value == batch[t]
    decreases |lows|
  {
    if lows != [] {
      var t := |lows| - 1;
      var now := ChainRun(h, h3, height, first, batch, lows[..t], root).value;
      ChainHoldsBatch(h, h3, height, first, batch, lows[..t], root, now);
    }
  }

  /** So a witness says which batch it is for. */
  lemma {:induction false} WitnessNamesBatch(h: TreeHash, h3: LeafHash, d: nat, e: nat, first: nat, batch: seq<Fr>,
                                             info: ImtInsertionInfo)
    requires CheckedWitness(h, h3, d, e, first, batch, info)
    ensures info.firstIndex == first && ValuesOf(info.pendingInserts) == batch && |batch| == Pow2(e)
  {
    ChainHoldsBatch(h, h3, d + e, first, batch, info.lowNullifiers, info.oldRoot,
                    ChainState(info.circuitInfo.oldRoot, info.pendingInserts));
  }

  // ----- The entries of a batch in the list

  ghost function EntryAt(es: Entries, i: nat): IndexedLeaf {
    if i in es then es[i] else ZERO_LEAF
  }

  /** The entries at `n` ids from `first` on, with the zero leaf where there is none. */
  ghost function Pending(es: Entries, first: nat, n: nat): (s: seq<IndexedLeaf>)
    ensures |s| == n
  {
    if n == 0 then [] else Pending(es, first, n - 1) + [EntryAt(es, first + n - 1)]
  }

  lemma {:induction false} PendingAt(es: Entries, first: nat, n: nat, t: nat)
    requires t < n
    ensures Pending(es, first, n)[t] == EntryAt(es, first + t)
  {
    if t < n - 1 { PendingAt(es, first, n - 1, t); }
  }

  /** What storing a value at the next id does to them. */
  lemma {:induction false} PendingAfterStore(es: Entries, first: nat, n: nat, x: Fr, low: nat)
    requires IdsBelow(es, first + n) && low in es
    ensures var kept := Pending(es, first, n);
            Pending(StoreSpec(es, x, first + n, low), first, n + 1)
            == (if low < first then kept else Relink(kept, low - first, first + n, x))
               + [IndexedLeaf(x, first + n, es[low].nextIndex, es[low].nextValue)]
  {
    var es', kept := StoreSpec(es, x, first + n, low), Pending(es, first, n);
    var added := [IndexedLeaf(x, first + n, es[low].nextIndex, es[low].nextValue)];
    var now := (if low < first then kept else Relink(kept, low - first, first + n, x)) + added;
    forall t | 0 <= t < n + 1 ensures Pending(es', first, n + 1)[t] == now[t] {
      PendingAt(es', first, n + 1, t);
      if t < n { PendingAt(es, first, n, t); }
    }
  }

  // ----- The form in which witnesses are handed out

  /** The path handed out where there is nothing to open. */
  function DummyPath(height: nat): seq<PathElement> {
    seq(height, _ => PathElement(HashWithThisNodeOnLeft, 0))
  }

  /** The witness of a value going to position `index`: for a zero, the zero leaf and a dummy proof
      of leaf 0; for a low leaf in the tree, the proof of that very leaf; for a pending one, a dummy
      proof of the new position. */
  ghost predicate LowForm(height: nat, first: nat, x: Fr, index: nat, w: LowWitness) {
    var (low, proof) := w;
    if x == 0 then low == ZERO_LEAF && proof == MembershipProof(0, DummyPath(height), 0)
    else if low.id < first then proof.leafIndex == low.id
    else proof.siblingPath == DummyPath(height) && proof.leafIndex == index
  }

  ghost predicate LowForms(height: nat, first: nat, batch: seq<Fr>, lows: seq<LowWitness>)
    requires |lows| <= |batch|
  {
    forall t | 0 <= t < |lows| :: LowForm(height, first, batch[t], first + t, lows[t])
  }

  lemma {:induction false} LowFormsSnoc(height: nat, first: nat, batch: seq<Fr>, lows: seq<LowWitness>, w: LowWitness)
    requires |lows| < |batch| && LowForms(height, first, batch, lows)
    requires LowForm(height, first, batch[|lows|], first + |lows|, w)
    ensures LowForms(height, first, batch, lows + [w])
  {
  }

  /** A witness in that form, for the batch it names. */
  ghost predicate StatedWitness(height: nat, info: ImtInsertionInfo) {
    && |info.lowNullifiers| == |info.pendingInserts|
    && LowForms(height, info.firstIndex, ValuesOf(info.pendingInserts), info.lowNullifiers)
  }

  ghost predicate StatedWitnesses(height: nat, infos: seq<ImtInsertionInfo>) {
    forall k | 0 <= k < |infos| :: StatedWitness(height, infos[k])
  }

  /** A valid witness in the form in which it is handed out. */
  ghost predicate ValidWitness(h: TreeHash, h3: LeafHash, db: TreeDb, batch: seq<Fr>, db': TreeDb, es': Entries,
                               info: ImtInsertionInfo) {
    TrueWitness(h, h3, db, batch, db', es', info) && StatedWitness(db.meta.Height(), info)
  }

  /** A checked witness that starts at the tree's root before and ends at its root after, with
      the entries as they were stored. */
  ghost predicate TrueWitness(h: TreeHash, h3: LeafHash, db: TreeDb, batch: seq<Fr>, db': TreeDb, es': Entries,
                               info: ImtInsertionInfo) {
    && CheckedWitness(h, h3, db.meta.treeHeight, db.meta.subTreeHeight, Used(db), batch, info)
    && info.oldRoot == db.meta.root && info.circuitInfo.newRoot == db'.meta.root
    && info.pendingInserts == Pending(es', Used(db), |batch|)
  }
}
