/** The append-only tree: it keeps one node per level and still knows the root of the full tree. */
module AppendOnly {
  import opened Basics
  import opened Fold
  import opened MutableSpec

  // ----- What the frontier holds

  /** Level `l` of the frontier is the root of the completed block on the left of the path of
      the next sub-tree, for every level where that path turns right. */
  ghost predicate FrontierOk(h: TreeHash, e: nat, frontier: seq<Fr>, all: seq<Fr>, count: nat) {
    && |all| == Shl(count, e)
    && forall l: nat {:trigger frontier[l]} | l < |frontier| && Shr(count, l) % 2 == 1 ::
         frontier[l] == SubRoot(h, all, e + l, Shr(count, l) - 1)
  }

  /** The node above the new sub-tree at level `l` of the main tree. */
  ghost function PathNode(h: TreeHash, e: nat, s: seq<Fr>, count: nat, l: nat): Fr {
    SubRoot(h, s, e + l, Shr(count, l))
  }

  ghost predicate PathOk(h: TreeHash, e: nat, s: seq<Fr>, count: nat, path: seq<Fr>) {
    forall l: nat {:trigger path[l]} | l < |path| :: path[l] == PathNode(h, e, s, count, l)
  }

  lemma {:induction false} ShlShl(k: nat, a: nat, b: nat)
    ensures Shl(Shl(k, a), b) == Shl(k, a + b)
  {
    if b > 0 { ShlShl(k, a, b - 1); }
  }

  /** A block that was complete before an append keeps its root. */
  lemma {:induction false} CompletedBlock(h: TreeHash, all: seq<Fr>, batch: seq<Fr>, level: nat, k: nat)
    requires Shl(k + 1, level) <= |all|
    ensures SubRoot(h, all + batch, level, k) == SubRoot(h, all, level, k)
  {
    NextBlock(k, level);
    forall x: nat | x < Pow2(level) ensures BlockLeaf(all + batch, level, k, x) == BlockLeaf(all, level, k, x) {}
    SubRootCong(h, level, all + batch, k, all, k);
  }

  /** A block past the last leaf folds to zero. */
  lemma {:induction false} BlockBeyond(h: TreeHash, s: seq<Fr>, level: nat, k: nat)
    requires |s| <= Shl(k, level)
    ensures SubRoot(h, s, level, k) == 0
  {
    forall x: nat | x < Pow2(level) ensures BlockLeaf(s, level, k, x) == 0 {}
    EmptyBlock(h, s, level, k);
  }

  /** The new sub-tree's own root is its block's root in the whole tree. */
  lemma {:induction false} NewBlock(h: TreeHash, all: seq<Fr>, batch: seq<Fr>, e: nat, count: nat)
    requires |all| == Shl(count, e) && |batch| == Pow2(e)
    ensures CompleteTree(h, e, batch)[0] == SubRoot(h, all + batch, e, count)
  {
    CompleteTreeRoot(h, e, batch);
    ShlOne(e);
    forall x: nat | x < Pow2(e) ensures BlockLeaf(batch, e, 0, x) == BlockLeaf(all + batch, e, count, x) {}
    SubRootCong(h, e, batch, 0, all + batch, count);
  }

  /** One level of the climb: the frontier on the left, or zero on the right. */
  lemma {:induction false} ClimbLevel(h: TreeHash, e: nat, frontier: seq<Fr>, all: seq<Fr>, batch: seq<Fr>, count: nat,
                                      l: nat)
    requires FrontierOk(h, e, frontier, all, count) && |batch| == Pow2(e) && l < |frontier|
    ensures PathNode(h, e, all + batch, count, l + 1)
            == if Shr(count, l) % 2 == 1 then h(frontier[l], PathNode(h, e, all + batch, count, l))
               else h(PathNode(h, e, all + batch, count, l), 0)
  {
    var k, s := Shr(count, l), all + batch;
    assert SubRoot(h, s, e + l + 1, k / 2)
           == h(SubRoot(h, s, e + l, 2 * (k / 2)), SubRoot(h, s, e + l, 2 * (k / 2) + 1));
    if k % 2 == 1 {
      KeptLevel(h, e, frontier, all, batch, count, l);
    } else {
      NothingOnTheRight(h, e, all, batch, count, l);
    }
  }

  lemma {:induction false} NothingOnTheRight(h: TreeHash, e: nat, all: seq<Fr>, batch: seq<Fr>, count: nat, l: nat)
    requires |all| == Shl(count, e) && |batch| == Pow2(e)
    ensures SubRoot(h, all + batch, e + l, Shr(count, l) + 1) == 0
  {
    var k := Shr(count, l);
    ShrBounds(count, l);
    ShlMono(count + 1, Shl(k + 1, l), e);
    ShlShl(k + 1, l, e);
    NextBlock(count, e);
    BlockBeyond(h, all + batch, e + l, k + 1);
  }

  /** Adding one carries through the trailing ones and leaves the higher bits alone. */
  lemma {:induction false} CarryBits(c: nat, l: nat)
    ensures Shr(c + 1, l) == if l <= TwoAdic(c + 1) then Shr(c, l) + 1 else Shr(c, l)
  {
    if l > 0 {
      CarryBits(c, l - 1);
      TwoAdicBits(c + 1);
    }
  }

  /** The frontier index is within the frontier exactly when the tree is not being filled. */
  lemma {:induction false} FrontierIndexFits(c: nat, d: nat)
    requires c < Pow2(d)
    ensures TwoAdic(c + 1) <= d
    ensures TwoAdic(c + 1) < d <==> c + 1 < Pow2(d)
  {
    if c + 1 == Pow2(d) {
      ShlOne(d);
      TwoAdicUnique(c + 1, d, 0);
    } else {
      TwoAdicBits(c + 1);
      ShrOfSmall(c + 1, d);
      if TwoAdic(c + 1) >= d { ShrStaysZero(c + 1, d, TwoAdic(c + 1)); }
    }
  }

  /** Storing the path node at the frontier index is all the next append needs. */
  lemma {:induction false} FrontierStep(h: TreeHash, e: nat, frontier: seq<Fr>, all: seq<Fr>, batch: seq<Fr>,
                                        count: nat, p: Fr)
    requires FrontierOk(h, e, frontier, all, count) && |batch| == Pow2(e)
    requires TwoAdic(count + 1) < |frontier|
    requires p == PathNode(h, e, all + batch, count, TwoAdic(count + 1))
    ensures FrontierOk(h, e, frontier[TwoAdic(count + 1) := p], all + batch, count + 1)
  {
    NextBlock(count, e);
    var v, frontier' := TwoAdic(count + 1), frontier[TwoAdic(count + 1) := p];
    TwoAdicBits(count + 1);
    forall l: nat | l < |frontier| && Shr(count + 1, l) % 2 == 1
      ensures frontier'[l] == SubRoot(h, all + batch, e + l, Shr(count + 1, l) - 1)
    {
      CarryBits(count, l);
      if l > v { KeptLevel(h, e, frontier, all, batch, count, l); }
    }
  }

  lemma {:induction false} KeptLevel(h: TreeHash, e: nat, frontier: seq<Fr>, all: seq<Fr>, batch: seq<Fr>, count: nat,
                                     l: nat)
    requires FrontierOk(h, e, frontier, all, count) && l < |frontier| && Shr(count, l) % 2 == 1
    ensures frontier[l] == SubRoot(h, all + batch, e + l, Shr(count, l) - 1)
  {
    var k := Shr(count, l);
    ShrBounds(count, l);
    ShlMono(Shl(k, l), count, e);
    ShlShl(k, l, e);
    CompletedBlock(h, all, batch, e + l, k - 1);
  }

  // ----- The tree

  class AppendOnlyTree {
    const h: TreeHash
    var meta: TreeMetadata
    var frontier: seq<Fr>
    ghost var leaves: seq<Fr>  // every leaf committed so far

    ghost predicate Valid()
      reads this
    {
      && meta.Height() < U64_BITS
      && meta.subTreeCount < Pow2(meta.treeHeight)
      && |frontier| == meta.treeHeight
      && FrontierOk(h, meta.subTreeHeight, frontier, leaves, meta.subTreeCount)
      && meta.root == SubRoot(h, leaves, meta.Height(), 0)
    }

    constructor (h: TreeHash, treeHeight: nat, subTreeHeight: nat)
      requires treeHeight + subTreeHeight < U64_BITS
      ensures Valid() && this.h == h && leaves == []
      ensures meta == TreeMetadata(treeHeight, subTreeHeight, 0, 0)
    {
      this.h := h;
      meta := TreeMetadata(treeHeight, subTreeHeight, 0, 0);
      frontier := seq(treeHeight, _ => 0);
      leaves := [];
      new;
      ShlOne(subTreeHeight);
      forall l: nat ensures Shr(0, l) == 0 { ShrOfSmall(0, l); }
      EmptyTree(h, treeHeight + subTreeHeight, 0);
    }

    /** The path from a new sub-tree's root to the tree's root, through the frontier. */
    method ClimbFrontier(front: seq<Fr>, subTreeRoot: Fr, count: nat, ghost all: seq<Fr>, ghost batch: seq<Fr>)
      returns (path: seq<Fr>)
      requires |front| == meta.treeHeight && |batch| == meta.Capacity()
      requires FrontierOk(h, meta.subTreeHeight, front, all, count)
      requires subTreeRoot == SubRoot(h, all + batch, meta.subTreeHeight, count)
      ensures |path| == meta.treeHeight + 1
      ensures PathOk(h, meta.subTreeHeight, all + batch, count, path)
    {
      var directions := IndexToDirections(count, meta.treeHeight);
      var hash := subTreeRoot;
      path := [subTreeRoot];
      for level := 0 to |directions|
        invariant |path| == level + 1 && hash == path[level]
        invariant PathOk(h, meta.subTreeHeight, all + batch, count, path)
      {
        ClimbLevel(h, meta.subTreeHeight, front, all, batch, count, level);
        if directions[level] == HashWithThisNodeOnLeft {
          hash := h(front[level], hash);
        } else {
          hash := h(hash, 0);
        }
        path := path + [hash];
      }
    }

    /** Appends whole sub-trees. The capacity check admits filling the tree, but the frontier
        has no room for the last sub-tree, so that one case panics and nothing is stored. */
    method AppendSubTrees(batch: seq<Fr>, updateTree: bool) returns (r: Result<Fr>)
      requires Valid()
      modifies this
      ensures Valid()
      ensures var total := meta.subTreeHeight + meta.treeHeight;
              && (r.Ok? <==> |batch| % old(meta).Capacity() == 0 &&
                             old(meta).subTreeCount + old(meta).Slots(|batch|) < Pow2(old(meta).treeHeight))
              && (r == Err(Panicked) <==> |batch| % old(meta).Capacity() == 0 &&
                                          old(meta).subTreeCount + old(meta).Slots(|batch|)
                                            == Pow2(old(meta).treeHeight))
              && (r == Err(IncorrectBatchSize) <==> |batch| % old(meta).Capacity() != 0)
              && (r == Err(TreeIsFull) <==> |batch| % old(meta).Capacity() == 0 &&
                                            old(meta).subTreeCount + old(meta).Slots(|batch|)
                                              > Pow2(old(meta).treeHeight))
              && (r.Ok? ==> r.value == SubRoot(h, old(leaves) + batch, total, 0))
      ensures meta.treeHeight == old(meta).treeHeight && meta.subTreeHeight == old(meta).subTreeHeight
      ensures r.Ok? && updateTree ==> leaves == old(leaves) + batch && meta.root == r.value
      ensures r.Err? || !updateTree ==> unchanged(this)
    {
      var cap := meta.Capacity();
      if |batch| % cap != 0 { return Err(IncorrectBatchSize); }
      if |batch| == 0 {
        assert leaves + batch == leaves;
        return Ok(meta.root);
      }
      if meta.subTreeCount + meta.Slots(|batch|) > Pow2(meta.treeHeight) { return Err(TreeIsFull); }
      WholeChunks(|batch|, cap);
      var ok, front, count, root;
      ghost var all;
      ok, front, count, root, all := AppendChunks(batch);
      if !ok { return Err(Panicked); }
      if updateTree {
        meta := meta.(subTreeCount := count, root := root);
        frontier := front;
        leaves := all;
      }
      r := Ok(root);
    }

    /** Computes one sub-tree, hashes it up through the frontier and updates the frontier. */
    method AppendChunk(front: seq<Fr>, count: nat, leafBatch: seq<Fr>, ghost all: seq<Fr>)
      returns (ok: bool, front': seq<Fr>, root: Fr)
      requires |front| == meta.treeHeight && |leafBatch| == meta.Capacity() && count < Pow2(meta.treeHeight)
      requires FrontierOk(h, meta.subTreeHeight, front, all, count)
      ensures ok <==> count + 1 < Pow2(meta.treeHeight)
      ensures |front'| == meta.treeHeight
      ensures ok ==> FrontierOk(h, meta.subTreeHeight, front', all + leafBatch, count + 1)
      ensures root == SubRoot(h, all + leafBatch, meta.Height(), 0)
    {
      var subTree := MakeCompleteTree(h, meta.subTreeHeight, leafBatch);
      NewBlock(h, all, leafBatch, meta.subTreeHeight, count);
      var path := ClimbFrontier(front, subTree[0], count, all, leafBatch);
      ShrOfSmall(count, meta.treeHeight);
      root := path[meta.treeHeight];
      var index := GetFrontierIndex(count);
      FrontierIndexFits(count, meta.treeHeight);
      if index >= |front| { return false, front, root; }
      FrontierStep(h, meta.subTreeHeight, front, all, leafBatch, count, path[index]);
      ok, front' := true, front[index := path[index]];
    }

    /** The batch loop on local copies of the frontier and the count. */
    method AppendChunks(batch: seq<Fr>) returns (ok: bool, front: seq<Fr>, count: nat, root: Fr, ghost all: seq<Fr>)
      requires Valid() && |batch| > 0 && Whole(|batch|, meta.Capacity())
      requires meta.subTreeCount + Chunks(|batch|, meta.Capacity()) <= Pow2(meta.treeHeight)
      ensures ok <==> meta.subTreeCount + Chunks(|batch|, meta.Capacity()) < Pow2(meta.treeHeight)
      ensures ok ==> count == meta.subTreeCount + Chunks(|batch|, meta.Capacity()) && |front| == meta.treeHeight
      ensures ok ==> all == leaves + batch && FrontierOk(h, meta.subTreeHeight, front, all, count)
      ensures ok ==> root == SubRoot(h, leaves + batch, meta.Height(), 0)
    {
      var cap, rest := meta.Capacity(), batch;
      front, count, root, all, ok := frontier, meta.subTreeCount, meta.root, leaves, true;
      while |rest| > 0
        invariant Whole(|rest|, cap) && all + rest == leaves + batch
        invariant count + Chunks(|rest|, cap) == meta.subTreeCount + Chunks(|batch|, cap)
        invariant |front| == meta.treeHeight && count < Pow2(meta.treeHeight)
        invariant FrontierOk(h, meta.subTreeHeight, front, all, count)
        invariant root == SubRoot(h, all, meta.Height(), 0)
        decreases |rest|
      {
        var leafBatch := rest[..cap];
        OneChunk(rest, cap);
        ok, front, root := AppendChunk(front, count, leafBatch, all);
        if !ok { return; }
        count, all := count + 1, all + leafBatch;
        assert rest == leafBatch + rest[cap..];
        rest := rest[cap..];
      }
      assert all == all + rest;
    }
  }

  /** A fresh tree, unless its heights together do not fit 64 bits. */
  method NewAppendOnlyTree(h: TreeHash, treeHeight: nat, subTreeHeight: nat) returns (r: Result<AppendOnlyTree>)
    ensures if treeHeight + subTreeHeight < U64_BITS then r.Ok? else r == Err(HeightTooLarge)
    ensures r.Ok? ==> fresh(r.value) && r.value.Valid() && r.value.h == h && r.value.leaves == []
    ensures r.Ok? ==> r.value.meta == TreeMetadata(treeHeight, subTreeHeight, 0, 0)
  {
    if treeHeight >= U64_BITS || subTreeHeight >= U64_BITS { return Err(HeightTooLarge); }
    if treeHeight + subTreeHeight >= U64_BITS { return Err(HeightTooLarge); }
    var tree := new AppendOnlyTree(h, treeHeight, subTreeHeight);
    r := Ok(tree);
  }

  /** The last slot passes the capacity check and panics: a tree of one slot takes nothing. */
  method FillingPanics(h: TreeHash, v: Fr) returns (r: Result<Fr>)
    ensures r == Err(Panicked)
  {
    var tree := new AppendOnlyTree(h, 0, 0);
    r := tree.AppendSubTrees([v], true);
  }
}
