/** The mutable tree as the program runs it: node, cache and metadata collections changed in
    place. Each method is proved against its value-level specification. */
module MutableTrees {
  import opened Basics
  import opened Fold
  import opened Heap
  import opened MutableSpec
  import opened MutableTheorems
  import opened Witness

  class MutableTree {
    const h: TreeHash
    var meta: TreeMetadata
    var nodes: Nodes
    var cache: Nodes

    ghost function Db(): TreeDb
      reads this
    {
      TreeDb(meta, nodes, cache)
    }

    /** An empty tree; `NewMutableTree` checks the heights first. */
    constructor (h: TreeHash, treeHeight: nat, subTreeHeight: nat)
      ensures this.h == h
      ensures Db() == EmptyDb(treeHeight, subTreeHeight)
    {
      this.h := h;
      meta := TreeMetadata(treeHeight, subTreeHeight, 0, 0);
      nodes, cache := map[], map[];
    }

    method GetNode(index: nat) returns (value: Fr)
      ensures value == Get(Db().View(), index)
    {
      if index in cache {
        value := cache[index];
      } else if index in nodes {
        value := nodes[index];
      } else {
        value := 0;
      }
    }

    /** Runs a queue of node writes, which all go to distinct nodes. */
    method SetNodes(updates: Nodes, updateTree: bool)
      modifies this
      ensures Db() == old(Db()).Put(updates, updateTree)
    {
      if updateTree {
        nodes := nodes + updates;
      } else {
        cache := cache + updates;
      }
    }

    method FlushCache()
      modifies this
      ensures Db() == old(Db()).Flush()
    {
      nodes := nodes + cache;
      cache := map[];
    }

    /** One level up: hashes a node's value with its sibling's. */
    method HashWithSibling(nodeIndex: nat, value: Fr) returns (hash: Fr)
      requires nodeIndex > 0
      ensures hash == Combine(h, Sibling(Db().View(), nodeIndex), value)
    {
      if nodeIndex % 2 == 0 {
        var left := GetNode(nodeIndex - 1);
        hash := h(left, value);
      } else {
        var right := GetNode(nodeIndex + 1);
        hash := h(value, right);
      }
    }

    /** Hashes from node `r` up `rows` rows, queueing the new value of every node passed. */
    method ClimbPath(r: nat, value: Fr, rows: nat) returns (hash: Fr, updates: Nodes)
      requires r >= Pow2(rows) - 1
      ensures (hash, updates) == Climb(h, Db().View(), r, value, rows)
    {
      var nodeIndex := r;
      hash := value;
      updates := map[r := value];
      ghost var m := Db().View();
      ClimbKeys(h, m, r, value, rows);
      for i := 0 to rows
        invariant nodeIndex >= Pow2(rows - i) - 1
        invariant nodeIndex in updates && updates[nodeIndex] == hash
        invariant Climb(h, m, r, value, rows).0 == Climb(h, m, nodeIndex, hash, rows - i).0
        invariant Climb(h, m, r, value, rows).1 == updates + Climb(h, m, nodeIndex, hash, rows - i).1
      {
        ghost var before, node0, hash0 := updates, nodeIndex, hash;
        hash := HashWithSibling(nodeIndex, hash);
        nodeIndex := (nodeIndex - 1) / 2;
        updates := updates[nodeIndex := hash];
        ClimbStep(h, m, node0, hash0, rows - i, before, updates);
      }
      assert updates + map[nodeIndex := hash] == updates;
    }

    /** Walks down `rows` rows below node `r`, queueing the nodes of `sub` in heap order.
        Running past the end of `sub` is a panic, before anything is written. */
    method HangBlock(r: nat, sub: seq<Fr>, rows: nat) returns (ok: bool, updates: Nodes)
      requires |sub| > 0
      ensures ok <==> 2 * Pow2(rows) - 1 <= |sub|
      ensures ok ==> updates == Block(r, sub, 2 * Pow2(rows) - 1)
    {
      var nodeIndex, subIndex, span := r, 0, 1;
      updates, ok := map[], true;
      for i := 0 to rows
        invariant nodeIndex == RowStart(r, i) && span == Pow2(i) && subIndex == 2 * span - 2 < |sub|
        invariant updates == Block(r, sub, subIndex + 1) && ok
      {
        nodeIndex := nodeIndex * 2 + 1;
        span := span * 2;
        for j := nodeIndex to nodeIndex + span
          invariant subIndex == span - 2 + (j - nodeIndex) < |sub|
          invariant updates == Block(r, sub, subIndex + 1)
        {
          subIndex := subIndex + 1;
          if subIndex >= |sub| {
            Pow2Mono(i + 1, rows);
            return false, map[];
          }
          BelowRow(r, i + 1, j - nodeIndex);
          updates := updates[j := sub[subIndex]];
        }
      }
    }

    /** Hooks a sub-tree into the tree at node `r`. */
    method HookSubTree(r: nat, sub: seq<Fr>, up: nat, down: nat, updateTree: bool) returns (ok: bool, hash: Fr)
      requires |sub| > 0 && r >= Pow2(up) - 1
      modifies this
      ensures ok <==> 2 * Pow2(down) - 1 <= |sub|
      ensures ok ==> (Db(), hash) == PutSubTree(h, old(Db()), r, sub, up, down, updateTree)
      ensures !ok ==> Db() == old(Db())
    {
      var updates, block;
      hash, updates := ClimbPath(r, sub[0], up);
      ok, block := HangBlock(r, sub, down);
      if ok { SetNodes(updates + block, updateTree); }
    }

    /** Computes one sub-tree and hooks it into slot `count`. */
    method AppendOne(count: nat, batch: seq<Fr>, updateTree: bool) returns (hash: Fr)
      requires |batch| == meta.Capacity()
      modifies this
      ensures (Db(), hash) == AppendOneSpec(h, old(Db()), count, batch, updateTree)
    {
      var sub := MakeCompleteTree(h, meta.subTreeHeight, batch);
      var ok;
      ok, hash := HookSubTree(Pow2(meta.treeHeight) - 1 + count, sub, meta.treeHeight, meta.subTreeHeight, updateTree);
    }

    /** Hooks in each whole chunk of the leaves in turn. */
    method AppendBatches(leaves: seq<Fr>, updateTree: bool) returns (hash: Fr, count: nat)
      requires Whole(|leaves|, meta.Capacity())
      modifies this
      ensures (Db(), hash) == AppendLoop(h, old(Db()), old(meta).subTreeCount, leaves, 0, updateTree)
      ensures meta == old(meta) && count == meta.subTreeCount + Chunks(|leaves|, meta.Capacity())
    {
      var cap, rest := Pow2(meta.subTreeHeight), leaves;
      hash, count := 0, meta.subTreeCount;
      ghost var start, goal := Db(), AppendLoop(h, Db(), count, leaves, 0, updateTree);
      while |rest| > 0
        invariant AppendProgress(h, start, leaves, updateTree, Db(), count, rest, hash, goal)
        decreases |rest|
      {
        ghost var db, hash0 := Db(), hash;
        OneChunk(rest, cap);
        hash := AppendOne(count, rest[..cap], updateTree);
        ProgressStep(h, start, leaves, updateTree, db, count, rest, hash0, Db(), hash, goal);
        count, rest := count + 1, rest[cap..];
      }
      AppendLoopDone(h, Db(), count, rest, hash, updateTree);
    }

    method AppendSubTrees(leaves: seq<Fr>, updateTree: bool) returns (r: Result<(Fr, nat)>)
      modifies this
      ensures (Db(), r) == AppendSpec(h, old(Db()), leaves, updateTree)
    {
      var error := AppendError(meta, |leaves|);
      if error.Some? { return Err(error.value); }
      if |leaves| == 0 { return Ok((meta.root, meta.LeavesBelow(meta.subTreeCount))); }
      WholeChunks(|leaves|, meta.Capacity());
      ghost var db := Db();
      var hash, count := AppendBatches(leaves, updateTree);
      if updateTree {
        AppendCommits(h, db, leaves, Db(), hash, db.meta.Grown(|leaves|, hash));
        meta := meta.(subTreeCount := count, root := hash);
        FlushCache();
      } else {
        AppendDry(h, db, leaves, Db(), hash);
        count := meta.subTreeCount;
      }
      r := Ok((hash, meta.LeavesBelow(count)));
    }

    method InsertLeaf(leaf: Fr, updateTree: bool) returns (r: Result<Fr>)
      modifies this
      ensures (Db(), r) == InsertLeafSpec(h, old(Db()), leaf, updateTree)
    {
      var height := meta.treeHeight + meta.subTreeHeight;
      if height >= U64_BITS { return Err(HeightTooLarge); }
      var nodeIndex := Pow2(height) - 1 + meta.LeavesBelow(meta.subTreeCount);
      if nodeIndex >= U64_RANGE { return Err(Failed); }
      var hash, updates := ClimbPath(nodeIndex, leaf, height);
      SetNodes(updates, updateTree);
      if updateTree {
        meta := meta.(subTreeCount := meta.subTreeCount + 1, root := hash);
        FlushCache();
      }
      r := Ok(hash);
    }

    method UpdateSubTree(index: nat, leaves: seq<Fr>, updateTree: bool) returns (r: Result<Fr>)
      modifies this
      ensures (Db(), r) == UpdateSpec(h, old(Db()), index, leaves, updateTree)
    {
      var error := UpdateError(meta, index, |leaves|);
      if error.Some? { return Err(error.value); }
      var sub := MakeCompleteTree(h, Log2(|leaves|), leaves);
      var row := UpdateRow(meta, |leaves|);
      var ok, hash := HookSubTree(Pow2(row) - 1 + index, sub, row, RowsWritten(meta, |leaves|), updateTree);
      if updateTree { FlushCache(); }
      meta := meta.(root := hash);
      r := Ok(hash);
    }

    /** The sibling path from a node of row `rows` up to the root. */
    method WalkPath(node: nat, rows: nat) returns (path: seq<PathElement>)
      requires InRow(node, rows)
      ensures path == SiblingPath(Db().View(), node)
    {
      var nodeIndex := node;
      path := [];
      for i := 0 to rows
        invariant InRow(nodeIndex, rows - i)
        invariant SiblingPath(Db().View(), node) == path + SiblingPath(Db().View(), nodeIndex)
      {
        ParentRow(nodeIndex, rows - i);
        if nodeIndex % 2 == 0 {
          var left := GetNode(nodeIndex - 1);
          path := path + [PathElement(HashWithThisNodeOnLeft, left)];
        } else {
          var right := GetNode(nodeIndex + 1);
          path := path + [PathElement(HashWithThisNodeOnRight, right)];
        }
        nodeIndex := (nodeIndex - 1) / 2;
      }
    }

    /** The proof for a given leaf index, or for whichever stored node holds a given value. In a sound,
        clean tree it is a proof of that leaf, and of one that holds that value. */
    method GetMembershipProof(leaf: Option<Fr>, leafIndex: Option<nat>) returns (r: Result<MembershipProof>)
      ensures leafIndex.Some? ==>
                var error := ProofError(meta, leafIndex.value);
                if error.Some? then r == Err(error.value)
                else
                  var value := if leaf.Some? then leaf.value
                    else Get(Db().View(), Pow2(meta.Height()) - 1 + leafIndex.value);
                  r == Ok(MembershipProof(value, ProofPath(Db(), leafIndex.value), leafIndex.value))
      ensures leafIndex.None? && leaf.None? ==> r == Err(ItemNotFound)
      ensures leafIndex.None? && leaf.Some? ==>
                if leaf.value == 0 then r == Err(Failed)
                else if leaf.value !in nodes.Values then r == Err(ItemNotFound)
                else exists node {:trigger nodes[node]} ::
                  node in nodes && nodes[node] == leaf.value && r == ProofOfNode(Db(), leaf.value, node)
      ensures Sound(h, Db()) && Clean(Db()) && leafIndex.Some? ==>
                && (r.Ok? <==> leafIndex.value < Pow2(meta.Height()) && meta.Height() < 63)
                && (r.Ok? && (leaf.None? || leaf.value == Leaves(Db())[leafIndex.value]) ==>
                      ValidProof(h, Db(), r.value) && r.value.leafIndex == leafIndex.value)
      ensures Sound(h, Db()) && Clean(Db()) && leafIndex.None? && leaf.Some? && leaf.value != 0 ==>
                && (r.Ok? ==> ValidProof(h, Db(), r.value) && r.value.nodeValue == leaf.value && meta.Height() < 63)
                && (HeldByLeavesAlone(Db(), leaf.value) && meta.Height() < 63 ==> r.Ok?)
                && (HeldByNoLeaf(Db(), leaf.value) ==> r.Err?)
    {
      r := ReadProof(leaf, leafIndex);
      ghost var db := Db();
      if Sound(h, db) && Clean(db) {
        if leafIndex.Some? {
          ProofByIndex(h, db, leafIndex.value);
        } else if leaf.Some? && leaf.value != 0 && leaf.value in nodes.Values {
          ghost var node :| node in nodes && nodes[node] == leaf.value && r == ProofOfNode(db, leaf.value, node);
          FoundByValue(h, db, leaf.value, node, r);
        }
      }
    }

    method ReadProof(leaf: Option<Fr>, leafIndex: Option<nat>) returns (r: Result<MembershipProof>)
      ensures leafIndex.Some? ==>
                var error := ProofError(meta, leafIndex.value);
                if error.Some? then r == Err(error.value)
                else
                  var value := if leaf.Some? then leaf.value
                    else Get(Db().View(), Pow2(meta.Height()) - 1 + leafIndex.value);
                  r == Ok(MembershipProof(value, ProofPath(Db(), leafIndex.value), leafIndex.value))
      ensures leafIndex.None? && leaf.None? ==> r == Err(ItemNotFound)
      ensures leafIndex.None? && leaf.Some? ==>
                if leaf.value == 0 then r == Err(Failed)
                else if leaf.value !in nodes.Values then r == Err(ItemNotFound)
                else exists node {:trigger nodes[node]} ::
                  node in nodes && nodes[node] == leaf.value && r == ProofOfNode(Db(), leaf.value, node)
    {
      var index;
      if leafIndex.Some? {
        var error := ProofError(meta, leafIndex.value);
        if error.Some? { return Err(error.value); }
        index := leafIndex.value;
      } else if leaf.Some? {
        if leaf.value == 0 { return Err(Failed); }
        if leaf.value !in nodes.Values { return Err(ItemNotFound); }
        var node :| node in nodes && nodes[node] == leaf.value;
        if meta.Height() + 1 >= U64_BITS { return Err(HeightTooLarge); }
        if node < Pow2(meta.Height()) - 1 || node > 2 * Pow2(meta.Height()) - 2 { return Err(InvalidProof); }
        index := node - (Pow2(meta.Height()) - 1);
      } else {
        return Err(ItemNotFound);
      }
      var node := Pow2(meta.Height()) - 1 + index;
      var path := WalkPath(node, meta.Height());
      var value;
      if leaf.Some? {
        value := leaf.value;
      } else {
        value := GetNode(node);
      }
      r := Ok(MembershipProof(value, path, index));
    }

    method InsertForCircuit(leaves: seq<Fr>) returns (r: Result<CircuitInsertionInfo>)
      modifies this
      ensures (Db(), r) == InsertForCircuitSpec(h, old(Db()), leaves)
    {
      if meta.subTreeHeight >= U64_BITS { return Err(HeightTooLarge); }
      var cap := Pow2(meta.subTreeHeight);
      if |leaves| != cap { return Err(IncorrectBatchSize); }
      var oldRoot, index := meta.root, meta.subTreeCount;
      var leafIndex := meta.LeavesBelow(index);
      var emptiness := GetMembershipProof(None, Some(leafIndex));
      if emptiness.Err? { return Err(emptiness.error); }
      var path := emptiness.value.siblingPath;
      SiblingPathLength(Db().View(), Pow2(meta.Height()) - 1 + leafIndex, meta.Height());
      var proof := MembershipProof(0, path[meta.subTreeHeight..], index);
      ghost var db := Db();
      var appended := AppendSubTrees(leaves, true);
      InsertRuns(h, db, leaves, path, Db(), appended);
      if appended.Err? { return Err(appended.error); }
      r := Ok(CircuitInsertionInfo(oldRoot, appended.value.0, proof, leafIndex + |leaves|, leaves));
    }

    method BatchInsertWithCircuitInfo(leaves: seq<Fr>) returns (r: Result<seq<CircuitInsertionInfo>>)
      requires meta.subTreeHeight < U64_BITS
      modifies this
      ensures |leaves| % old(meta).Capacity() != 0 ==> r == Err(IncorrectBatchSize) && Db() == old(Db())
      ensures |leaves| % old(meta).Capacity() == 0 ==> (Db(), r) == BatchLoop(h, old(Db()), leaves, [])
    {
      var cap := Pow2(meta.subTreeHeight);
      if |leaves| % cap != 0 { return Err(IncorrectBatchSize); }
      WholeChunks(|leaves|, cap);
      var infos: seq<CircuitInsertionInfo>, rest := [], leaves;
      ghost var goal := BatchLoop(h, Db(), leaves, []);
      while |rest| > 0
        invariant meta.Capacity() == cap && Whole(|rest|, cap) && BatchLoop(h, Db(), rest, infos) == goal
        decreases |rest|
      {
        OneChunk(rest, cap);
        ghost var db := Db();
        var info := InsertForCircuit(rest[..cap]);
        BatchLoopStep(h, db, rest, infos, Db(), info);
        if info.Err? { return Err(Panicked); }
        infos, rest := infos + [info.value], rest[cap..];
      }
      r := Ok(infos);
    }
  }

  /** A fresh tree, unless its heights together do not fit 64 bits. */
  method NewMutableTree(h: TreeHash, treeHeight: nat, subTreeHeight: nat) returns (r: Result<MutableTree>)
    ensures if treeHeight + subTreeHeight < U64_BITS then r.Ok? else r == Err(HeightTooLarge)
    ensures r.Ok? ==> fresh(r.value) && r.value.h == h && r.value.Db() == EmptyDb(treeHeight, subTreeHeight)
    ensures r.Ok? ==> Sound(h, r.value.Db()) && Clean(r.value.Db()) && UnusedZero(r.value.Db())
  {
    if treeHeight >= U64_BITS || subTreeHeight >= U64_BITS { return Err(HeightTooLarge); }
    if treeHeight + subTreeHeight >= U64_BITS { return Err(HeightTooLarge); }
    var tree := new MutableTree(h, treeHeight, subTreeHeight);
    EmptyIsSound(h, treeHeight, subTreeHeight);
    r := Ok(tree);
  }

  /** Part of the way through an append: the rest of the specified loop leads to its outcome. */
  ghost predicate AppendProgress(h: TreeHash, start: TreeDb, leaves: seq<Fr>, updateTree: bool, db: TreeDb, count: nat,
                                 rest: seq<Fr>,
                                 hash: Fr, goal: (TreeDb, Fr)) {
    var cap := start.meta.Capacity();
    && AppendLoop(h, db, count, rest, hash, updateTree) == goal
    && db.meta == start.meta && Whole(|rest|, cap)
    && count + Chunks(|rest|, cap) == start.meta.subTreeCount + Chunks(|leaves|, cap)
  }

  lemma {:induction false} ProgressStep(h: TreeHash, start: TreeDb, leaves: seq<Fr>, updateTree: bool, db: TreeDb,
                                        count: nat, rest: seq<Fr>,
                                        hash: Fr, db': TreeDb, hash': Fr, goal: (TreeDb, Fr))
    requires AppendProgress(h, start, leaves, updateTree, db, count, rest, hash, goal)
    requires |rest| >= start.meta.Capacity()
    requires (db', hash') == AppendOneSpec(h, db, count, rest[..start.meta.Capacity()], updateTree)
    ensures AppendProgress(h, start, leaves, updateTree, db', count + 1, rest[start.meta.Capacity()..], hash', goal)
  {
    OneChunk(rest, start.meta.Capacity());
    AppendLoopStep(h, db, count, rest, start.meta.Capacity(), hash, updateTree, db', hash');
  }

  lemma {:induction false} AppendLoopDone(h: TreeHash, db: TreeDb, count: nat, rest: seq<Fr>, hash: Fr,
    updateTree: bool)
    requires |rest| == 0
    ensures AppendLoop(h, db, count, rest, hash, updateTree) == (db, hash)
  {
  }

  /** One step of the climbing loop moves one queued write across. */
  lemma {:induction false} ClimbStep(h: TreeHash, m: Nodes, i: nat, v: Fr, n: nat, before: Nodes, after: Nodes)
    requires n > 0 && i >= Pow2(n) - 1 && i > 0 && i in before && before[i] == v
    requires after == before[Parent(i) := Combine(h, Sibling(m, i), v)]
    ensures Parent(i) >= Pow2(n - 1) - 1
    ensures before + Climb(h, m, i, v, n).1 == after + Climb(h, m, Parent(i), Combine(h, Sibling(m, i), v), n - 1).1
  {
    ClimbKeys(h, m, Parent(i), Combine(h, Sibling(m, i), v), n - 1);
  }

  lemma {:induction false} ClimbKeys(h: TreeHash, m: Nodes, i: nat, v: Fr, n: nat)
    requires i >= Pow2(n) - 1
    ensures i in Climb(h, m, i, v, n).1
    ensures forall j | j in Climb(h, m, i, v, n).1 :: j <= i
    decreases n
  {
    if n > 0 { ClimbKeys(h, m, Parent(i), Combine(h, Sibling(m, i), v), n - 1); }
  }
}
