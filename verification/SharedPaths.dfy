/** The builder of four membership paths that share a root: known siblings where there are
    some, random ones where there are none. */
module SharedPaths {
  import opened Basics
  import opened Fold

  const LEAVES: nat := 4

  /** The pair of an index: `index ^ 1`. */
  function Pair(index: nat): nat {
    if index % 2 == 0 then index + 1 else index - 1
  }

  /** The keys present at the start of a level: the ancestors of the four leaves. */
  ghost predicate LevelKeys(nodes: map<nat, Fr>, level: nat) {
    forall k: nat :: k in nodes <==> k <= Shr(3, level)
  }

  /** No node is without its pair, and at least the ancestors of the leaves are there. */
  ghost predicate Paired(nodes: map<nat, Fr>, level: nat) {
    forall k: nat :: k in nodes <==> k / 2 <= Shr(3, level + 1)
  }

  /** Each leaf folds up its path so far to its ancestor at this level. */
  ghost predicate PathsReach(h: TreeHash, leaves: seq<Fr>, paths: seq<seq<PathElement>>, nodes: map<nat, Fr>,
    level: nat)
    requires |leaves| == |paths| == LEAVES
  {
    forall i: nat | i < LEAVES :: && Shr(i, level) in nodes && |paths[i]| == level
                                  && FoldPath(h, leaves[i], paths[i]) == nodes[Shr(i, level)]
  }

  ghost predicate DirectionsFollow(paths: seq<seq<PathElement>>)
    requires |paths| == LEAVES
  {
    forall i: nat, l: nat | i < LEAVES && l < |paths[i]| :: paths[i][l].direction == DirectionAt(i, l)
  }

  lemma {:induction false} AncestorBound(i: nat, level: nat)
    requires i < LEAVES
    ensures Shr(i, level) <= Shr(3, level)
    ensures level >= 2 ==> Shr(i, level) == 0
  {
    if level == 1 {
      assert Shr(i, 1) == i / 2 && Shr(3, 1) == 1;
    } else if level >= 2 {
      assert Shr(i, 1) == i / 2 && Shr(i, 2) == i / 2 / 2 == 0;
      ShrStaysZero(i, 2, level);
    }
  }

  lemma {:induction false} PairBound(i: nat, level: nat)
    requires i < LEAVES
    ensures Pair(Shr(i, level)) <= 2 * Shr(3, level + 1) + 1
  {
    AncestorBound(i, level);
  }

  /** The first `i` paths of a level have their new element; the others are as they were. */
  ghost predicate Extended(h: TreeHash, leaves: seq<Fr>, paths: seq<seq<PathElement>>, nodes: map<nat, Fr>, level: nat,
                           i: nat,
                           paths': seq<seq<PathElement>>, nodes': map<nat, Fr>)
    requires |leaves| == |paths| == |paths'| == LEAVES && i <= LEAVES
  {
    && DirectionsFollow(paths')
    && (forall k: nat | k in nodes :: k in nodes' && nodes'[k] == nodes[k])
    && (forall k: nat | k in nodes' && k !in nodes :: k <= 2 * Shr(3, level + 1) + 1)
    && (forall j: nat | j < i :: Lifted(h, leaves, paths', nodes', level, j) && Pair(Shr(j, level)) in nodes')
    && (forall j: nat | i <= j < LEAVES :: paths'[j] == paths[j])
  }

  lemma {:induction false} ExtendOne(h: TreeHash, leaves: seq<Fr>, paths: seq<seq<PathElement>>, nodes: map<nat, Fr>,
                                     level: nat, i: nat,
                                     paths1: seq<seq<PathElement>>, nodes1: map<nat, Fr>, e: PathElement,
                                       nodes2: map<nat, Fr>)
    requires |leaves| == |paths| == |paths1| == LEAVES && i < LEAVES && LevelKeys(nodes, level)
    requires PathsReach(h, leaves, paths, nodes, level)
    requires Extended(h, leaves, paths, nodes, level, i, paths1, nodes1)
    requires IsSibling(nodes1, Shr(i, level), e, nodes2)
    ensures Extended(h, leaves, paths, nodes, level, i + 1, paths1[i := paths1[i] + [e]], nodes2)
  {
    AncestorBound(i, level);
    PairBound(i, level);
    var paths2 := paths1[i := paths1[i] + [e]];
    LiftOne(h, leaves[i], paths[i], e, nodes2, Shr(i, level));
    OthersLifted(h, leaves, paths1, paths2, nodes1, nodes2, level, i);
    DirectionsSnoc(paths1, i, e);
  }

  /** Looks up, or draws, the sibling of every leaf's ancestor and extends every path. */
  method AddSiblings(h: TreeHash, leaves: seq<Fr>, paths: seq<seq<PathElement>>, nodes: map<nat, Fr>, level: nat,
                     rand: nat -> Fr, drawn: nat)
    returns (paths': seq<seq<PathElement>>, nodes': map<nat, Fr>, drawn': nat)
    requires |leaves| == |paths| == LEAVES && LevelKeys(nodes, level) && PathsReach(h, leaves, paths, nodes, level)
    requires DirectionsFollow(paths)
    ensures |paths'| == LEAVES && Paired(nodes', level) && DirectionsFollow(paths')
    ensures forall i: nat | i < LEAVES :: Lifted(h, leaves, paths', nodes', level, i)
    ensures if level < 2 then nodes' == nodes && drawn' == drawn else drawn' == drawn + 1
    ensures forall i: nat | i < LEAVES :: Sibled(paths, paths', nodes, level, rand(drawn), i)
  {
    paths', nodes', drawn' := paths, nodes, drawn;
    for i := 0 to LEAVES
      invariant |paths'| == LEAVES && Extended(h, leaves, paths, nodes, level, i, paths', nodes')
      invariant DrawnFor(nodes, level, rand, drawn, i, nodes', drawn')
      invariant forall j: nat | j < i :: Sibled(paths, paths', nodes, level, rand(drawn), j)
    {
      KnownOrNot(nodes, level, i);
      ghost var paths1, nodes1 := paths', nodes';
      var e;
      e, nodes', drawn' := SiblingOf(nodes', Shr(i, level), rand, drawn');
      paths' := paths'[i := paths'[i] + [e]];
      ExtendOne(h, leaves, paths, nodes, level, i, paths1, nodes1, e, nodes');
      SibledOne(paths, paths1, nodes, level, rand(drawn), i, e, paths');
    }
    AllPaired(nodes, nodes', level);
  }

  /** The new element of path `i`: the ancestor's sibling where it is known, which is on the two lowest
      levels, and the number drawn above them. */
  ghost predicate Sibled(paths: seq<seq<PathElement>>, paths': seq<seq<PathElement>>, nodes: map<nat, Fr>, level: nat,
                         random: Fr, i: nat)
    requires |paths| == |paths'| == LEAVES && i < LEAVES
  {
    var sibling := Pair(Shr(i, level));
    && |paths'[i]| == |paths[i]| + 1 && paths'[i][..|paths[i]|] == paths[i]
    && (level < 2 ==> sibling in nodes && paths'[i][|paths[i]|].value == nodes[sibling])
    && (level >= 2 ==> paths'[i][|paths[i]|].value == random)
  }

  /** What has been drawn for the first `i` paths of a level: one number, above the two lowest. */
  ghost predicate DrawnFor(nodes: map<nat, Fr>, level: nat, rand: nat -> Fr, drawn: nat, i: nat, nodes': map<nat, Fr>,
                           drawn': nat) {
    if level < 2 || i == 0 then nodes' == nodes && drawn' == drawn
    else nodes' == nodes[1 := rand(drawn)] && drawn' == drawn + 1
  }

  lemma {:induction false} KnownOrNot(nodes: map<nat, Fr>, level: nat, i: nat)
    requires LevelKeys(nodes, level) && i < LEAVES
    ensures level < 2 ==> Pair(Shr(i, level)) in nodes
    ensures level >= 2 ==> Pair(Shr(i, level)) == 1 && 1 !in nodes
  {
    AncestorBound(i, level);
    AncestorBound(3, level);
    if level == 1 { assert Shr(i, 1) == i / 2 && Shr(3, 1) == 1; }
  }

  lemma {:induction false} SibledOne(paths: seq<seq<PathElement>>, paths1: seq<seq<PathElement>>, nodes: map<nat, Fr>,
                                     level: nat, random: Fr, i: nat, e: PathElement, paths2: seq<seq<PathElement>>)
    requires |paths| == |paths1| == LEAVES && i < LEAVES && paths1[i] == paths[i]
    requires paths2 == paths1[i := paths1[i] + [e]]
    requires forall j: nat | j < i :: Sibled(paths, paths1, nodes, level, random, j)
    requires if level < 2 then Pair(Shr(i, level)) in nodes && e.value == nodes[Pair(Shr(i, level))]
             else e.value == random
    ensures forall j: nat | j < i + 1 :: Sibled(paths, paths2, nodes, level, random, j)
  {
    forall j: nat | j < i + 1 ensures Sibled(paths, paths2, nodes, level, random, j) {
      if j < i { assert Sibled(paths, paths1, nodes, level, random, j); }
    }
  }

  ghost predicate IsSibling(nodes: map<nat, Fr>, index: nat, e: PathElement, nodes': map<nat, Fr>) {
    && Pair(index) in nodes' && nodes' == nodes[Pair(index) := nodes'[Pair(index)]]
    && (Pair(index) in nodes ==> nodes' == nodes)
    && e == PathElement(if index % 2 == 0 then HashWithThisNodeOnRight else HashWithThisNodeOnLeft, nodes'[Pair(index)])
  }

  /** The path element for a node's sibling, drawn at random if it is not there yet. */
  method SiblingOf(nodes: map<nat, Fr>, index: nat, rand: nat -> Fr, drawn: nat)
    returns (e: PathElement, nodes': map<nat, Fr>, drawn': nat)
    ensures IsSibling(nodes, index, e, nodes')
    ensures if Pair(index) in nodes then drawn' == drawn
            else drawn' == drawn + 1 && e.value == rand(drawn)
  {
    var sibling := Pair(index);
    nodes', drawn' := nodes, drawn;
    if sibling !in nodes {
      nodes' := nodes[sibling := rand(drawn)];
      drawn' := drawn + 1;
    }
    var direction := if index % 2 == 0 then HashWithThisNodeOnRight else HashWithThisNodeOnLeft;
    e := PathElement(direction, nodes'[sibling]);
  }

  lemma {:induction false} DirectionsSnoc(paths: seq<seq<PathElement>>, i: nat, e: PathElement)
    requires |paths| == LEAVES && i < LEAVES && DirectionsFollow(paths) && e.direction == DirectionAt(i, |paths[i]|)
    ensures DirectionsFollow(paths[i := paths[i] + [e]])
  {
  }

  lemma {:induction false} OthersLifted(h: TreeHash, leaves: seq<Fr>, paths: seq<seq<PathElement>>,
                                        paths': seq<seq<PathElement>>,
                                        nodes: map<nat, Fr>, nodes': map<nat, Fr>, level: nat, i: nat)
    requires |leaves| == |paths| == |paths'| == LEAVES && i <= LEAVES
    requires forall j: nat | j < i :: Lifted(h, leaves, paths, nodes, level, j) && paths'[j] == paths[j]
    requires forall k: nat | k in nodes :: k in nodes' && nodes'[k] == nodes[k]
    ensures forall j: nat | j < i :: Lifted(h, leaves, paths', nodes', level, j)
  {
    forall j: nat | j < i ensures Lifted(h, leaves, paths', nodes', level, j) {
      assert Lifted(h, leaves, paths, nodes, level, j);
    }
  }

  /** After a level's siblings are added, a leaf folds up to its parent-to-be. */
  ghost predicate Lifted(h: TreeHash, leaves: seq<Fr>, paths: seq<seq<PathElement>>, nodes: map<nat, Fr>, level: nat,
                         i: nat)
    requires |leaves| == |paths| == LEAVES && i < LEAVES
  {
    var base := 2 * Shr(i, level + 1);
    && |paths[i]| == level + 1 && base in nodes && base + 1 in nodes
    && FoldPath(h, leaves[i], paths[i]) == h(nodes[base], nodes[base + 1])
  }

  lemma {:induction false} LiftOne(h: TreeHash, leaf: Fr, path: seq<PathElement>, e: PathElement, nodes: map<nat, Fr>,
                                   index: nat)
    requires index in nodes && Pair(index) in nodes && FoldPath(h, leaf, path) == nodes[index]
    requires e == PathElement(if index % 2 == 0 then HashWithThisNodeOnRight
             else HashWithThisNodeOnLeft, nodes[Pair(index)])
    ensures 2 * (index / 2) in nodes && 2 * (index / 2) + 1 in nodes
    ensures FoldPath(h, leaf, path + [e]) == h(nodes[2 * (index / 2)], nodes[2 * (index / 2) + 1])
  {
    FoldPathAppend(h, leaf, path, [e]);
    assert FoldPath(h, nodes[index], [e]) == Combine(h, e, nodes[index]) by { assert [e][1..] == []; }
  }

  lemma {:induction false} AllPaired(nodes: map<nat, Fr>, nodes': map<nat, Fr>, level: nat)
    requires LevelKeys(nodes, level)
    requires forall k: nat | k in nodes :: k in nodes'
    requires forall k: nat | k in nodes' && k !in nodes :: k <= 2 * Shr(3, level + 1) + 1
    requires forall j: nat | j < LEAVES :: Pair(Shr(j, level)) in nodes'
    ensures Paired(nodes', level)
  {
    AncestorBound(0, level);
    AncestorBound(3, level);
    assert Pair(Shr(0, level)) in nodes' && Pair(Shr(3, level)) in nodes';
    if level == 1 {
      assert Shr(3, 1) == 1;
    }
  }

  /** A parent is the hash of the two nodes below it. */
  ghost predicate ParentOk(h: TreeHash, nodes: map<nat, Fr>, next: map<nat, Fr>, k: nat)
    requires k in next
  {
    2 * k in nodes && 2 * k + 1 in nodes && next[k] == h(nodes[2 * k], nodes[2 * k + 1])
  }

  /** Hashes every pair of nodes into its parent, once; no lookup misses. */
  method BuildParents(h: TreeHash, nodes: map<nat, Fr>, level: nat) returns (next: map<nat, Fr>)
    requires Paired(nodes, level)
    ensures LevelKeys(next, level + 1)
    ensures forall k: nat {:trigger ParentOk(h, nodes, next, k)} | k in next :: ParentOk(h, nodes, next, k)
  {
    next := map[];
    var pairsDone: set<nat>, todo := {}, nodes.Keys;
    while todo != {}
      invariant todo <= nodes.Keys
      invariant forall k: nat {:trigger k in nodes} | k in nodes && k !in todo :: k / 2 in next
      invariant forall b: nat {:trigger b in pairsDone} | b in pairsDone :: b / 2 in next
      invariant forall k: nat {:trigger ParentOk(h, nodes, next, k)} | k in next :: ParentOk(h, nodes, next, k)
      decreases todo
    {
      var index: nat :| index in todo;
      var pairBase := index - index % 2;
      assert pairBase / 2 == index / 2;
      ghost var before := next;
      if pairBase !in pairsDone {
        BothChildren(nodes, level, index);
        pairsDone := pairsDone + {pairBase};
        var left, right := nodes[pairBase], nodes[pairBase + 1];
        next := next[pairBase / 2 := h(left, right)];
        OneMoreParent(h, nodes, before, next, pairBase / 2);
      }
      todo := todo - {index};
    }
    ParentKeys(h, nodes, next, level);
  }

  lemma {:induction false} BothChildren(nodes: map<nat, Fr>, level: nat, index: nat)
    requires Paired(nodes, level) && index in nodes
    ensures index - index % 2 in nodes && index - index % 2 + 1 in nodes
    ensures 2 * (index / 2) == index - index % 2
  {
    var b: nat := index - index % 2;
    assert b / 2 == index / 2 && (b + 1) / 2 == index / 2;
  }

  lemma {:induction false} OneMoreParent(h: TreeHash, nodes: map<nat, Fr>, before: map<nat, Fr>, next: map<nat, Fr>,
                                         k: nat)
    requires 2 * k in nodes && 2 * k + 1 in nodes && next == before[k := h(nodes[2 * k], nodes[2 * k + 1])]
    requires forall j: nat {:trigger ParentOk(h, nodes, before, j)} | j in before :: ParentOk(h, nodes, before, j)
    ensures forall j: nat {:trigger ParentOk(h, nodes, next, j)} | j in next :: ParentOk(h, nodes, next, j)
  {
    forall j: nat | j in next ensures ParentOk(h, nodes, next, j) {
      if j != k { assert ParentOk(h, nodes, before, j); }
    }
  }

  lemma {:induction false} ParentKeys(h: TreeHash, nodes: map<nat, Fr>, next: map<nat, Fr>, level: nat)
    requires Paired(nodes, level)
    requires forall k: nat {:trigger k in nodes} | k in nodes :: k / 2 in next
    requires forall k: nat {:trigger ParentOk(h, nodes, next, k)} | k in next :: ParentOk(h, nodes, next, k)
    ensures LevelKeys(next, level + 1)
  {
    forall k: nat ensures k in next <==> k <= Shr(3, level + 1) {
      assert 2 * k / 2 == k;
      assert 2 * k in nodes <==> 2 * k / 2 <= Shr(3, level + 1);
      if k in next { assert ParentOk(h, nodes, next, k); }
    }
  }

  lemma {:induction false} AllReach(h: TreeHash, leaves: seq<Fr>, paths: seq<seq<PathElement>>, nodes: map<nat, Fr>,
                                    next: map<nat, Fr>, level: nat)
    requires |leaves| == |paths| == LEAVES && LevelKeys(next, level + 1)
    requires forall i: nat | i < LEAVES :: Lifted(h, leaves, paths, nodes, level, i)
    requires forall k: nat {:trigger ParentOk(h, nodes, next, k)} | k in next :: ParentOk(h, nodes, next, k)
    ensures PathsReach(h, leaves, paths, next, level + 1)
  {
    var l := level + 1;
    forall i: nat | i < LEAVES
      ensures Shr(i, l) in next && |paths[i]| == l && FoldPath(h, leaves[i], paths[i]) == next[Shr(i, l)]
    {
      AncestorBound(i, l);
      assert Lifted(h, leaves, paths, nodes, level, i);
      assert ParentOk(h, nodes, next, Shr(i, l));
    }
  }

  /** What the siblings of a path are: the paired leaf, the hash of the other two leaves, and above that
      the numbers drawn, one to a level and the same for all four paths. */
  ghost predicate SiblingsAre(h: TreeHash, leaves: seq<Fr>, rand: nat -> Fr, i: nat, path: seq<PathElement>)
    requires |leaves| == LEAVES && i < LEAVES
  {
    forall l: nat | l < |path| ::
      path[l].value == if l == 0 then leaves[Pair(i)]
                       else if l == 1 then (if i < 2 then h(leaves[2], leaves[3]) else h(leaves[0], leaves[1]))
                       else rand(l - 2)
  }

  /** The nodes known at the two lowest levels. */
  ghost predicate KnownNodes(h: TreeHash, leaves: seq<Fr>, nodes: map<nat, Fr>, level: nat)
    requires |leaves| == LEAVES && LevelKeys(nodes, level)
  {
    && (level == 0 ==> forall k: nat | k < 4 :: nodes[k] == leaves[k])
    && (level == 1 ==> nodes[0] == h(leaves[0], leaves[1]) && nodes[1] == h(leaves[2], leaves[3]))
  }

  lemma {:induction false} LowKeys(nodes: map<nat, Fr>, level: nat)
    requires LevelKeys(nodes, level)
    ensures level == 0 ==> forall k: nat | k < 4 :: k in nodes
    ensures level == 1 ==> 0 in nodes && 1 in nodes
  {
    if level == 1 { assert Shr(3, 1) == 1; }
  }

  lemma {:induction false} KnownParents(h: TreeHash, leaves: seq<Fr>, nodes: map<nat, Fr>, next: map<nat, Fr>,
                                        level: nat)
    requires |leaves| == LEAVES && LevelKeys(nodes, level) && LevelKeys(next, level + 1)
    requires KnownNodes(h, leaves, nodes, level)
    requires level == 0 ==>
             forall k: nat {:trigger ParentOk(h, nodes, next, k)} | k in next :: ParentOk(h, nodes, next, k)
    ensures KnownNodes(h, leaves, next, level + 1)
  {
    LowKeys(nodes, level);
    LowKeys(next, level + 1);
    if level == 0 { assert ParentOk(h, nodes, next, 0) && ParentOk(h, nodes, next, 1); }
  }

  lemma {:induction false} SiblingsSnoc(h: TreeHash, leaves: seq<Fr>, rand: nat -> Fr, nodes: map<nat, Fr>, level: nat,
                                        random: Fr, paths: seq<seq<PathElement>>, paths': seq<seq<PathElement>>, i: nat)
    requires |leaves| == |paths| == |paths'| == LEAVES && i < LEAVES && |paths[i]| == level
    requires level >= 2 ==> random == rand(level - 2)
    requires LevelKeys(nodes, level) && KnownNodes(h, leaves, nodes, level)
    requires SiblingsAre(h, leaves, rand, i, paths[i])
    requires Sibled(paths, paths', nodes, level, random, i)
    ensures SiblingsAre(h, leaves, rand, i, paths'[i])
  {
    LowKeys(nodes, level);
    if level == 1 { assert Shr(i, 1) == i / 2; }
    forall l: nat | l < level ensures paths'[i][l] == paths[i][l] { assert paths'[i][..level][l] == paths[i][l]; }
  }

  lemma {:induction false} AllSiblings(h: TreeHash, leaves: seq<Fr>, rand: nat -> Fr, nodes: map<nat, Fr>, level: nat,
                                       random: Fr, paths: seq<seq<PathElement>>, paths': seq<seq<PathElement>>)
    requires level >= 2 ==> random == rand(level - 2)
    requires |leaves| == |paths| == |paths'| == LEAVES && PathsReach(h, leaves, paths, nodes, level)
    requires LevelKeys(nodes, level) && KnownNodes(h, leaves, nodes, level)
    requires forall i: nat | i < LEAVES :: SiblingsAre(h, leaves, rand, i, paths[i])
    requires forall i: nat | i < LEAVES :: Sibled(paths, paths', nodes, level, random, i)
    ensures forall i: nat | i < LEAVES :: SiblingsAre(h, leaves, rand, i, paths'[i])
  {
    forall i: nat | i < LEAVES ensures SiblingsAre(h, leaves, rand, i, paths'[i]) {
      SiblingsSnoc(h, leaves, rand, nodes, level, random, paths, paths', i);
    }
  }

  /** For any four leaves, any random siblings and any depth of at least two, the four paths
      fold to the one root returned. The program uses depth 32. */
  method GenerateRandomPathsWithSharedRoot(h: TreeHash, leaves: seq<Fr>, depth: nat, rand: nat -> Fr)
    returns (proofs: seq<MembershipProof>, root: Fr)
    requires |leaves| == LEAVES && depth >= 2
    ensures |proofs| == LEAVES
    ensures forall i: nat | i < LEAVES ::
              && proofs[i].nodeValue == leaves[i] && proofs[i].leafIndex == i && |proofs[i].siblingPath| == depth
              && FoldPath(h, leaves[i], proofs[i].siblingPath) == root
              && SiblingsAre(h, leaves, rand, i, proofs[i].siblingPath)
              && forall l: nat | l < depth :: proofs[i].siblingPath[l].direction == DirectionAt(i, l)
  {
    var paths: seq<seq<PathElement>> := [[], [], [], []];
    var current: map<nat, Fr>, drawn := map[0 := leaves[0], 1 := leaves[1], 2 := leaves[2], 3 := leaves[3]], 0;
    for level := 0 to depth
      invariant |paths| == LEAVES && LevelKeys(current, level) && PathsReach(h, leaves, paths, current, level)
      invariant DirectionsFollow(paths) && KnownNodes(h, leaves, current, level)
      invariant drawn == if level < 2 then 0 else level - 2
      invariant forall i: nat | i < LEAVES :: SiblingsAre(h, leaves, rand, i, paths[i])
    {
      var nodes;
      ghost var paths0, current0, random := paths, current, rand(drawn);
      paths, nodes, drawn := AddSiblings(h, leaves, paths, current, level, rand, drawn);
      current := BuildParents(h, nodes, level);
      AllReach(h, leaves, paths, nodes, current, level);
      KnownParents(h, leaves, current0, current, level);
      AllSiblings(h, leaves, rand, current0, level, random, paths0, paths);
    }
    root := current[0];
    forall i: nat | i < LEAVES ensures FoldPath(h, leaves[i], paths[i]) == root && |paths[i]| == depth {
      AncestorBound(i, depth);
      assert FoldPath(h, leaves[i], paths[i]) == current[Shr(i, depth)];
    }
    proofs := seq(LEAVES, i requires 0 <= i < LEAVES
      && |paths| == |leaves| == LEAVES => MembershipProof(leaves[i], paths[i], i));
  }
}
