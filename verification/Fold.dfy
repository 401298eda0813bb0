/** The complete-tree fold that every tree is measured against, and the helper functions
    of the tree module: complete trees, path directions, frontier indices, path folds. */
module Fold {
  import opened Basics

  /** Leaves that were never written read as zero. */
  function Leaf(s: seq<Fr>, i: nat): Fr {
    if i < |s| then s[i] else 0
  }

  /** Leaf `x` of the `k`-th block of `2^level` leaves. */
  function BlockLeaf(s: seq<Fr>, level: nat, k: nat, x: nat): Fr {
    Leaf(s, Shl(k, level) + x)
  }

  /** Root of the `k`-th block of `2^level` leaves: the plain recursive fold. */
  function SubRoot(h: (Fr, Fr) -> Fr, s: seq<Fr>, level: nat, k: nat): Fr
    decreases level
  {
    if level == 0 then Leaf(s, k)
    else h(SubRoot(h, s, level - 1, 2 * k), SubRoot(h, s, level - 1, 2 * k + 1))
  }

  /** Block `ka` of `a` and block `kb` of `b` hold the same leaves. */
  ghost predicate SameBlock(level: nat, a: seq<Fr>, ka: nat, b: seq<Fr>, kb: nat) {
    forall x: nat | x < Pow2(level) :: BlockLeaf(a, level, ka, x) == BlockLeaf(b, level, kb, x)
  }

  lemma {:induction false} SameHalf(level: nat, a: seq<Fr>, ka: nat, b: seq<Fr>, kb: nat, bit: nat, ja: nat, jb: nat)
    requires level > 0 && SameBlock(level, a, ka, b, kb)
    requires bit < 2 && ja == 2 * ka + bit && jb == 2 * kb + bit
    ensures SameBlock(level - 1, a, ja, b, jb)
  {
    var low, p := level - 1, Pow2(level - 1);
    HalfBlocks(ka, level);
    HalfBlocks(kb, level);
    forall x: nat | x < p ensures BlockLeaf(a, low, ja, x) == BlockLeaf(b, low, jb, x) {
      var y := if bit == 0 then x else p + x;
      assert BlockLeaf(a, level, ka, y) == BlockLeaf(b, level, kb, y);
    }
  }

  /** A block's root depends on the leaves of that block alone, wherever the block lies. */
  lemma {:induction false} SubRootCong(h: (Fr, Fr) -> Fr, level: nat, a: seq<Fr>, ka: nat, b: seq<Fr>, kb: nat)
    requires SameBlock(level, a, ka, b, kb)
    ensures SubRoot(h, a, level, ka) == SubRoot(h, b, level, kb)
    decreases level
  {
    if level == 0 {
      assert BlockLeaf(a, level, ka, 0) == BlockLeaf(b, level, kb, 0);
    } else {
      SameHalf(level, a, ka, b, kb, 0, 2 * ka, 2 * kb);
      SameHalf(level, a, ka, b, kb, 1, 2 * ka + 1, 2 * kb + 1);
      SubRootCong(h, level - 1, a, 2 * ka, b, 2 * kb);
      SubRootCong(h, level - 1, a, 2 * ka + 1, b, 2 * kb + 1);
    }
  }

  /** A block no leaf has reached folds to zero. */
  lemma {:induction false} EmptyBlock(h: TreeHash, s: seq<Fr>, level: nat, k: nat)
    requires forall x: nat | x < Pow2(level) :: BlockLeaf(s, level, k, x) == 0
    ensures SubRoot(h, s, level, k) == 0
  {
    forall x: nat | x < Pow2(level) ensures BlockLeaf(s, level, k, x) == BlockLeaf([], level, 0, x) {}
    SubRootCong(h, level, s, k, [], 0);
    EmptyTree(h, level, 0);
  }

  lemma {:induction false} EmptyTree(h: TreeHash, level: nat, k: nat)
    ensures SubRoot(h, [], level, k) == 0
  {
    if level > 0 {
      EmptyTree(h, level - 1, 2 * k);
      EmptyTree(h, level - 1, 2 * k + 1);
    }
  }

  /** Folding sub-tree roots is folding leaves: the split of the height is invisible. */
  lemma {:induction false} FoldOfFolds(h: (Fr, Fr) -> Fr, s: seq<Fr>, low: nat, roots: seq<Fr>, level: nat, k: nat)
    requires forall i: nat :: Leaf(roots, i) == SubRoot(h, s, low, i)
    ensures SubRoot(h, roots, level, k) == SubRoot(h, s, low + level, k)
    decreases level
  {
    if level == 0 {
      assert Leaf(roots, k) == SubRoot(h, s, low, k);
    } else {
      FoldOfFolds(h, s, low, roots, level - 1, 2 * k);
      FoldOfFolds(h, s, low, roots, level - 1, 2 * k + 1);
    }
  }

  // ----- Complete trees in heap order

  /** Node `i`, in heap order, of the complete tree of the given height. */
  function NodeVal(h: (Fr, Fr) -> Fr, height: nat, leaves: seq<Fr>, i: nat): Fr
    decreases Pow2(height) - i
  {
    if i >= Pow2(height) - 1 then Leaf(leaves, i - (Pow2(height) - 1))
    else h(NodeVal(h, height, leaves, 2 * i + 1), NodeVal(h, height, leaves, 2 * i + 2))
  }

  /** The nodes of the complete tree from node `i` on. */
  function NodesFrom(h: (Fr, Fr) -> Fr, height: nat, leaves: seq<Fr>, i: nat): (t: seq<Fr>)
    requires i <= 2 * Pow2(height) - 1
    ensures |t| == 2 * Pow2(height) - 1 - i
    decreases 2 * Pow2(height) - i
  {
    if i == 2 * Pow2(height) - 1 then [] else [NodeVal(h, height, leaves, i)] + NodesFrom(h, height, leaves, i + 1)
  }

  function CompleteTree(h: (Fr, Fr) -> Fr, height: nat, leaves: seq<Fr>): (t: seq<Fr>)
    ensures |t| == 2 * Pow2(height) - 1
  {
    NodesFrom(h, height, leaves, 0)
  }

  lemma {:induction false} NodesFromAt(h: (Fr, Fr) -> Fr, height: nat, leaves: seq<Fr>, i: nat, j: nat)
    requires i + j < 2 * Pow2(height) - 1
    ensures NodesFrom(h, height, leaves, i)[j] == NodeVal(h, height, leaves, i + j)
    decreases j
  {
    if j > 0 { NodesFromAt(h, height, leaves, i + 1, j - 1); }
  }

  lemma {:induction false} CompleteTreeAt(h: (Fr, Fr) -> Fr, height: nat, leaves: seq<Fr>, i: nat)
    requires i < 2 * Pow2(height) - 1
    ensures CompleteTree(h, height, leaves)[i] == NodeVal(h, height, leaves, i)
  {
    NodesFromAt(h, height, leaves, 0, i);
  }

  /** Offset `k` of row `d` of the complete tree is the fold of block `k` at level `height - d`. */
  lemma {:induction false} NodeValIsSubRoot(h: (Fr, Fr) -> Fr, height: nat, leaves: seq<Fr>, d: nat, k: nat)
    requires d <= height && k < Pow2(d)
    ensures NodeVal(h, height, leaves, Pow2(d) - 1 + k) == SubRoot(h, leaves, height - d, k)
  {
    NodeIsFold(h, height, leaves, d, k, Pow2(d) - 1 + k);
  }

  lemma {:induction false} NodeIsFold(h: (Fr, Fr) -> Fr, height: nat, leaves: seq<Fr>, d: nat, k: nat, i: nat)
    requires d <= height && k < Pow2(d) && i == Pow2(d) - 1 + k
    ensures NodeVal(h, height, leaves, i) == SubRoot(h, leaves, height - d, k)
    decreases height - d
  {
    if d == height {
      assert i - (Pow2(height) - 1) == k;
    } else {
      var left, right := 2 * i + 1, 2 * i + 2;
      RowChildren(height, d, k, i);
      NodeIsFold(h, height, leaves, d + 1, 2 * k, left);
      NodeIsFold(h, height, leaves, d + 1, 2 * k + 1, right);
      FoldOfChildren(h, height, leaves, d, k, i, left, right);
    }
  }

  lemma {:induction false} FoldOfChildren(h: (Fr, Fr) -> Fr, height: nat, leaves: seq<Fr>, d: nat, k: nat, i: nat,
                                          left: nat, right: nat)
    requires d < height && i < Pow2(height) - 1 && left == 2 * i + 1 && right == 2 * i + 2
    requires NodeVal(h, height, leaves, left) == SubRoot(h, leaves, height - d - 1, 2 * k)
    requires NodeVal(h, height, leaves, right) == SubRoot(h, leaves, height - d - 1, 2 * k + 1)
    ensures NodeVal(h, height, leaves, i) == SubRoot(h, leaves, height - d, k)
  {
  }

  lemma {:induction false} RowChildren(height: nat, d: nat, k: nat, i: nat)
    requires d < height && k < Pow2(d) && i == Pow2(d) - 1 + k
    ensures i < Pow2(height) - 1
    ensures 2 * i + 1 == Pow2(d + 1) - 1 + 2 * k && 2 * i + 2 == Pow2(d + 1) - 1 + (2 * k + 1)
    ensures 2 * k + 1 < Pow2(d + 1)
  {
    Pow2Mono(d + 1, height);
  }

  /** The root of a complete tree is the fold of its leaves. */
  lemma {:induction false} CompleteTreeRoot(h: (Fr, Fr) -> Fr, height: nat, leaves: seq<Fr>)
    ensures CompleteTree(h, height, leaves)[0] == SubRoot(h, leaves, height, 0)
  {
    CompleteTreeAt(h, height, leaves, 0);
    NodeValIsSubRoot(h, height, leaves, 0, 0);
  }

  lemma {:induction false} EveryNode(h: (Fr, Fr) -> Fr, height: nat, leaves: seq<Fr>, tree: seq<Fr>)
    requires |tree| == 2 * Pow2(height) - 1
    requires forall n: nat | n < |tree| :: tree[n] == NodeVal(h, height, leaves, n)
    ensures tree == CompleteTree(h, height, leaves)
  {
    forall n: nat | n < |tree| ensures tree[n] == CompleteTree(h, height, leaves)[n] {
      CompleteTreeAt(h, height, leaves, n);
    }
  }

  /** Fills the heap-ordered node array from the right-hand end; the leaves must fit. */
  method MakeCompleteTree(h: TreeHash, height: nat, leaves: seq<Fr>) returns (tree: seq<Fr>)
    requires |leaves| <= Pow2(height)
    ensures tree == CompleteTree(h, height, leaves)
  {
    var nLeaves := Pow2(height);
    var nNodes := 2 * nLeaves - 1;
    var nodes := new Fr[nNodes](_ => 0);
    var first := nNodes - nLeaves;
    for j := 0 to |leaves|
      invariant forall i | 0 <= i < nNodes :: nodes[i] == if first <= i < first + j then leaves[i - first] else 0
    {
      nodes[first + j] := leaves[j];
    }
    var i := 0;
    ghost var done := 0;
    while i < nNodes - 1
      invariant i == 2 * done && 0 <= done <= nLeaves - 1
      invariant forall n: nat {:trigger nodes[n]} | nLeaves - 1 - done <= n < nNodes ::
                nodes[n] == NodeVal(h, height, leaves, n)
    {
      var index := nNodes - i - 1;
      assert index / 2 - 1 == nLeaves - 2 - done;
      nodes[index / 2 - 1] := h(nodes[index - 1], nodes[index]);
      i, done := i + 2, done + 1;
    }
    tree := nodes[..];
    EveryNode(h, height, leaves, tree);
  }

  // ----- Paths

  datatype Direction = HashWithThisNodeOnLeft | HashWithThisNodeOnRight
  datatype PathElement = PathElement(direction: Direction, value: Fr)
  datatype MembershipProof = MembershipProof(nodeValue: Fr, siblingPath: seq<PathElement>, leafIndex: nat)

  function Combine(h: (Fr, Fr) -> Fr, e: PathElement, v: Fr): Fr {
    match e.direction
    case HashWithThisNodeOnLeft => h(e.value, v)
    case HashWithThisNodeOnRight => h(v, e.value)
  }

  /** What verifying a membership proof computes: the value folded up its sibling path. */
  function FoldPath(h: (Fr, Fr) -> Fr, v: Fr, path: seq<PathElement>): Fr
    decreases |path|
  {
    if path == [] then v else FoldPath(h, Combine(h, path[0], v), path[1..])
  }

  lemma {:induction false} FoldPathAppend(h: (Fr, Fr) -> Fr, v: Fr, p: seq<PathElement>, q: seq<PathElement>)
    ensures FoldPath(h, v, p + q) == FoldPath(h, FoldPath(h, v, p), q)
    decreases |p|
  {
    if p == [] {
      assert p + q == q;
    } else {
      assert (p + q)[1..] == p[1..] + q;
      FoldPathAppend(h, Combine(h, p[0], v), p[1..], q);
    }
  }

  /** The side a path element at `level` is hashed on, for the leaf at `index`. */
  function DirectionAt(index: nat, level: nat): Direction {
    if Shr(index, level) % 2 == 0 then HashWithThisNodeOnRight else HashWithThisNodeOnLeft
  }

  method IndexToDirections(index: nat, height: nat) returns (path: seq<Direction>)
    ensures |path| == height
    ensures forall i | 0 <= i < height :: path[i] == DirectionAt(index, i)
  {
    path := [];
    for i := 0 to height
      invariant |path| == i
      invariant forall j | 0 <= j < i :: path[j] == DirectionAt(index, j)
    {
      var dir := Shr(index, i) % 2;
      if dir == 0 {
        path := path + [HashWithThisNodeOnRight];
      } else {
        path := path + [HashWithThisNodeOnLeft];
      }
    }
  }

  // ----- The frontier index

  /** The number of trailing zero bits. */
  function TwoAdic(n: nat): nat
    requires n > 0
  {
    if n % 2 == 1 then 0 else 1 + TwoAdic(n / 2)
  }

  lemma {:induction false} TwoAdicBits(n: nat)
    requires n > 0
    ensures Shr(n, TwoAdic(n)) % 2 == 1
    ensures forall l: nat | l < TwoAdic(n) :: Shr(n, l) % 2 == 0
    decreases n
  {
    if n % 2 == 0 {
      TwoAdicBits(n / 2);
      forall l: nat | 0 < l <= TwoAdic(n) ensures Shr(n, l) == Shr(n / 2, l - 1) {
        ShrFront(n, l);
      }
    }
  }

  lemma {:induction false} ShrFront(n: nat, l: nat)
    requires l > 0
    ensures Shr(n, l) == Shr(n / 2, l - 1)
  {
    if l > 1 { ShrFront(n, l - 1); }
  }

  /** Any power of two that divides `n` an odd number of times names its two-adic order. */
  lemma {:induction false} TwoAdicUnique(n: nat, e: nat, q: nat)
    requires n == Shl(2 * q + 1, e)
    ensures n > 0 && TwoAdic(n) == e
    decreases e
  {
    if e > 0 { TwoAdicUnique(n / 2, e - 1, q); }
  }

  /** The loop of `get_frontier_index` finds the number of trailing ones of the leaf index. */
  method GetFrontierIndex(leafIndex: nat) returns (index: nat)
    ensures index == TwoAdic(leafIndex + 1)
  {
    index := 0;
    if leafIndex % 2 == 1 {
      var exp1, pow1, pow2 := 1, 2, 4;
      ghost var q := (leafIndex + 1) / 2;
      while index == 0
        invariant exp1 >= 1 && pow1 == Pow2(exp1) && pow2 == 2 * pow1
        invariant leafIndex + 1 == q * pow1 && q > 0
        invariant index != 0 ==> index == TwoAdic(leafIndex + 1)
        decreases if index == 0 then 1 else 0, q
      {
        FrontierTest(leafIndex + 1, q, pow1);
        if (leafIndex + 1 - pow1) % pow2 == 0 {
          index := exp1;
          assert q == 2 * (q / 2) + 1;
          ShlIsProduct(q, exp1);
          TwoAdicUnique(leafIndex + 1, exp1, q / 2);
        } else {
          assert q == 2 * (q / 2);
          assert (q / 2) * (2 * pow1) == q * pow1;
          pow1 := pow2;
          pow2 := 2 * pow2;
          exp1 := exp1 + 1;
          q := q / 2;
        }
      }
    }
  }

  /** The test of the frontier loop asks whether the power goes in an odd number of times. */
  lemma {:induction false} FrontierTest(n: nat, q: nat, p: nat)
    requires p > 0 && q > 0 && n == q * p
    ensures n >= p
    ensures (n - p) % (2 * p) == 0 <==> q % 2 == 1
  {
    var r := (q - 1) / 2;
    OddAndEvenMultiples(r, p);
    assert q == 2 * r + 1 || q == 2 * r + 2;
  }

  lemma {:induction false} OddAndEvenMultiples(r: nat, p: nat)
    requires p > 0
    ensures (2 * r + 1) * p >= p && ((2 * r + 1) * p - p) % (2 * p) == 0
    ensures (2 * r + 2) * p >= p && ((2 * r + 2) * p - p) % (2 * p) == p
  {
    assert (2 * r + 1) * p - p == r * (2 * p);
    assert (2 * r + 2) * p - p == r * (2 * p) + p;
    DivisionUnique(r * (2 * p), 2 * p, r, 0);
    DivisionUnique(r * (2 * p) + p, 2 * p, r, p);
  }
}
