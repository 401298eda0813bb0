/** Trees stored as maps from heap indices to values, and the two kinds of write the trees
    make to them: a path up to the root and a block of nodes hung below a node. */
module Heap {
  import opened Basics
  import opened Fold

  type Nodes = map<nat, Fr>

  /** Nodes that are not stored read as zero. */
  function Get(m: Nodes, i: nat): Fr {
    if i in m then m[i] else 0
  }

  function Parent(i: nat): nat
    requires i > 0
  {
    (i - 1) / 2
  }

  ghost predicate NodeOk(h: TreeHash, m: Nodes, i: nat) {
    Get(m, i) == h(Get(m, 2 * i + 1), Get(m, 2 * i + 2))
  }

  /** Every internal node is the hash of its two children. */
  ghost predicate Coherent(h: TreeHash, m: Nodes, height: nat) {
    forall i: nat | i < Pow2(height) - 1 :: NodeOk(h, m, i)
  }

  /** The bottom row. */
  ghost function LeavesOf(m: Nodes, height: nat): (s: seq<Fr>)
    ensures |s| == Pow2(height)
  {
    seq<Fr>(Pow2(height), (x: nat) => Get(m, Pow2(height) - 1 + x))
  }

  /** A coherent map is the complete tree over its bottom row, node for node. */
  lemma {:induction false} CoherentIsComplete(h: TreeHash, m: Nodes, height: nat, i: nat)
    requires Coherent(h, m, height) && i < 2 * Pow2(height) - 1
    ensures Get(m, i) == NodeVal(h, height, LeavesOf(m, height), i)
    decreases Pow2(height) - i
  {
    if i < Pow2(height) - 1 {
      assert NodeOk(h, m, i);
      CoherentIsComplete(h, m, height, 2 * i + 1);
      CoherentIsComplete(h, m, height, 2 * i + 2);
    }
  }

  lemma {:induction false} CoherentRoot(h: TreeHash, m: Nodes, height: nat)
    requires Coherent(h, m, height)
    ensures Get(m, 0) == SubRoot(h, LeavesOf(m, height), height, 0)
  {
    CoherentIsComplete(h, m, height, 0);
    NodeValIsSubRoot(h, height, LeavesOf(m, height), 0, 0);
  }

  /** The bottom row determines every node above it. */
  lemma {:induction false} LeavesDetermineNodes(h: TreeHash, m: Nodes, n: Nodes, height: nat)
    requires Coherent(h, m, height) && Coherent(h, n, height)
    requires LeavesOf(m, height) == LeavesOf(n, height)
    ensures forall i: nat | i < 2 * Pow2(height) - 1 :: Get(m, i) == Get(n, i)
  {
    forall i: nat | i < 2 * Pow2(height) - 1 ensures Get(m, i) == Get(n, i) {
      CoherentIsComplete(h, m, height, i);
      CoherentIsComplete(h, n, height, i);
    }
  }

  // ----- Sibling paths

  function Sibling(m: Nodes, i: nat): PathElement
    requires i > 0
  {
    if i % 2 == 0 then PathElement(HashWithThisNodeOnLeft, Get(m, i - 1))
    else PathElement(HashWithThisNodeOnRight, Get(m, i + 1))
  }

  function SiblingPath(m: Nodes, i: nat): seq<PathElement> {
    if i == 0 then [] else [Sibling(m, i)] + SiblingPath(m, Parent(i))
  }

  /** In a coherent map every node folds up its siblings to the root. */
  lemma {:induction false} CoherentFold(h: TreeHash, m: Nodes, height: nat, i: nat)
    requires Coherent(h, m, height) && i < 2 * Pow2(height) - 1
    ensures FoldPath(h, Get(m, i), SiblingPath(m, i)) == Get(m, 0)
  {
    if i > 0 {
      assert NodeOk(h, m, Parent(i));
      assert SiblingPath(m, i)[1..] == SiblingPath(m, Parent(i));
      CoherentFold(h, m, height, Parent(i));
    }
  }

  /** A node lies in row `d`. */
  ghost predicate InRow(i: nat, d: nat) {
    Pow2(d) - 1 <= i < 2 * Pow2(d) - 1
  }

  lemma {:induction false} ParentRow(i: nat, d: nat)
    requires InRow(i, d) && d > 0
    ensures i > 0 && InRow(Parent(i), d - 1)
  {
  }

  lemma {:induction false} SiblingPathLength(m: Nodes, i: nat, d: nat)
    requires InRow(i, d)
    ensures |SiblingPath(m, i)| == d
  {
    if d > 0 {
      ParentRow(i, d);
      SiblingPathLength(m, Parent(i), d - 1);
    }
  }

  /** The node `n` rows above, or the root. */
  function Ancestor(i: nat, n: nat): nat {
    if n == 0 || i == 0 then i else Ancestor(Parent(i), n - 1)
  }

  /** Dropping the first elements of a path gives the path of the node that many rows above. */
  lemma {:induction false} PathAbove(m: Nodes, i: nat, n: nat)
    requires n <= |SiblingPath(m, i)|
    ensures SiblingPath(m, i)[n..] == SiblingPath(m, Ancestor(i, n))
    decreases n
  {
    if n > 0 {
      PathAbove(m, Parent(i), n - 1);
      assert SiblingPath(m, i)[n..] == SiblingPath(m, Parent(i))[n - 1..];
    }
  }

  /** The first leaf of the `k`-th block of height `e` lies `e` rows below the block's node. */
  lemma {:induction false} BlockAncestor(d: nat, k: nat, e: nat)
    ensures Ancestor(Pow2(d + e) - 1 + Shl(k, e), e) == Pow2(d) - 1 + k
  {
    if e > 0 {
      RowParent(d + e, Shl(k, e));
      BlockAncestor(d, k, e - 1);
    }
  }

  lemma {:induction false} RowParent(d: nat, k: nat)
    requires d > 0
    ensures Parent(Pow2(d) - 1 + k) == Pow2(d - 1) - 1 + k / 2
    ensures (Pow2(d) - 1 + k) % 2 == 0 <==> k % 2 == 1
  {
  }

  // ----- Writing a path

  /** Sets node `i` to `v` and rehashes its ancestors, reading siblings from `m`. */
  function PathWrites(h: TreeHash, m: Nodes, i: nat, v: Fr): Nodes
    decreases i
  {
    if i == 0 then map[0 := v]
    else map[i := v] + PathWrites(h, m, Parent(i), Combine(h, Sibling(m, i), v))
  }

  lemma {:induction false} PathWritesKeys(h: TreeHash, m: Nodes, i: nat, v: Fr)
    ensures i in PathWrites(h, m, i, v) && PathWrites(h, m, i, v)[i] == v
    ensures forall j | j in PathWrites(h, m, i, v) :: j <= i && (j < i ==> 2 * j < i)
    ensures forall j | j in PathWrites(h, m, i, v) && j > 0 :: Parent(j) in PathWrites(h, m, i, v)
  {
    if i > 0 { PathWritesKeys(h, m, Parent(i), Combine(h, Sibling(m, i), v)); }
  }

  lemma {:induction false} PathWritesRoot(h: TreeHash, m: Nodes, i: nat, v: Fr)
    ensures 0 in PathWrites(h, m, i, v)
    ensures PathWrites(h, m, i, v)[0] == FoldPath(h, v, SiblingPath(m, i))
    decreases i
  {
    if i > 0 {
      var v' := Combine(h, Sibling(m, i), v);
      PathWritesRoot(h, m, Parent(i), v');
      assert SiblingPath(m, i)[1..] == SiblingPath(m, Parent(i));
    }
  }

  /** The set of written nodes does not depend on the values. */
  lemma {:induction false} PathWritesSameKeys(h: TreeHash, m: Nodes, n: Nodes, i: nat, v: Fr, w: Fr)
    ensures PathWrites(h, m, i, v).Keys == PathWrites(h, n, i, w).Keys
    decreases i
  {
    if i > 0 {
      PathWritesSameKeys(h, m, n, Parent(i), Combine(h, Sibling(m, i), v), Combine(h, Sibling(n, i), w));
    }
  }

  lemma {:induction false} NodeOkAfter(h: TreeHash, m: Nodes, w: Nodes, i: nat, v: Fr, j: nat)
    requires NodeOk(h, m + w, j) && i != j && i != 2 * j + 1 && i != 2 * j + 2
    ensures NodeOk(h, m + (map[i := v] + w), j)
  {
  }

  lemma {:induction false} ParentRehashed(h: TreeHash, m: Nodes, w: Nodes, i: nat, v: Fr)
    requires i > 0 && Parent(i) in w && w[Parent(i)] == Combine(h, Sibling(m, i), v)
    requires forall j | j in w :: j <= Parent(i)
    ensures NodeOk(h, m + (map[i := v] + w), Parent(i))
  {
    var p, s := Parent(i), if i % 2 == 0 then i - 1 else i + 1;
    assert s > p && s != i && s !in w && i !in w;
    assert Get(m + (map[i := v] + w), s) == Get(m, s);
  }

  /** Every rehashed ancestor agrees with its children after the write. */
  lemma {:induction false} PathWritesOk(h: TreeHash, m: Nodes, i: nat, v: Fr, j: nat)
    requires j in PathWrites(h, m, i, v) && j != i
    ensures NodeOk(h, m + PathWrites(h, m, i, v), j)
    decreases i
  {
    PathWritesKeys(h, m, i, v);
    if i > 0 {
      var p, v' := Parent(i), Combine(h, Sibling(m, i), v);
      PathWritesKeys(h, m, p, v');
      if j == p {
        ParentRehashed(h, m, PathWrites(h, m, p, v'), i, v);
      } else {
        PathWritesOk(h, m, p, v', j);
        NodeOkAfter(h, m, PathWrites(h, m, p, v'), i, v, j);
      }
    }
  }

  // ----- Hanging a block of nodes below a node

  /** The heap index of node `q` of a tree whose root sits at node `r`. */
  function Below(r: nat, q: nat): nat {
    if q == 0 then r
    else if q % 2 == 1 then 2 * Below(r, Parent(q)) + 1
    else 2 * Below(r, Parent(q)) + 2
  }

  /** The inverse of `Below`: the place of `i` in the tree rooted at `r`, or -1. */
  function Place(r: nat, i: nat): (q: int)
    ensures q >= -1
  {
    if i == r then 0
    else if i < r then -1
    else
      var p := Place(r, Parent(i));
      if p < 0 then -1 else if i % 2 == 1 then 2 * p + 1 else 2 * p + 2
  }

  lemma {:induction false} PlaceOfBelow(r: nat, q: nat)
    ensures Below(r, q) >= r + q && Place(r, Below(r, q)) == q
  {
    if q > 0 {
      PlaceOfBelow(r, Parent(q));
      ChildOf(q);
      ParentOf(Below(r, Parent(q)));
    }
  }

  lemma {:induction false} ChildOf(q: nat)
    requires q > 0
    ensures q == 2 * Parent(q) + if q % 2 == 1 then 1 else 2
  {
  }

  lemma {:induction false} ParentOf(p: nat)
    ensures Parent(2 * p + 1) == p && Parent(2 * p + 2) == p
    ensures (2 * p + 1) % 2 == 1 && (2 * p + 2) % 2 == 0
  {
  }

  lemma {:induction false} BelowOfPlace(r: nat, i: nat)
    ensures Place(r, i) >= 0 ==> i >= r && Below(r, Place(r, i)) == i
  {
    if i > r {
      BelowOfPlace(r, Parent(i));
      ChildOf(i);
      var p := Place(r, Parent(i));
      if p >= 0 { ParentOf(p); }
    }
  }

  /** The first node of row `e` of the tree rooted at `r`. */
  function RowStart(r: nat, e: nat): nat {
    if e == 0 then r else 2 * RowStart(r, e - 1) + 1
  }

  lemma {:induction false} BelowRow(r: nat, e: nat, t: nat)
    requires t < Pow2(e)
    ensures Below(r, Pow2(e) - 1 + t) == RowStart(r, e) + t
  {
    if e > 0 {
      RowParent(e, t);
      BelowRow(r, e - 1, t / 2);
      assert t == 2 * (t / 2) + t % 2;
    }
  }

  lemma {:induction false} RowStartOf(d: nat, k: nat, e: nat)
    ensures RowStart(Pow2(d) - 1 + k, e) == Pow2(d + e) - 1 + Shl(k, e)
  {
    if e > 0 {
      RowStartOf(d, k, e - 1);
    }
  }

  lemma {:induction false} BelowMono(r: nat, a: nat, b: nat)
    requires a < b
    ensures Below(r, a) < Below(r, b)
    decreases b
  {
    PlaceOfBelow(r, b);
    if a > 0 && Parent(a) < Parent(b) { BelowMono(r, Parent(a), Parent(b)); }
  }

  /** The first `n` nodes of `sub`, without its root, placed below `r`. */
  function Block(r: nat, sub: seq<Fr>, n: nat): Nodes
    requires n <= |sub|
  {
    if n <= 1 then map[] else Block(r, sub, n - 1)[Below(r, n - 1) := sub[n - 1]]
  }

  lemma {:induction false} BlockContents(r: nat, sub: seq<Fr>, n: nat)
    requires n <= |sub|
    ensures forall i: nat {:trigger i in Block(r, sub, n)} :: i in Block(r, sub, n) <==> 0 < Place(r, i) < n
    ensures forall i: nat {:trigger i in Block(r, sub, n)} | i in Block(r, sub, n) ::
            0 < Place(r, i) < n && Block(r, sub, n)[i] == sub[Place(r, i)]
  {
    if n > 1 {
      BlockContents(r, sub, n - 1);
      PlaceOfBelow(r, n - 1);
      forall i: nat ensures Place(r, i) == n - 1 <==> i == Below(r, n - 1) { BelowOfPlace(r, i); }
    }
  }

  /** All the writes of putting the tree `sub` at node `r`. */
  function SubTreeWrites(h: TreeHash, m: Nodes, r: nat, sub: seq<Fr>): Nodes
    requires |sub| > 0
  {
    PathWrites(h, m, r, sub[0]) + Block(r, sub, |sub|)
  }

  lemma {:induction false} SubTreeWritesSameKeys(h: TreeHash, m: Nodes, n: Nodes, r: nat, sub: seq<Fr>, sub': seq<Fr>)
    requires |sub| == |sub'| > 0
    ensures SubTreeWrites(h, m, r, sub).Keys == SubTreeWrites(h, n, r, sub').Keys
  {
    PathWritesSameKeys(h, m, n, r, sub[0], sub'[0]);
    BlockContents(r, sub, |sub|);
    BlockContents(r, sub', |sub'|);
    assert Block(r, sub, |sub|).Keys == Block(r, sub', |sub'|).Keys;
  }

  /** The map after putting the tree `sub` at node `r`. */
  function Written(h: TreeHash, m: Nodes, r: nat, sub: seq<Fr>): Nodes
    requires |sub| > 0
  {
    m + SubTreeWrites(h, m, r, sub)
  }

  /** What a node at or below `r` reads as after the writes. */
  lemma {:induction false} WrittenInside(h: TreeHash, m: Nodes, r: nat, sub: seq<Fr>, i: nat)
    requires |sub| > 0 && 0 <= Place(r, i) < |sub|
    ensures Get(Written(h, m, r, sub), i) == sub[Place(r, i)]
  {
    BlockContents(r, sub, |sub|);
    PathWritesKeys(h, m, r, sub[0]);
    BelowOfPlace(r, i);
  }

  lemma {:induction false} WrittenBelow(h: TreeHash, m: Nodes, r: nat, sub: seq<Fr>, q: nat)
    requires q < |sub|
    ensures Get(Written(h, m, r, sub), Below(r, q)) == sub[q]
  {
    PlaceOfBelow(r, q);
    WrittenInside(h, m, r, sub, Below(r, q));
  }

  /** What a node elsewhere reads as after the writes. */
  lemma {:induction false} WrittenOutside(h: TreeHash, m: Nodes, r: nat, sub: seq<Fr>, i: nat)
    requires |sub| > 0 && !(0 < Place(r, i) < |sub|)
    ensures Get(Written(h, m, r, sub), i) == Get(m + PathWrites(h, m, r, sub[0]), i)
  {
    BlockContents(r, sub, |sub|);
  }

  /** Where the bottom row of the tree of height `e` at offset `k` of row `d` lies. */
  lemma {:induction false} BottomRow(d: nat, k: nat, e: nat, t: nat)
    requires k < Pow2(d) && t < Pow2(e)
    ensures Below(Pow2(d) - 1 + k, Pow2(e) - 1 + t) == Pow2(d + e) - 1 + Shl(k, e) + t
    ensures Shl(k, e) + t < Pow2(d + e)
  {
    BelowRow(Pow2(d) - 1 + k, e, t);
    RowStartOf(d, k, e);
    LastBlock(d, k, e);
  }

  /** A node of the whole tree that lies below `r` is internal there iff it is internal here. */
  lemma {:induction false} PlaceInternal(d: nat, k: nat, e: nat, r: nat, i: nat)
    requires k < Pow2(d) && r == Pow2(d) - 1 + k && Place(r, i) >= 0
    ensures i < Pow2(d + e) - 1 <==> Place(r, i) < Pow2(e) - 1
  {
    var q := Place(r, i);
    BelowOfPlace(r, i);
    if q < Pow2(e) - 1 {
      AboveRow(r, d, k, e, q);
    } else {
      BottomRow(d, k, e, 0);
      if q > Pow2(e) - 1 { BelowMono(r, Pow2(e) - 1, q); }
    }
  }

  lemma {:induction false} PlaceRange(d: nat, k: nat, e: nat, r: nat, i: nat)
    requires k < Pow2(d) && r == Pow2(d) - 1 + k && Place(r, i) >= 0
    ensures i < Pow2(d + e) - 1 <==> Place(r, i) < Pow2(e) - 1
    ensures i < 2 * Pow2(d + e) - 1 ==> Place(r, i) < 2 * Pow2(e) - 1
  {
    PlaceInternal(d, k, e, r, i);
    PlaceInternal(d, k, e + 1, r, i);
    assert Pow2(d + (e + 1)) == 2 * Pow2(d + e);
  }

  /** Nodes of the block above its bottom row lie above the bottom row of the whole tree. */
  lemma {:induction false} AboveRow(r: nat, d: nat, k: nat, e: nat, q: nat)
    requires r == Pow2(d) - 1 + k && k < Pow2(d) && q < Pow2(e) - 1
    ensures Below(r, q) < Pow2(d + e) - 1
    decreases e
  {
    if e == 1 {
      assert q == 0;
    } else if q >= Pow2(e - 1) - 1 {
      var t := q - (Pow2(e - 1) - 1);
      BelowRow(r, e - 1, t);
      RowStartOf(d, k, e - 1);
      LastBlock(d, k, e - 1);
    } else {
      AboveRow(r, d, k, e - 1, q);
    }
  }

  // ----- What a sub-tree write does to a coherent tree

  lemma {:induction false} NodeInside(h: TreeHash, m: Nodes, r: nat, sub: seq<Fr>, i: nat, q: nat)
    requires Place(r, i) == q && 2 * q + 2 < |sub| && sub[q] == h(sub[2 * q + 1], sub[2 * q + 2])
    ensures NodeOk(h, Written(h, m, r, sub), i)
  {
    BelowOfPlace(r, i);
    ParentOf(i);
    WrittenInside(h, m, r, sub, i);
    WrittenInside(h, m, r, sub, 2 * i + 1);
    WrittenInside(h, m, r, sub, 2 * i + 2);
  }

  lemma {:induction false} NodeElsewhere(h: TreeHash, m: Nodes, r: nat, sub: seq<Fr>, i: nat)
    requires |sub| > 0 && Place(r, i) < 0 && NodeOk(h, m, i)
    ensures NodeOk(h, Written(h, m, r, sub), i)
  {
    ParentOf(i);
    WrittenOutside(h, m, r, sub, i);
    WrittenOutside(h, m, r, sub, 2 * i + 1);
    WrittenOutside(h, m, r, sub, 2 * i + 2);
    PathWritesKeys(h, m, r, sub[0]);
    if i in PathWrites(h, m, r, sub[0]) { PathWritesOk(h, m, r, sub[0], i); }
  }

  /** Putting a complete tree of height `e` at offset `k` of row `d` keeps the tree coherent. */
  lemma {:induction false} WrittenCoherent(h: TreeHash, m: Nodes, d: nat, k: nat, e: nat, batch: seq<Fr>, r: nat,
                                           sub: seq<Fr>)
    requires k < Pow2(d) && Coherent(h, m, d + e)
    requires r == Pow2(d) - 1 + k && sub == CompleteTree(h, e, batch)
    ensures Coherent(h, Written(h, m, r, sub), d + e)
  {
    forall i: nat | i < Pow2(d + e) - 1 ensures NodeOk(h, Written(h, m, r, sub), i) {
      if Place(r, i) >= 0 {
        PlaceRange(d, k, e, r, i);
        var q := Place(r, i);
        CompleteTreeAt(h, e, batch, q);
        CompleteTreeAt(h, e, batch, 2 * q + 1);
        CompleteTreeAt(h, e, batch, 2 * q + 2);
        NodeInside(h, m, r, sub, i, q);
      } else {
        NodeElsewhere(h, m, r, sub, i);
      }
    }
  }

  /** A leaf of the written block. */
  lemma {:induction false} WrittenLeafInside(h: TreeHash, m: Nodes, d: nat, k: nat, e: nat, batch: seq<Fr>, r: nat,
                                             sub: seq<Fr>, t: nat)
    requires k < Pow2(d) && t < Pow2(e)
    requires r == Pow2(d) - 1 + k && sub == CompleteTree(h, e, batch)
    ensures Get(Written(h, m, r, sub), Pow2(d + e) - 1 + Shl(k, e) + t) == Leaf(batch, t)
  {
    BottomRow(d, k, e, t);
    WrittenBelow(h, m, r, sub, Pow2(e) - 1 + t);
    CompleteTreeAt(h, e, batch, Pow2(e) - 1 + t);
  }

  /** Every other leaf keeps its value. */
  lemma {:induction false} WrittenLeafOutside(h: TreeHash, m: Nodes, d: nat, k: nat, e: nat, r: nat, sub: seq<Fr>,
                                              x: nat)
    requires k < Pow2(d) && x < Pow2(d + e) && r == Pow2(d) - 1 + k && |sub| == 2 * Pow2(e) - 1
    requires !(Shl(k, e) <= x < Shl(k, e) + Pow2(e))
    ensures Get(Written(h, m, r, sub), Pow2(d + e) - 1 + x) == Get(m, Pow2(d + e) - 1 + x)
  {
    var i := Pow2(d + e) - 1 + x;
    LeafNotBelow(d, k, e, r, x);
    WrittenOutside(h, m, r, sub, i);
    Pow2Mono(d, d + e);
    OffPath(h, m, r, sub[0], i);
  }

  lemma {:induction false} OffPath(h: TreeHash, m: Nodes, r: nat, v: Fr, i: nat)
    requires i != r && r <= 2 * i
    ensures i !in PathWrites(h, m, r, v)
  {
    PathWritesKeys(h, m, r, v);
  }

  lemma {:induction false} LeafNotBelow(d: nat, k: nat, e: nat, r: nat, x: nat)
    requires k < Pow2(d) && x < Pow2(d + e) && r == Pow2(d) - 1 + k
    requires !(Shl(k, e) <= x < Shl(k, e) + Pow2(e))
    ensures Place(r, Pow2(d + e) - 1 + x) < 0
  {
    var i := Pow2(d + e) - 1 + x;
    if Place(r, i) >= 0 {
      PlaceRange(d, k, e, r, i);
      BelowOfPlace(r, i);
      BottomRow(d, k, e, Place(r, i) - (Pow2(e) - 1));
    }
  }

  /** Overwrites a stretch of a sequence. */
  ghost function Splice(s: seq<Fr>, at: nat, batch: seq<Fr>): (t: seq<Fr>)
    requires at + |batch| <= |s|
    ensures |t| == |s|
  {
    s[..at] + batch + s[at + |batch|..]
  }

  /** The bottom row changes in the block's range and nowhere else. */
  lemma {:induction false} WrittenLeaves(h: TreeHash, m: Nodes, d: nat, k: nat, e: nat, batch: seq<Fr>, r: nat,
                                         sub: seq<Fr>)
    requires k < Pow2(d) && |batch| == Pow2(e)
    requires r == Pow2(d) - 1 + k && sub == CompleteTree(h, e, batch)
    ensures Shl(k, e) + |batch| <= Pow2(d + e)
    ensures LeavesOf(Written(h, m, r, sub), d + e) == Splice(LeavesOf(m, d + e), Shl(k, e), batch)
  {
    LastBlock(d, k, e);
    var height := d + e;
    var a, b := LeavesOf(Written(h, m, r, sub), height), Splice(LeavesOf(m, height), Shl(k, e), batch);
    forall x: nat | x < Pow2(height) ensures a[x] == b[x] {
      if Shl(k, e) <= x < Shl(k, e) + Pow2(e) {
        WrittenLeafInside(h, m, d, k, e, batch, r, sub, x - Shl(k, e));
      } else {
        WrittenLeafOutside(h, m, d, k, e, r, sub, x);
      }
    }
  }

  /** The nodes of the map all belong to a tree of the given height. */
  ghost predicate InTree(m: Nodes, height: nat) {
    forall i | i in m :: i < 2 * Pow2(height) - 1
  }

  lemma {:induction false} SubTreeWriteRange(h: TreeHash, m: Nodes, d: nat, k: nat, e: nat, r: nat, sub: seq<Fr>)
    requires k < Pow2(d) && r == Pow2(d) - 1 + k && |sub| == 2 * Pow2(e) - 1
    ensures InTree(SubTreeWrites(h, m, r, sub), d + e)
  {
    Pow2Mono(d, d + e);
    PathWritesKeys(h, m, r, sub[0]);
    BlockRange(d, k, e, r, sub);
  }

  lemma {:induction false} BlockRange(d: nat, k: nat, e: nat, r: nat, sub: seq<Fr>)
    requires k < Pow2(d) && r == Pow2(d) - 1 + k && |sub| == 2 * Pow2(e) - 1
    ensures InTree(Block(r, sub, |sub|), d + e)
  {
    BlockContents(r, sub, |sub|);
    forall i | i in Block(r, sub, |sub|) ensures i < 2 * Pow2(d + e) - 1 {
      BelowOfPlace(r, i);
      AboveRow(r, d, k, e + 1, Place(r, i));
    }
  }

  /** The root after a sub-tree write is the sub-tree's root folded up the old siblings. */
  lemma {:induction false} WrittenRoot(h: TreeHash, m: Nodes, r: nat, sub: seq<Fr>)
    requires |sub| > 0
    ensures Get(Written(h, m, r, sub), 0) == FoldPath(h, sub[0], SiblingPath(m, r))
  {
    PathWritesRoot(h, m, r, sub[0]);
    WrittenOutside(h, m, r, sub, 0);
  }

  /** Writing a path from a node changes none of the siblings along it. */
  lemma {:induction false} SiblingsKept(h: TreeHash, m: Nodes, n: Nodes, i: nat, v: Fr)
    requires forall j: nat | j <= i + 1 && j !in PathWrites(h, m, i, v) :: Get(n, j) == Get(m, j)
    ensures SiblingPath(n, i) == SiblingPath(m, i)
    decreases i
  {
    if i > 0 {
      var p, v' := Parent(i), Combine(h, Sibling(m, i), v);
      PathWritesKeys(h, m, i, v);
      assert Sibling(n, i) == Sibling(m, i);
      if p > 0 {
        assert forall j: nat | j <= p + 1 && j !in PathWrites(h, m, p, v') :: j !in PathWrites(h, m, i, v);
        SiblingsKept(h, m, n, p, v');
      }
    }
  }

  /** So a leaf written anywhere keeps its own proof. */
  lemma {:induction false} OwnPathKept(h: TreeHash, m: Nodes, r: nat, sub: seq<Fr>)
    requires |sub| == 1
    ensures SiblingPath(Written(h, m, r, sub), r) == SiblingPath(m, r)
  {
    forall j: nat | j <= r + 1 && j !in PathWrites(h, m, r, sub[0])
      ensures Get(Written(h, m, r, sub), j) == Get(m, j) { WrittenOutside(h, m, r, sub, j); }
    SiblingsKept(h, m, Written(h, m, r, sub), r, sub[0]);
  }
}
