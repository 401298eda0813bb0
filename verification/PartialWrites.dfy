/** Writes that need not fit the tree: a climb of any number of rows from any node, with a block of
    any depth hung below it. When do they keep every internal node the hash of its children? */
module PartialWrites {
  import opened Basics
  import opened Fold
  import opened Heap
  import opened MutableSpec

  /** The nodes a climb writes: the start, its ancestors up to the end, nothing else. */
  lemma {:induction false} ClimbNodes(h: TreeHash, m: Nodes, i: nat, v: Fr, n: nat)
    requires i >= Pow2(n) - 1
    ensures var (hash, w) := Climb(h, m, i, v, n);
            && i in w && w[i] == v && Ancestor(i, n) in w && w[Ancestor(i, n)] == hash
            && (forall x | x in w :: Ancestor(i, n) <= x <= i)
            && (forall x | x in w && x != Ancestor(i, n) :: x > 0 && Parent(x) in w)
    decreases n
  {
    if n > 0 { ClimbNodes(h, m, Parent(i), Combine(h, Sibling(m, i), v), n - 1); }
  }

  /** Every ancestor written is the hash of its children. */
  lemma {:induction false} ClimbOk(h: TreeHash, m: Nodes, i: nat, v: Fr, n: nat, j: nat)
    requires i >= Pow2(n) - 1 && j in Climb(h, m, i, v, n).1 && j != i
    ensures NodeOk(h, m + Climb(h, m, i, v, n).1, j)
    decreases n
  {
    if n > 0 {
      var p, v' := Parent(i), Combine(h, Sibling(m, i), v);
      var w := Climb(h, m, p, v', n - 1).1;
      ClimbNodes(h, m, p, v', n - 1);
      if j == p {
        ParentRehashed(h, m, w, i, v);
      } else {
        ClimbOk(h, m, p, v', n - 1, j);
        NodeOkAfter(h, m, w, i, v, j);
      }
    }
  }

  /** The whole write: a climb of `up` rows from node `r` and the nodes of `top` below it. */
  ghost function PartialWrite(h: TreeHash, m: Nodes, r: nat, top: seq<Fr>, up: nat): Nodes
    requires r >= Pow2(up) - 1 && |top| > 0
  {
    m + (Climb(h, m, r, top[0], up).1 + Block(r, top, |top|))
  }

  /** The tree on top of which the climb ends, if it does not reach the root. */
  ghost predicate Attached(h: TreeHash, m: Nodes, height: nat, a: nat, hash: Fr) {
    a > 0 && Parent(a) < Pow2(height) - 1 ==> Get(m, Parent(a)) == Combine(h, Sibling(m, a), hash)
  }

  /** The last row written is there already, wherever it has rows of the tree below it. */
  ghost predicate BottomFits(m: Nodes, height: nat, r: nat, top: seq<Fr>) {
    forall q: nat | q < |top| <= 2 * q + 2 && Below(r, q) < Pow2(height) - 1 :: Get(m, Below(r, q)) == top[q]
  }

  /** The rows written belong together. */
  ghost predicate TopOk(h: TreeHash, top: seq<Fr>) {
    forall q: nat | 2 * q + 2 < |top| :: top[q] == h(top[2 * q + 1], top[2 * q + 2])
  }

  /** What a node reads as afterwards. */
  lemma {:induction false} PartialAt(h: TreeHash, m: Nodes, r: nat, top: seq<Fr>, up: nat, x: nat)
    requires r >= Pow2(up) - 1 && |top| > 0
    ensures Get(PartialWrite(h, m, r, top, up), x)
            == if 0 <= Place(r, x) < |top| then top[Place(r, x)] else Get(m + Climb(h, m, r, top[0], up).1, x)
  {
    ClimbNodes(h, m, r, top[0], up);
    BlockContents(r, top, |top|);
    BelowOfPlace(r, x);
  }

  lemma {:induction false} ChildPlaces(r: nat, j: nat)
    ensures Place(r, j) >= 0 ==>
            Place(r, 2 * j + 1) == 2 * Place(r, j) + 1 && Place(r, 2 * j + 2) == 2 * Place(r, j) + 2 && r <= j
    ensures Place(r, j) < 0 ==> Place(r, 2 * j + 1) <= 0 && Place(r, 2 * j + 2) <= 0
  {
    BelowOfPlace(r, j);
    ParentOf(j);
  }

  /** A node at or below `r`. */
  lemma {:induction false} InsideOk(h: TreeHash, m: Nodes, r: nat, top: seq<Fr>, up: nat, j: nat)
    requires r >= Pow2(up) - 1 && |top| > 0 && |top| % 2 == 1 && TopOk(h, top) && NodeOk(h, m, j) && Place(r, j) >= 0
    ensures NodeOk(h, PartialWrite(h, m, r, top, up), j)
            <==> (Place(r, j) < |top| <= 2 * Place(r, j) + 2 ==> Get(m, j) == top[Place(r, j)])
  {
    var q := Place(r, j);
    ChildPlaces(r, j);
    OddLength(|top|, q);
    InsideSees(h, m, r, top, up, j);
    InsideSees(h, m, r, top, up, 2 * j + 1);
    InsideSees(h, m, r, top, up, 2 * j + 2);
    if 2 * q + 2 < |top| { assert top[q] == h(top[2 * q + 1], top[2 * q + 2]); }
  }

  lemma {:induction false} InsideSees(h: TreeHash, m: Nodes, r: nat, top: seq<Fr>, up: nat, x: nat)
    requires r >= Pow2(up) - 1 && |top| > 0 && Place(r, x) >= 0
    ensures Get(PartialWrite(h, m, r, top, up), x) == if Place(r, x) < |top| then top[Place(r, x)] else Get(m, x)
  {
    PartialAt(h, m, r, top, up, x);
    ClimbNodes(h, m, r, top[0], up);
    BelowOfPlace(r, x);
  }

  lemma {:induction false} OddLength(n: nat, q: nat)
    requires n % 2 == 1
    ensures 2 * q + 1 < n <==> 2 * q + 2 < n
  {
  }

  /** A node elsewhere sees the climb alone. */
  lemma {:induction false} OutsideSame(h: TreeHash, m: Nodes, r: nat, top: seq<Fr>, up: nat, j: nat)
    requires r >= Pow2(up) - 1 && |top| > 0 && Place(r, j) < 0
    ensures NodeOk(h, PartialWrite(h, m, r, top, up), j) <==> NodeOk(h, m + Climb(h, m, r, top[0], up).1, j)
  {
    ChildPlaces(r, j);
    PartialAt(h, m, r, top, up, j);
    ChildSees(h, m, r, top, up, 2 * j + 1);
    ChildSees(h, m, r, top, up, 2 * j + 2);
  }

  lemma {:induction false} ChildSees(h: TreeHash, m: Nodes, r: nat, top: seq<Fr>, up: nat, x: nat)
    requires r >= Pow2(up) - 1 && |top| > 0 && Place(r, x) <= 0
    ensures Get(PartialWrite(h, m, r, top, up), x) == Get(m + Climb(h, m, r, top[0], up).1, x)
  {
    PartialAt(h, m, r, top, up, x);
    ClimbNodes(h, m, r, top[0], up);
    BelowOfPlace(r, x);
  }

  /** Off the climb only the node just above its end can notice it. */
  lemma {:induction false} OutsideOk(h: TreeHash, m: Nodes, r: nat, v: Fr, up: nat, j: nat)
    requires r >= Pow2(up) - 1 && NodeOk(h, m, j) && Place(r, j) < 0
    ensures var (hash, w) := Climb(h, m, r, v, up);
            var a := Ancestor(r, up);
            NodeOk(h, m + w, j) <==> (a > 0 && j == Parent(a) ==> Get(m, j) == Combine(h, Sibling(m, a), hash))
  {
    var (hash, w) := Climb(h, m, r, v, up);
    var a := Ancestor(r, up);
    ClimbNodes(h, m, r, v, up);
    ParentOf(j);
    if j in w {
      ClimbOk(h, m, r, v, up, j);
    } else if a > 0 && j == Parent(a) {
      ChildOf(a);
    }
  }

  /** The exact condition: the climb ends at the root or fits what is above it, and the last row
      written is at the bottom of the tree or there already. */
  lemma {:induction false} PartialWriteExact(h: TreeHash, m: Nodes, height: nat, r: nat, top: seq<Fr>, up: nat)
    requires Coherent(h, m, height) && r >= Pow2(up) - 1 && |top| > 0 && |top| % 2 == 1 && TopOk(h, top)
    ensures Coherent(h, PartialWrite(h, m, r, top, up), height) <==>
              Attached(h, m, height, Ancestor(r, up), Climb(h, m, r, top[0], up).0) && BottomFits(m, height, r, top)
  {
    var m', a, hash := PartialWrite(h, m, r, top, up), Ancestor(r, up), Climb(h, m, r, top[0], up).0;
    forall j: nat | j < Pow2(height) - 1
      ensures NodeOk(h, m', j) <==> NodeFits(h, m, r, top, a, hash, j)
    {
      NodeFitsExact(h, m, height, r, top, up, j);
    }
    if Coherent(h, m', height) {
      if a > 0 && Parent(a) < Pow2(height) - 1 {
        assert NodeOk(h, m', Parent(a));
        AboveIsOutside(r, up);
      }
      forall q: nat | q < |top| <= 2 * q + 2 && Below(r, q) < Pow2(height) - 1 ensures Get(m, Below(r, q)) == top[q] {
        PlaceOfBelow(r, q);
        assert NodeOk(h, m', Below(r, q));
      }
    }
    if Attached(h, m, height, a, hash) && BottomFits(m, height, r, top) {
      forall j: nat | j < Pow2(height) - 1 ensures NodeOk(h, m', j) { BelowOfPlace(r, j); }
    }
  }

  ghost predicate NodeFits(h: TreeHash, m: Nodes, r: nat, top: seq<Fr>, a: nat, hash: Fr, j: nat) {
    if Place(r, j) >= 0 then Place(r, j) < |top| <= 2 * Place(r, j) + 2 ==> Get(m, j) == top[Place(r, j)]
    else a > 0 && j == Parent(a) ==> Get(m, j) == Combine(h, Sibling(m, a), hash)
  }

  lemma {:induction false} NodeFitsExact(h: TreeHash, m: Nodes, height: nat, r: nat, top: seq<Fr>, up: nat, j: nat)
    requires Coherent(h, m, height) && r >= Pow2(up) - 1 && |top| > 0 && |top| % 2 == 1 && TopOk(h, top)
    requires j < Pow2(height) - 1
    ensures NodeOk(h, PartialWrite(h, m, r, top, up), j)
            <==> NodeFits(h, m, r, top, Ancestor(r, up), Climb(h, m, r, top[0], up).0, j)
  {
    assert NodeOk(h, m, j);
    if Place(r, j) >= 0 {
      InsideOk(h, m, r, top, up, j);
    } else {
      OutsideSame(h, m, r, top, up, j);
      OutsideOk(h, m, r, top[0], up, j);
    }
  }

  lemma {:induction false} AboveIsOutside(r: nat, n: nat)
    requires Ancestor(r, n) > 0
    ensures Parent(Ancestor(r, n)) < Ancestor(r, n) <= r && Place(r, Parent(Ancestor(r, n))) < 0
    decreases n
  {
    AncestorBelow(r, n);
  }

  lemma {:induction false} AncestorBelow(i: nat, n: nat)
    ensures Ancestor(i, n) <= i
    decreases n
  {
    if n > 0 && i > 0 { AncestorBelow(Parent(i), n - 1); }
  }

  /** A climb of `n` rows ends at the root exactly when it starts in row `n`. */
  lemma {:induction false} ClimbEnds(i: nat, n: nat)
    requires i >= Pow2(n) - 1
    ensures Ancestor(i, n) == 0 <==> i < 2 * Pow2(n) - 1
    decreases n
  {
    if n > 0 && i > 0 { ClimbEnds(Parent(i), n - 1); }
  }

  lemma {:induction false} LastWritten(h: TreeHash, m: Nodes, r: nat, top: seq<Fr>, up: nat)
    requires r >= Pow2(up) - 1 && |top| > 0
    ensures Below(r, |top| - 1) in PartialWrite(h, m, r, top, up)
  {
    ClimbNodes(h, m, r, top[0], up);
    BlockContents(r, top, |top|);
    PlaceOfBelow(r, |top| - 1);
  }

  lemma {:induction false} WrittenBefore(h: TreeHash, m: Nodes, r: nat, top: seq<Fr>, up: nat, i: nat)
    requires r >= Pow2(up) - 1 && |top| > 0 && i in PartialWrite(h, m, r, top, up) && i !in m
    ensures i <= Below(r, |top| - 1)
  {
    ClimbNodes(h, m, r, top[0], up);
    BlockContents(r, top, |top|);
    if i in Block(r, top, |top|) {
      PlacedBefore(r, i, |top| - 1);
    } else {
      PlaceOfBelow(r, |top| - 1);
    }
  }

  lemma {:induction false} PlacedBefore(r: nat, i: nat, q: nat)
    requires 0 <= Place(r, i) <= q
    ensures i <= Below(r, q)
  {
    BelowOfPlace(r, i);
    if Place(r, i) < q { BelowMono(r, Place(r, i), q); }
  }

  /** The write stays in the tree exactly when its last node does. */
  lemma {:induction false} PartialRange(h: TreeHash, m: Nodes, height: nat, r: nat, top: seq<Fr>, up: nat)
    requires InTree(m, height) && r >= Pow2(up) - 1 && |top| > 0
    ensures InTree(PartialWrite(h, m, r, top, up), height) <==> Below(r, |top| - 1) < 2 * Pow2(height) - 1
  {
    var m', last := PartialWrite(h, m, r, top, up), Below(r, |top| - 1);
    LastWritten(h, m, r, top, up);
    forall i | i in m' ensures i in m || i <= last {
      if i !in m { WrittenBefore(h, m, r, top, up, i); }
    }
  }

  /** The top node changes only if the climb reaches it. */
  lemma {:induction false} PartialRoot(h: TreeHash, m: Nodes, r: nat, top: seq<Fr>, up: nat)
    requires r >= Pow2(up) - 1 && |top| > 0
    ensures Get(PartialWrite(h, m, r, top, up), 0) == if Ancestor(r, up) == 0 then Climb(h, m, r, top[0], up).0
            else Get(m, 0)
  {
    ClimbNodes(h, m, r, top[0], up);
    PartialAt(h, m, r, top, up, 0);
    BelowOfPlace(r, 0);
  }
}
