/** The sorted linked list of leaves kept beside an indexed tree, as a map from ids to entries. */
module LinkedLeaves {
  import opened Basics

  datatype IndexedLeaf = IndexedLeaf(value: Fr, id: nat, nextIndex: nat, nextValue: Fr)

  type Entries = map<nat, IndexedLeaf>

  const ZERO_LEAF := IndexedLeaf(0, 0, 0, 0)

  /** The values stored, by id: all that an insertion decides. */
  ghost function Values(es: Entries): map<nat, Fr> {
    map i | i in es :: es[i].value
  }

  ghost predicate Distinct(es: Entries) {
    forall i, j | i in es && j in es && es[i].value == es[j].value :: i == j
  }

  /** The entry at `i` links to its immediate successor by value, or to nothing. */
  ghost predicate LinkOk(es: Entries, i: nat)
    requires i in es
  {
    var e := es[i];
    && e.id == i
    && if e.nextValue == 0 then
         e.nextIndex == 0 && forall j | j in es :: es[j].value <= e.value
       else
         && e.value < e.nextValue && e.nextIndex in es && es[e.nextIndex].value == e.nextValue
         && forall j | j in es && e.value < es[j].value :: e.nextValue <= es[j].value
  }

  /** The zero leaf heads the list, values are distinct, and every link is right. */
  ghost predicate Linked(es: Entries) {
    && 0 in es && es[0].value == 0
    && Distinct(es)
    && forall i {:trigger LinkOk(es, i)} | i in es :: LinkOk(es, i)
  }

  /** The low leaf of `x`: the greatest value below it. */
  predicate IsLow(es: Entries, low: nat, x: Fr) {
    && low in es && es[low].value < x
    && forall j | j in es && es[j].value < x :: es[j].value <= es[low].value
  }

  predicate Stored(es: Entries, x: Fr) {
    exists i :: i in es && es[i].value == x
  }

  lemma {:induction false} InitiallyLinked()
    ensures Linked(map[0 := ZERO_LEAF])
  {
  }

  /** Every non-zero value has exactly one low leaf. */
  lemma {:induction false} LowExists(es: Entries, x: Fr) returns (low: nat)
    requires 0 in es && es[0].value == 0 && x > 0
    ensures IsLow(es, low, x)
  {
    low := MaxBelow(es, es.Keys, x, 0);
  }

  lemma {:induction false} MaxBelow(es: Entries, ids: set<nat>, x: Fr, start: nat) returns (low: nat)
    requires ids <= es.Keys && start in es && es[start].value < x
    ensures low in es && es[low].value < x && es[start].value <= es[low].value
    ensures forall j | j in ids && es[j].value < x :: es[j].value <= es[low].value
    decreases ids
  {
    low := start;
    if ids != {} {
      var i :| i in ids;
      var next := if es[i].value < x && es[i].value > es[start].value then i else start;
      low := MaxBelow(es, ids - {i}, x, next);
      forall j | j in ids && es[j].value < x ensures es[j].value <= es[low].value {
        if j != i { assert j in ids - {i}; }
      }
    }
  }

  /** What a search for a low leaf returns: an entry with the greatest value below, if any. */
  ghost predicate FoundLow(es: Entries, x: Fr, e: Option<IndexedLeaf>) {
    match e
    case None => forall i | i in es :: es[i].value >= x
    case Some(leaf) => exists low {:trigger IsLow(es, low, x)} :: IsLow(es, low, x) && es[low] == leaf
  }

  /** In a linked list the search succeeds for every non-zero value, and finds the leaf by its id. */
  lemma {:induction false} FoundInLinked(es: Entries, x: Fr, e: Option<IndexedLeaf>)
    requires Linked(es) && FoundLow(es, x, e)
    ensures e.Some? <==> x > 0
    ensures e.Some? ==> IsLow(es, e.value.id, x) && es[e.value.id] == e.value
    ensures e.Some? ==> e.value.nextIndex in es
  {
    if e.Some? {
      var low :| IsLow(es, low, x) && es[low] == e.value;
      assert LinkOk(es, low);
    }
  }

  lemma {:induction false} LowUnique(es: Entries, a: nat, b: nat, x: Fr)
    requires Distinct(es) && IsLow(es, a, x) && IsLow(es, b, x)
    ensures a == b
  {
  }

  /** In a linked list the low leaf of an absent value skips over it. */
  lemma {:induction false} LowSkips(es: Entries, low: nat, x: Fr)
    requires Linked(es) && IsLow(es, low, x) && !Stored(es, x)
    ensures es[low].nextValue == 0 || x < es[low].nextValue
  {
    assert LinkOk(es, low);
    var e := es[low];
    if e.nextValue != 0 {
      var n := e.nextIndex;
      assert n in es && es[n].value == e.nextValue;
      assert es[n].value != x;
    }
  }

  // ----- Storing a leaf

  /** The new entry takes over the low leaf's link and the low leaf links to it. */
  function StoreSpec(es: Entries, x: Fr, id: nat, low: nat): Entries
    requires low in es
  {
    var e := es[low];
    es[id := IndexedLeaf(x, id, e.nextIndex, e.nextValue)][low := e.(nextIndex := id, nextValue := x)]
  }

  lemma {:induction false} StoreValues(es: Entries, x: Fr, id: nat, low: nat)
    requires low in es && id !in es
    ensures Values(StoreSpec(es, x, id, low)) == Values(es)[id := x]
  {
  }

  /** What the entries read as after a store. */
  ghost predicate AfterStore(es: Entries, es': Entries, x: Fr, id: nat, low: nat)
    requires low in es
  {
    && es'.Keys == es.Keys + {id}
    && es'[id] == IndexedLeaf(x, id, es[low].nextIndex, es[low].nextValue)
    && es'[low] == es[low].(nextIndex := id, nextValue := x)
    && forall j {:trigger es'[j]} | j in es && j != low :: es'[j] == es[j]
  }

  lemma {:induction false} NewLinkOk(es: Entries, es': Entries, x: Fr, id: nat, low: nat)
    requires x > 0 && id !in es && IsLow(es, low, x) && LinkOk(es, low) && AfterStore(es, es', x, id, low)
    requires es[low].nextValue == 0 || x < es[low].nextValue
    requires forall j | j in es :: es[j].value != x
    ensures LinkOk(es', id) && LinkOk(es', low)
  {
    forall j | j in es' ensures j == id || (j in es && es'[j].value == es[j].value) {}
  }

  lemma {:induction false} OldLinkOk(es: Entries, es': Entries, x: Fr, id: nat, low: nat, i: nat)
    requires x > 0 && id !in es && IsLow(es, low, x) && AfterStore(es, es', x, id, low)
    requires Distinct(es) && i in es && i != low && LinkOk(es, i)
    requires forall j | j in es :: es[j].value != x
    ensures LinkOk(es', i)
  {
    forall j | j in es' ensures j == id || (j in es && es'[j].value == es[j].value) {}
    var e := es[i];
    if e.value < x {
      assert e.value < es[low].value;
    }
  }

  /** Storing an absent non-zero value at a fresh id keeps the list linked. */
  lemma {:induction false} StoreKeepsLinked(es: Entries, x: Fr, id: nat, low: nat)
    requires Linked(es) && x > 0 && !Stored(es, x) && id !in es && IsLow(es, low, x)
    ensures Linked(StoreSpec(es, x, id, low))
  {
    var es' := StoreSpec(es, x, id, low);
    LowSkips(es, low, x);
    assert LinkOk(es, low);
    assert AfterStore(es, es', x, id, low);
    NewLinkOk(es, es', x, id, low);
    forall i | i in es' ensures LinkOk(es', i) {
      if i != id && i != low {
        assert LinkOk(es, i);
        OldLinkOk(es, es', x, id, low, i);
      }
    }
    StoreKeepsDistinct(es, es', x, id, low);
  }

  lemma {:induction false} StoreKeepsDistinct(es: Entries, es': Entries, x: Fr, id: nat, low: nat)
    requires Distinct(es) && low in es && id !in es && !Stored(es, x) && AfterStore(es, es', x, id, low)
    ensures Distinct(es')
  {
    forall j | j in es' ensures if j == id then es'[j].value == x else j in es && es'[j].value == es[j].value != x {}
  }

  // ----- The list is determined by its values

  ghost predicate SameValues(a: Entries, b: Entries) {
    a.Keys == b.Keys && forall j | j in a :: a[j].value == b[j].value
  }

  lemma {:induction false} SameValuesOf(a: Entries, b: Entries)
    requires Values(a) == Values(b)
    ensures SameValues(a, b)
  {
    assert a.Keys == Values(a).Keys && b.Keys == Values(b).Keys;
    forall j | j in a ensures a[j].value == b[j].value {
      assert Values(a)[j] == Values(b)[j];
    }
  }

  /** Two linked lists over the same values by id are the same list, whatever the order in
      which the values went in. */
  lemma {:induction false} LinksDetermined(a: Entries, b: Entries)
    requires Linked(a) && Linked(b) && Values(a) == Values(b)
    ensures a == b
  {
    SameValuesOf(a, b);
    forall i | i in a ensures a[i] == b[i] {
      assert LinkOk(a, i) && LinkOk(b, i);
      LinkDetermined(a, b, i);
    }
  }

  lemma {:induction false} LinkDetermined(a: Entries, b: Entries, i: nat)
    requires SameValues(a, b) && i in a && i in b && LinkOk(a, i) && LinkOk(b, i) && Distinct(a)
    ensures a[i] == b[i]
  {
    var n, m := a[i].nextIndex, b[i].nextIndex;
    if a[i].nextValue != 0 { assert n in b && b[n].value == a[i].nextValue; }
    if b[i].nextValue != 0 { assert m in a && a[m].value == b[i].nextValue; }
  }

  // ----- A batch of values at consecutive ids

  /** What a batch starting at id `at` puts at id `i`; zero where it puts nothing. */
  ghost function BatchValue(batch: seq<Fr>, at: nat, i: nat): Fr {
    if at <= i < at + |batch| then batch[i - at] else 0
  }

  /** The ids and values a batch adds: zeros take a position but no entry. */
  ghost function Placement(batch: seq<Fr>, at: nat): map<nat, Fr> {
    map i: nat | at <= i < at + |batch| && BatchValue(batch, at, i) != 0 :: BatchValue(batch, at, i)
  }

  lemma {:induction false} PlacementSnoc(batch: seq<Fr>, at: nat, x: Fr)
    ensures Placement(batch + [x], at) == if x == 0 then Placement(batch, at)
            else Placement(batch, at)[at + |batch| := x]
  {
    var p, q := Placement(batch + [x], at), Placement(batch, at);
    forall i: nat ensures i in p <==> i in (if x == 0 then q else q[at + |batch| := x]) {}
  }

  /** The low leaves of a batch, taken before any of it is stored. */
  ghost predicate LowOfSome(es: Entries, batch: seq<Fr>, i: nat) {
    exists t :: 0 <= t < |batch| && batch[t] != 0 && IsLow(es, i, batch[t])
  }

  ghost predicate NoneStored(es: Entries, batch: seq<Fr>) {
    forall t | 0 <= t < |batch| && batch[t] != 0 :: !Stored(es, batch[t])
  }

  /** `es'` adds exactly the batch to `es`. */
  ghost predicate Extended(es: Entries, es': Entries, batch: seq<Fr>, at: nat) {
    && (forall j | j in es :: j in es' && es'[j].value == es[j].value)
    && (forall n | n in es' && n !in es :: at <= n < at + |batch| && es'[n].value == batch[n - at] != 0)
    && (forall t | 0 <= t < |batch| && batch[t] != 0 :: PlacedAt(es', at + t, batch[t]))
  }

  ghost predicate PlacedAt(es: Entries, i: nat, x: Fr) {
    i in es && es[i].value == x
  }

  lemma {:induction false} ExtendedOf(es: Entries, es': Entries, batch: seq<Fr>, at: nat)
    requires forall j | j in es :: j < at
    requires Values(es') == Values(es) + Placement(batch, at)
    ensures Extended(es, es', batch, at)
  {
    var vs, ps := Values(es'), Placement(batch, at);
    assert es'.Keys == vs.Keys;
    forall j | j in es ensures j in es' && es'[j].value == es[j].value {
      assert j in Values(es) && j !in ps;
      assert j in vs && vs[j] == es[j].value;
    }
    forall n | n in es' && n !in es ensures at <= n < at + |batch| && es'[n].value == batch[n - at] != 0 {
      assert n in vs && n !in Values(es) && n in ps && vs[n] == ps[n];
    }
    forall t | 0 <= t < |batch| && batch[t] != 0 ensures PlacedAt(es', at + t, batch[t]) {
      assert BatchValue(batch, at, at + t) == batch[t];
      assert at + t in ps && ps[at + t] == batch[t];
      assert at + t in vs && vs[at + t] == batch[t];
    }
  }

  /** Among the entries present before a batch, exactly the batch's low leaves are relinked. */
  lemma {:induction false} RelinkedAreLows(es: Entries, es': Entries, batch: seq<Fr>, at: nat, i: nat)
    requires Linked(es) && Linked(es') && NoneStored(es, batch)
    requires forall j | j in es :: j < at
    requires Values(es') == Values(es) + Placement(batch, at)
    requires i in es
    ensures i in es' && (es'[i] != es[i] <==> LowOfSome(es, batch, i))
  {
    ExtendedOf(es, es', batch, at);
    assert LinkOk(es, i) && LinkOk(es', i);
    LinkKeptOrLow(es, es', batch, at, i);
    if LowOfSome(es, batch, i) {
      var t :| 0 <= t < |batch| && batch[t] != 0 && IsLow(es, i, batch[t]);
      LowSkips(es, i, batch[t]);
      LowIsRelinked(es, es', batch, at, i, t);
    }
  }

  lemma {:induction false} LowIsRelinked(es: Entries, es': Entries, batch: seq<Fr>, at: nat, i: nat, t: nat)
    requires Extended(es, es', batch, at) && i in es && i in es' && LinkOk(es', i)
    requires t < |batch| && batch[t] != 0 && IsLow(es, i, batch[t])
    requires es[i].nextValue == 0 || batch[t] < es[i].nextValue
    ensures es'[i] != es[i]
  {
    assert PlacedAt(es', at + t, batch[t]);
    assert es'[i].value < es'[at + t].value;
  }

  lemma {:induction false} LinkKeptOrLow(es: Entries, es': Entries, batch: seq<Fr>, at: nat, i: nat)
    requires Extended(es, es', batch, at) && i in es && i in es' && LinkOk(es, i) && LinkOk(es', i) && Distinct(es)
    ensures es'[i] == es[i] || LowOfSome(es, batch, i)
  {
    var e, e' := es[i], es'[i];
    var n' := e'.nextIndex;
    if e'.nextValue != 0 && n' !in es {
      assert batch[n' - at] == e'.nextValue;
      NewSuccessor(es, es', i, e'.nextValue);
    } else if e.nextValue != 0 {
      assert es'[e.nextIndex].value == e.nextValue;
    }
  }

  /** An entry whose new successor is `x` was the low leaf of `x`. */
  lemma {:induction false} NewSuccessor(es: Entries, es': Entries, i: nat, x: Fr)
    requires forall j | j in es :: j in es' && es'[j].value == es[j].value
    requires i in es && i in es' && LinkOk(es', i) && es'[i].nextValue == x != 0
    ensures IsLow(es, i, x)
  {
    forall j | j in es && es[j].value < x ensures es[j].value <= es[i].value {
      assert es'[j].value == es[j].value;
    }
  }

  // ----- One list

  ghost function Above(es: Entries, i: nat): set<nat>
    requires i in es
  {
    set j | j in es && es[j].value > es[i].value
  }

  /** The ids met by following the links from `i`. */
  ghost function Walk(es: Entries, i: nat): (w: seq<nat>)
    requires Linked(es) && i in es
    ensures |w| > 0 && w[0] == i
    decreases Above(es, i)
  {
    assert LinkOk(es, i);
    if es[i].nextValue == 0 then [i]
    else
      var n := es[i].nextIndex;
      assert n in Above(es, i) && n !in Above(es, n);
      [i] + Walk(es, n)
  }

  /** A walk is a chain of links, strictly sorted by value, ending where nothing follows. */
  ghost predicate SortedChain(es: Entries, w: seq<nat>) {
    && |w| > 0
    && (forall a | 0 <= a < |w| :: w[a] in es)
    && (forall a, b | 0 <= a < b < |w| :: es[w[a]].value < es[w[b]].value)
    && (forall a {:trigger es[w[a]]} | 0 <= a < |w| - 1 ::
          var b := a + 1;
          es[w[a]].nextIndex == w[b] && es[w[a]].nextValue == es[w[b]].value)
    && es[w[|w| - 1]].nextValue == 0
  }

  lemma {:induction false} WalkIsSortedChain(es: Entries, i: nat)
    requires Linked(es) && i in es
    ensures SortedChain(es, Walk(es, i))
    decreases Above(es, i)
  {
    assert LinkOk(es, i);
    if es[i].nextValue != 0 {
      var n := es[i].nextIndex;
      assert n in Above(es, i) && n !in Above(es, n);
      WalkIsSortedChain(es, n);
      ConsChain(es, i, Walk(es, n));
    }
  }

  lemma {:induction false} ConsChain(es: Entries, i: nat, w: seq<nat>)
    requires i in es && SortedChain(es, w) && es[i].nextIndex == w[0]
    requires es[i].nextValue == es[w[0]].value && es[i].value < es[w[0]].value
    ensures SortedChain(es, [i] + w)
  {
    var v := [i] + w;
    forall a, b | 0 <= a < b < |v| ensures es[v[a]].value < es[v[b]].value {
      if a == 0 && b > 1 { assert es[w[0]].value < es[w[b - 1]].value; }
    }
    forall a | 0 <= a < |v| - 1 ensures es[v[a]].nextIndex == v[a + 1] && es[v[a]].nextValue == es[v[a + 1]].value {
      if a > 0 { assert es[w[a - 1]].nextIndex == w[a]; }
    }
  }

  lemma {:induction false} WalkReaches(es: Entries, i: nat, j: nat)
    requires Linked(es) && i in es && j in es && es[i].value <= es[j].value
    ensures j in Walk(es, i)
    decreases Above(es, i)
  {
    assert LinkOk(es, i);
    if es[i].value == es[j].value {
      assert Walk(es, i)[0] == j;
    } else {
      var n := es[i].nextIndex;
      assert n in Above(es, i) && n !in Above(es, n);
      WalkReaches(es, n, j);
    }
  }

  /** Following the links from the zero leaf visits every entry, once, in increasing order. */
  lemma {:induction false} OneList(es: Entries)
    requires Linked(es)
    ensures SortedChain(es, Walk(es, 0))
    ensures forall i :: i in es <==> i in Walk(es, 0)
  {
    WalkIsSortedChain(es, 0);
    forall i | i in es ensures i in Walk(es, 0) { WalkReaches(es, 0, i); }
  }
}
