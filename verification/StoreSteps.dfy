/** Storing values in the linked list: one at any id, and a batch at consecutive ids. */
module StoreSteps {
  import opened Basics
  import opened LinkedLeaves
  import opened IndexedSpec
  import opened Positions

  // ----- One value

  predicate AllZero(batch: seq<Fr>) {
    forall t | 0 <= t < |batch| :: batch[t] == 0
  }

  /** What a store leaves behind: the list with the value in it or, where the low leaf's own id
      was given, a list without its low leaf. */
  ghost predicate StoredAt(es: Entries, x: Fr, id: nat, low: nat, es': Entries, r: Result<bool>)
    requires low in es
  {
    if id == low then
      r == Err(Failed) && es' == es[id := IndexedLeaf(x, id, es[low].nextIndex, es[low].nextValue)]
    else
      r == Ok(true) && es' == StoreSpec(es, x, id, low)
  }

  lemma {:induction false} RelinkStored(es: Entries, x: Fr, id: nat, low: nat, es1: Entries, ok: bool, es2: Entries)
    requires Linked(es) && low in es && !Stored(es, x)
    requires es1 == es[id := IndexedLeaf(x, id, es[low].nextIndex, es[low].nextValue)]
    requires ok <==> Stored(es1, es[low].value)
    requires !ok ==> es2 == es1
    requires ok ==> exists i ::
             i in es1 && es1[i].value == es[low].value && es2 == es1[i := es1[i].(nextIndex := id, nextValue := x)]
    ensures StoredAt(es, x, id, low, es2, if ok then Ok(true) else Err(Failed))
  {
    forall i | i in es1 && es1[i].value == es[low].value ensures i == low && i != id {}
    if id != low { assert low in es1 && es1[low].value == es[low].value; }
  }

  /** What a wrapped position does: storing any new value at id 0 takes the zero leaf out of the
      list, whether or not the store reports success. */
  lemma {:induction false} WrappedStoreBreaks(es: Entries, x: Fr, low: nat, es': Entries, r: Result<bool>)
    requires Linked(es) && x > 0 && !Stored(es, x) && IsLow(es, low, x) && StoredAt(es, x, 0, low, es', r)
    ensures !Linked(es') && !Stored(es', 0)
    ensures r.Ok? <==> exists i :: i in es && 0 < es[i].value < x
  {
    forall i | i in es' ensures es'[i].value != 0 {
      if i != 0 { assert es'[i].value == es[i].value; }
    }
    if low != 0 { assert 0 < es[low].value < x; }
  }

  // ----- The values of a batch

  lemma {:induction false} PlacementAppend(vs: map<nat, Fr>, a: seq<Fr>, b: seq<Fr>, at: nat)
    ensures vs + Placement(a, at) + Placement(b, at + |a|) == vs + Placement(a + b, at)
  {
    forall i: nat
      ensures BatchValue(a + b, at, i) == if i < at + |a| then BatchValue(a, at, i) else BatchValue(b, at + |a|, i) {}
  }

  lemma {:induction false} TakeNext(s: seq<Fr>, t: nat)
    requires t < |s|
    ensures s[..t + 1] == s[..t] + [s[t]]
  {
  }

  lemma {:induction false} NoPlacement(vs: map<nat, Fr>, at: nat)
    ensures vs + Placement([], at) == vs
  {
  }

  lemma {:induction false} ValuesSnoc(vs: map<nat, Fr>, batch: seq<Fr>, at: nat, x: Fr)
    ensures vs + Placement(batch + [x], at)
            == if x == 0 then vs + Placement(batch, at) else (vs + Placement(batch, at))[at + |batch| := x]
  {
    PlacementSnoc(batch, at, x);
  }

  lemma {:induction false} NextChunk(vs: map<nat, Fr>, es: Entries, es': Entries, done: seq<Fr>, chunk: seq<Fr>,
                                     start: nat, used: nat)
    requires Values(es) == vs + Placement(done, start) && used == start + |done|
    requires Values(es') == Values(es) + Placement(chunk, used)
    ensures Values(es') == vs + Placement(done + chunk, start)
  {
    PlacementAppend(vs, done, chunk, start);
  }

  /** What is stored part of the way through a batch. */
  lemma {:induction false} StoredSoFar(es: Entries, es': Entries, batch: seq<Fr>, at: nat, t: nat)
    requires t < |batch| && IdsBelow(es, at) && Values(es') == Values(es) + Placement(batch[..t], at)
    requires NewValues(es, batch[..t])
    ensures batch[t] != 0 ==>
              (!Stored(es', batch[t]) <==> NewValues(es, batch[..t + 1]))
    ensures batch[t] == 0 ==> NewValues(es, batch[..t + 1])
    ensures !NewValues(es, batch[..t + 1]) ==> !NewValues(es, batch)
  {
    ExtendedOf(es, es', batch[..t], at);
    var x, next := batch[t], batch[..t + 1];
    assert next[t] == x;
    if x != 0 && !Stored(es', x) {
      forall s | 0 <= s < t ensures next[s] != x || x == 0 {
        if batch[..t][s] != 0 { assert PlacedAt(es', at + s, batch[..t][s]); }
      }
    }
    if x != 0 && Stored(es', x) {
      var i :| i in es' && es'[i].value == x;
      if i !in es { assert next[i - at] == x; }
    }
  }

  /** A chunk is new where it is inserted exactly when it is new after all that went before. */
  lemma {:induction false} ChunkIsNew(es: Entries, es1: Entries, done: seq<Fr>, chunk: seq<Fr>, at: nat)
    requires IdsBelow(es, at) && NewValues(es, done) && Values(es1) == Values(es) + Placement(done, at)
    ensures NewValues(es1, chunk) <==> NewValues(es, done + chunk)
  {
    ExtendedOf(es, es1, done, at);
    var both := done + chunk;
    if NewValues(es1, chunk) {
      forall t | 0 <= t < |both| && both[t] != 0 ensures !Stored(es, both[t]) {
        if t >= |done| { StoredStays(es, es1, done, at, both[t]); }
      }
      forall s, t | 0 <= s < t < |both| && both[s] != 0 ensures both[s] != both[t] {
        if s < |done| <= t { assert PlacedAt(es1, at + s, done[s]); }
      }
    }
    if NewValues(es, both) {
      forall t | 0 <= t < |chunk| && chunk[t] != 0 ensures !Stored(es1, chunk[t]) {
        assert both[|done| + t] == chunk[t];
        assert forall s | 0 <= s < |done| :: both[s] == done[s];
        if Stored(es1, chunk[t]) { StoredWhere(es, es1, done, at, chunk[t]); }
      }
      forall s, t | 0 <= s < t < |chunk| && chunk[s] != 0 ensures chunk[s] != chunk[t] {
        assert both[|done| + s] == chunk[s] && both[|done| + t] == chunk[t];
      }
    }
  }

  lemma {:induction false} StoredStays(es: Entries, es1: Entries, done: seq<Fr>, at: nat, v: Fr)
    requires IdsBelow(es, at) && Values(es1) == Values(es) + Placement(done, at)
    ensures Stored(es, v) ==> Stored(es1, v)
  {
    ExtendedOf(es, es1, done, at);
    if Stored(es, v) {
      var i :| i in es && es[i].value == v;
      assert i in es1 && es1[i].value == v;
    }
  }

  lemma {:induction false} StoredWhere(es: Entries, es1: Entries, done: seq<Fr>, at: nat, v: Fr)
    requires IdsBelow(es, at) && Values(es1) == Values(es) + Placement(done, at) && Stored(es1, v)
    ensures Stored(es, v) || exists s :: 0 <= s < |done| && done[s] == v
  {
    ExtendedOf(es, es1, done, at);
    var i :| i in es1 && es1[i].value == v;
    if i !in es { assert done[i - at] == v; }
  }

  lemma {:induction false} NewPrefix(es: Entries, a: seq<Fr>, b: seq<Fr>)
    requires NewValues(es, a + b)
    ensures NewValues(es, a)
  {
    var both := a + b;
    assert forall t | 0 <= t < |a| :: both[t] == a[t];
  }

  /** Where the entry of a batch value is, and that zeros have none. */
  lemma {:induction false} BatchEntry(es: Entries, es': Entries, batch: seq<Fr>, at: nat, t: nat)
    requires Linked(es') && Extended(es, es', batch, at) && IdsBelow(es, at) && t < |batch|
    ensures Stored(es', batch[t]) && (batch[t] == 0 ==> at + t !in es')
    ensures batch[t] != 0 ==> at + t in es' && forall i | i in es' && es'[i].value == batch[t] :: i == at + t
  {
    assert es'[0].value == 0;
    if batch[t] != 0 { assert PlacedAt(es', at + t, batch[t]); }
  }

  // ----- Storing a batch

  /** The list after a batch has been stored at its true positions. */
  ghost predicate ListUpdated(es: Entries, es': Entries, batch: seq<Fr>, at: nat) {
    && Linked(es') && IdsBelow(es', at + |batch|)
    && Values(es') == Values(es) + Placement(batch, at)
  }

  ghost predicate StoreProgress(es: Entries, batch: seq<Fr>, at: nat, t: nat, es1: Entries)
    requires t <= |batch|
  {
    IdsBelow(es, at) && NewValues(es, batch[..t]) && ListUpdated(es, es1, batch[..t], at)
  }

  lemma {:induction false} NothingStored(es: Entries, batch: seq<Fr>, at: nat)
    requires Linked(es) && IdsBelow(es, at)
    ensures StoreProgress(es, batch, at, 0, es)
  {
    assert batch[..0] == [];
    NoPlacement(Values(es), at);
  }

  lemma {:induction false} StoreStep(es: Entries, batch: seq<Fr>, at: nat, t: nat, es1: Entries, ok: bool, es2: Entries)
    requires t < |batch| && StoreProgress(es, batch, at, t, es1)
    requires ok <==> batch[t] == 0 || !Stored(es1, batch[t])
    requires ok ==> Linked(es2) && IdsBelow(es2, at + t + 1)
    requires ok ==> Values(es2) == if batch[t] == 0 then Values(es1) else Values(es1)[at + t := batch[t]]
    ensures if ok then StoreProgress(es, batch, at, t + 1, es2) else !NewValues(es, batch) && StopsAt(es, batch, at, t)
  {
    StoredSoFar(es, es1, batch, at, t);
    ValuesSnoc(Values(es), batch[..t], at, batch[t]);
    TakeNext(batch, t);
  }

  lemma {:induction false} AllStored(es: Entries, batch: seq<Fr>, at: nat, es1: Entries)
    requires StoreProgress(es, batch, at, |batch|, es1)
    ensures NewValues(es, batch) && ListUpdated(es, es1, batch, at)
  {
    assert batch[..|batch|] == batch;
  }

  /** A value whose true position does not fit 32 bits is not at that position. */
  lemma {:induction false} PlacedExactly(es: Entries, es': Entries, batch: seq<Fr>, at: nat)
    requires IdsBelow(es, at) && forall k | k in es' && k !in es :: k < U32_RANGE
    ensures !PositionsFit(batch, at) ==> Values(es') != Values(es) + Placement(batch, at)
  {
    if t :| 0 <= t < |batch| && batch[t] != 0 && at + t >= U32_RANGE {
      assert BatchValue(batch, at, at + t) == batch[t];
      assert at + t in Placement(batch, at) && at + t !in es';
      assert at + t in Values(es) + Placement(batch, at);
    }
  }

  // ----- Stopping part of the way

  /** Storing a batch from id `at` on stops at value `n`: those before it are new, it is not, or its
      id is too large for the database. At the end of the batch nothing stopped it. */
  ghost predicate StopsAt(es: Entries, batch: seq<Fr>, at: nat, n: nat) {
    && n <= |batch| && NewValues(es, batch[..n])
    && (n < |batch| ==> batch[n] != 0 && (!NewValues(es, batch[..n + 1]) || at + n > I64_MAX))
  }

  /** The list after storing a batch up to where it stops. */
  ghost predicate StoredUpTo(es: Entries, batch: seq<Fr>, at: nat, n: nat, es': Entries) {
    StopsAt(es, batch, at, n) && ListUpdated(es, es', batch[..n], at)
  }

  /** A list that has had the first `n` values of a batch is changed, and ahead of a tree that has
      none of them, exactly when one of them is not zero. */
  lemma {:induction false} ListAhead(es: Entries, es': Entries, batch: seq<Fr>, at: nat, n: nat)
    requires Linked(es) && Linked(es') && IdsBelow(es, at) && n <= |batch|
    requires Values(es') == Values(es) + Placement(batch[..n], at)
    ensures es' == es <==> AllZero(batch[..n])
    ensures IdsBelow(es', at) <==> AllZero(batch[..n])
  {
    var done := batch[..n];
    if AllZero(done) {
      ZeroPlacement(Values(es), done, at);
      LinksDetermined(es', es);
    } else {
      var t :| 0 <= t < |done| && done[t] != 0;
      ExtendedOf(es, es', done, at);
      assert PlacedAt(es', at + t, done[t]);
    }
  }

  lemma {:induction false} ZeroPlacement(vs: map<nat, Fr>, batch: seq<Fr>, at: nat)
    requires AllZero(batch)
    ensures vs + Placement(batch, at) == vs
  {
  }

  /** Values none of which was there before can stop only at a repeat, so one of them is in. */
  lemma {:induction false} RepeatIsAhead(es: Entries, batch: seq<Fr>, at: nat, n: nat)
    requires StopsAt(es, batch, at, n) && n < |batch| && at + n <= I64_MAX && NoneStored(es, batch)
    ensures !AllZero(batch[..n])
  {
    var next := batch[..n + 1];
    assert forall t | 0 <= t < |next| :: next[t] == batch[t];
    var s, t :| 0 <= s < t < |next| && next[s] == next[t] && next[s] != 0;
    assert forall u | 0 <= u < n :: batch[..n][u] == batch[u];
    assert batch[..n][s] != 0;
  }
}
