/** The vectorized read of a tile group: visibility first, then reads, both compacting one
    selection vector in place. */
module VectorizedRead {
  import opened Types
  import opened ReadWriteSet
  import opened Store
  import opened Transactions
  import opened StoreRefinement
  import opened TransactionManagers
  import opened VersionChain

  predicate IsSeen(st: Store, c: nat, loc: Loc) {
    c in st.txns && loc in st.mem.slots && Visible(st, c, loc).OK?
  }

  /** No other transaction holds the version, so reading it succeeds. */
  predicate IsFree(st: Store, c: nat, loc: Loc) {
    loc in st.mem.slots && (st.mem.slots[loc].v.txn == c || st.mem.slots[loc].v.txn == INITIAL_TXN_ID)
  }

  predicate Ascending(tids: seq<nat>) {
    forall i, j | 0 <= i < j < |tids| :: tids[i] < tids[j]
  }

  /** The visible tuples among `start`, ..., `end - 1`, in order. */
  function SeenTids(st: Store, c: nat, block: nat, start: nat, end: nat): seq<nat>
    requires start <= end
  {
    if end == start then []
    else SeenTids(st, c, block, start, end - 1) + (if IsSeen(st, c, Loc(block, end - 1)) then [end - 1] else [])
  }

  function FreeTids(st: Store, c: nat, block: nat, tids: seq<nat>): seq<nat> {
    if |tids| == 0 then []
    else
      var n := |tids| - 1;
      FreeTids(st, c, block, tids[..n]) + (if IsFree(st, c, Loc(block, tids[n])) then [tids[n]] else [])
  }

  lemma {:induction false} SeenTidsExact(st: Store, c: nat, block: nat, start: nat, end: nat)
    requires start <= end
    ensures var tids := SeenTids(st, c, block, start, end);
            Ascending(tids) && forall t :: t in tids <==> start <= t < end && IsSeen(st, c, Loc(block, t))
  {
    hide IsSeen;
    if start < end {
      SeenTidsExact(st, c, block, start, end - 1);
      var before := SeenTids(st, c, block, start, end - 1);
      assert forall i | 0 <= i < |before| :: before[i] in before;
    }
  }

  lemma {:induction false} FreeTidsExact(st: Store, c: nat, block: nat, tids: seq<nat>)
    requires Ascending(tids)
    ensures var free := FreeTids(st, c, block, tids);
            Ascending(free) && forall t :: t in free <==> t in tids && IsFree(st, c, Loc(block, t))
  {
    if |tids| > 0 {
      var n := |tids| - 1;
      FreeTidsExact(st, c, block, tids[..n]);
      var before := FreeTids(st, c, block, tids[..n]);
      assert forall t :: t in tids <==> t in tids[..n] || t == tids[n];
      assert forall i | 0 <= i < |before| :: before[i] in before && before[i] in tids[..n];
    }
  }

  // ----- What reading leaves behind -----

  predicate Selected(block: nat, tids: seq<nat>, l: Loc) {
    l.block == block && l.offset in tids
  }

  /** Slot `l` in `now`: if it has been read and the transaction does not hold it, it is stamped and
      has a read-set entry; nothing else about it differs from `st`. */
  predicate ReadAt(st: Store, now: Store, c: nat, l: Loc, read: bool) {
    && c in st.txns && c in now.txns && l in st.mem.slots && l in now.mem.slots
    && var sl, rw, rw' := st.mem.slots[l], st.txns[c].rw, now.txns[c].rw;
       var stamped := read && sl.v.txn != c;
       && now.mem.slots[l] == (if stamped then sl.(v := sl.v.(reader := Max(sl.v.reader, c))) else sl)
       && (l in rw' <==> l in rw || stamped)
       && (l in rw' ==> rw'[l] == if l in rw then rw[l] else READ)
  }

  /** From `st` to `now`, exactly the tuples `tids` of the tile group have been read. */
  ghost predicate ReadExactly(st: Store, now: Store, c: nat, block: nat, tids: seq<nat>) {
    && now.mem.slots.Keys == st.mem.slots.Keys && now.mem.heads == st.mem.heads
    && forall l | l in st.mem.slots :: ReadAt(st, now, c, l, Selected(block, tids, l))
  }

  /** The two loops select exactly the tuples that are visible and not held by another
      transaction, in ascending order, and read exactly those. */
  method PerformVectorizedRead(mgr: TransactionManager, txn: Transaction, block: nat, start: nat, end: nat,
                               sel: array<nat>)
    returns (n: nat)
    requires mgr.Valid() && mgr.Serves(txn) && mgr.Idle(txn)
    requires start <= end && end - start <= sel.Length
    requires forall t | start <= t < end :: Loc(block, t) in mgr.slots
    modifies mgr, txn, sel
    ensures mgr.Valid() && mgr.Idle(txn)
    ensures mgr.Serves(txn)
    ensures n <= sel.Length
    ensures forall t :: t in sel[..n] <==>
              start <= t < end && IsSeen(old(mgr.store), txn.id, Loc(block, t)) &&
              IsFree(old(mgr.store), txn.id, Loc(block, t))
    ensures Ascending(sel[..n])
    ensures ReadExactly(old(mgr.store), mgr.store, txn.id, block, sel[..n])
  {
    hide Reached, Flat, Inserted, HasWrite, IsSeen, IsFree, ReadExactly;
    ghost var st := mgr.store;
    var found := SelectVisible(mgr, txn, block, start, end, sel);
    SeenTidsExact(st, txn.id, block, start, end);
    FreeTidsExact(st, txn.id, block, sel[..found]);
    n := ReadSelected(mgr, txn, block, found, sel);
  }

  method SelectVisible(mgr: TransactionManager, txn: Transaction, block: nat, start: nat, end: nat, sel: array<nat>)
    returns (n: nat)
    requires mgr.Valid() && mgr.Serves(txn)
    requires start <= end && end - start <= sel.Length
    requires forall t | start <= t < end :: Loc(block, t) in mgr.slots
    modifies sel
    ensures n <= end - start && sel[..n] == SeenTids(mgr.store, txn.id, block, start, end)
  {
    hide Reached, Flat, Inserted, HasWrite;
    n := 0;
    for i := start to end
      invariant n <= i - start && sel[..n] == SeenTids(mgr.store, txn.id, block, start, i)
    {
      var v, own := mgr.slots[Loc(block, i)].v, txn.GetRWType(Loc(block, i)) == Some(READ_OWN);
      var visibility := IsVisible(txn.id, txn.id, v.txn, v.begin, v.end, own);
      assert visibility == Visible(mgr.store, txn.id, Loc(block, i));
      sel[n] := i;
      if visibility == OK {
        n := n + 1;
      }
    }
  }

  lemma NothingRead(st: Store, c: nat, block: nat)
    requires Running(st, c)
    ensures ReadExactly(st, st, c, block, [])
  {
  }

  lemma OneMoreRead(st: Store, now: Store, next: Store, c: nat, block: nat, tid: nat, done: seq<nat>)
    requires Running(now, c) && now.txns[c].acquired.None? && IsSeen(st, c, Loc(block, tid)) && tid !in done
    requires ReadExactly(st, now, c, block, done) && next == StoreNext(now, PerformRead(c, Loc(block, tid)))
    ensures Loc(block, tid) in now.mem.slots && Visible(now, c, Loc(block, tid)).OK?
    ensures Succeeds(now, PerformRead(c, Loc(block, tid))) == IsFree(st, c, Loc(block, tid))
    ensures ReadExactly(st, next, c, block, if IsFree(st, c, Loc(block, tid)) then done + [tid] else done)
  {
    var loc := Loc(block, tid);
    assert ReadAt(st, now, c, loc, Selected(block, done, loc));
    var done' := if IsFree(st, c, loc) then done + [tid] else done;
    forall l | l in st.mem.slots ensures ReadAt(st, next, c, l, Selected(block, done', l)) {
      assert ReadAt(st, now, c, l, Selected(block, done, l));
      assert l != loc ==> (Selected(block, done', l) <==> Selected(block, done, l));
    }
  }

  /** Read the `i`-th of the selected tuples `tids`; the first `n` have been read before. The tuple
      goes to the output position, which moves on only if the read succeeds. */
  method ReadOne(mgr: TransactionManager, txn: Transaction, block: nat, sel: array<nat>, n: nat, i: nat,
                 ghost st: Store, ghost tids: seq<nat>)
    returns (m: nat)
    requires mgr.Valid() && mgr.Serves(txn) && mgr.Idle(txn)
    requires n <= i < |tids| <= sel.Length && sel[i] == tids[i] && IsSeen(st, txn.id, Loc(block, tids[i]))
    requires ReadExactly(st, mgr.store, txn.id, block, sel[..n]) && tids[i] !in sel[..n]
    modifies mgr, txn, sel
    ensures mgr.Valid() && mgr.Idle(txn)
    ensures mgr.Serves(txn)
    ensures m <= i + 1 && ReadExactly(st, mgr.store, txn.id, block, sel[..m])
    ensures sel[..m] == old(sel[..n]) + (if IsFree(st, txn.id, Loc(block, tids[i])) then [tids[i]] else [])
    ensures forall j | i < j < |tids| :: sel[j] == old(sel[j])
  {
    hide Reached, Flat, Inserted, HasWrite, IsSeen, IsFree, ReadExactly, StoreNext, Succeeds;
    ghost var now, loc, done := mgr.store, Loc(block, tids[i]), sel[..n];
    OneMoreRead(st, now, StoreNext(now, PerformRead(txn.id, loc)), txn.id, block, tids[i], done);
    var ok := mgr.PerformRead(txn, Loc(block, sel[i]), false);
    m := Keep(sel, n, i, ok);
    assert sel[..m] == if ok then done + [tids[i]] else done;
  }

  /** The tuple of position `i` goes to position `n`, which moves on if it is to stay. */
  method Keep(sel: array<nat>, n: nat, i: nat, stays: bool) returns (m: nat)
    requires n <= i < sel.Length
    modifies sel
    ensures m <= i + 1 && sel[..m] == old(sel[..n]) + (if stays then [old(sel[i])] else [])
    ensures forall j | i < j < sel.Length :: sel[j] == old(sel[j])
  {
    sel[n] := sel[i];
    m := if stays then n + 1 else n;
  }

  method ReadSelected(mgr: TransactionManager, txn: Transaction, block: nat, found: nat,
                      sel: array<nat>) returns (n: nat)
    requires mgr.Valid() && mgr.Serves(txn) && mgr.Idle(txn) && found <= sel.Length
    requires Ascending(sel[..found]) && forall t | t in sel[..found] :: IsSeen(mgr.store, txn.id, Loc(block, t))
    modifies mgr, txn, sel
    ensures mgr.Valid() && mgr.Idle(txn)
    ensures mgr.Serves(txn)
    ensures n <= found && sel[..n] == FreeTids(old(mgr.store), txn.id, block, old(sel[..found]))
    ensures ReadExactly(old(mgr.store), mgr.store, txn.id, block, sel[..n])
  {
    hide Reached, Flat, Inserted, HasWrite, IsSeen, IsFree, ReadExactly;
    ghost var st, tids := mgr.store, sel[..found];
    NothingRead(st, txn.id, block);
    n := 0;
    for i := 0 to found
      invariant mgr.Valid() && mgr.Idle(txn)
      invariant mgr.Serves(txn)
      invariant n <= i && sel[..n] == FreeTids(st, txn.id, block, tids[..i])
      invariant forall j | i <= j < found :: sel[j] == tids[j]
      invariant ReadExactly(st, mgr.store, txn.id, block, sel[..n])
    {
      assert tids[i] in tids && tids[..i + 1][..i] == tids[..i];
      FreeTidsExact(st, txn.id, block, tids[..i]);
      n := ReadOne(mgr, txn, block, sel, n, i, st, tids);
    }
    assert tids[..found] == tids;
  }
}
