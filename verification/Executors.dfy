/** The update and delete executors, one tuple at a time, over the transaction manager. */
module Executors {
  import opened Types
  import opened VersionChain
  import opened ReadWriteSet
  import opened Store
  import opened UncheckedCalls
  import opened Transactions
  import opened TransactionManagers

  /** What an executor does to a tuple: give it a new value, or remove it. */
  datatype Change = SetTo(value: Value) | Remove

  function InPlace(c: nat, loc: Loc, change: Change): Call {
    if change.SetTo? then UpdateInPlace(c, loc, change.value) else DeleteInPlace(c, loc)
  }

  function NewVersion(c: nat, loc: Loc, new': Loc, change: Change): Call {
    if change.SetTo? then PerformUpdate(c, loc, new', change.value) else PerformDelete(c, loc, new')
  }

  /** The manager calls of one iteration of the executor's loop. `new'` is the slot that the
      table provides, or None when it cannot install the new version. */
  function WriteCalls(st: Store, c: nat, loc: Loc, new': Option<Loc>, change: Change): seq<Call>
    requires loc in st.mem.slots
  {
    var v := st.mem.slots[loc].v;
    if v.txn == c && Pending(v) then [InPlace(c, loc, change)]
    else if v.txn == c then
      if new'.Some? then [NewVersion(c, loc, new'.value, change)] else []
    else if Succeeds(st, AcquireOwnership(c, loc)) && v.end == MAX_CID then
      [AcquireOwnership(c, loc), if new'.Some? then NewVersion(c, loc, new'.value, change) else YieldOwnership(c, loc)]
    else []
  }

  /** Whether the iteration reports success. */
  predicate Written(st: Store, c: nat, loc: Loc, new': Option<Loc>)
    requires loc in st.mem.slots
  {
    var v := st.mem.slots[loc].v;
    || (v.txn == c && (Pending(v) || new'.Some?))
    || (v.txn != c && Succeeds(st, AcquireOwnership(c, loc)) && v.end == MAX_CID && new'.Some?)
  }

  /** The transaction holds the version, or the scan below the executor has read it. */
  predicate Writable(st: Store, c: nat, loc: Loc, change: Change) {
    && c in st.txns && loc in st.mem.slots
    && var sl, rw := st.mem.slots[loc], st.txns[c].rw;
       if sl.v.txn == c && Pending(sl.v) then
         sl.v.end == INVALID_CID ==> change.Remove? && IsDeleted(rw, sl, loc)
       else
         && !Pending(sl.v) && (sl.prev.Some? ==> sl.prev.value in st.mem.slots)
         && (sl.v.txn != c ==> loc in rw && rw[loc].READ?)
  }

  lemma RunOne(st: Store, call: Call)
    ensures UncheckedRun(st, [call]) == Unchecked(st, call)
  {
    assert [call][..0] == [];
  }

  lemma RunTwo(st: Store, a: Call, b: Call)
    ensures UncheckedRun(st, [a, b]) == Unchecked(Unchecked(st, a), b)
  {
    assert [a, b][..1] == [a];
    RunOne(st, a);
  }

  /** One iteration makes exactly these calls. */
  method WriteTuple(mgr: TransactionManager, txn: Transaction, loc: Loc, new': Option<Loc>, change: Change)
    returns (ok: bool)
    requires mgr.InStep() && mgr.Serves(txn) && mgr.Idle(txn) && Writable(mgr.store, txn.id, loc, change)
    requires new'.Some? ==> new'.value !in mgr.slots
    modifies mgr, txn
    ensures mgr.store == UncheckedRun(old(mgr.store), old(WriteCalls(mgr.store, txn.id, loc, new', change)))
    ensures ok == old(Written(mgr.store, txn.id, loc, new'))
    ensures !ok ==> mgr.store == old(mgr.store)
    ensures mgr.InStep() && mgr.Idle(txn)
    ensures mgr.Serves(txn)
  {
    ghost var st := mgr.store;
    if !Written(st, txn.id, loc, new') {
      FailedWrite(st, txn.id, loc, new', change);
    }
    var isOwner := mgr.IsOwner(txn, loc);
    var isWritten := Pending(mgr.slots[loc].v);
    if isOwner && isWritten {
      RunOne(st, InPlace(txn.id, loc, change));
      WriteOwn(mgr, txn, loc, change);
      return true;
    }
    if !isOwner {
      if !mgr.IsOwnable(loc) {
        return false;
      }
      RunTwo(st, AcquireOwnership(txn.id, loc),
             if new'.Some? then NewVersion(txn.id, loc, new'.value, change) else YieldOwnership(txn.id, loc));
      var acquired := mgr.AcquireOwnership(txn, loc);
      if !acquired {
        return false;
      }
    }
    if new'.None? {
      if !isOwner {
        mgr.YieldOwnership(txn, loc);
      }
      return false;
    }
    if isOwner {
      RunOne(st, NewVersion(txn.id, loc, new'.value, change));
    }
    WriteNew(mgr, txn, loc, new'.value, change);
    return true;
  }

  /** The delete that compiled plans call looks at the begin stamp alone to recognise a version of
      its own; on a version that was read, or is held, that makes no difference. */
  method RuntimeDelete(mgr: TransactionManager, txn: Transaction, loc: Loc, new': Option<Loc>) returns (ok: bool)
    requires mgr.InStep() && mgr.Serves(txn) && mgr.Idle(txn) && Writable(mgr.store, txn.id, loc, Remove)
    requires new'.Some? ==> new'.value !in mgr.slots
    modifies mgr, txn
    ensures mgr.store == UncheckedRun(old(mgr.store), old(WriteCalls(mgr.store, txn.id, loc, new', Remove)))
    ensures ok == old(Written(mgr.store, txn.id, loc, new'))
    ensures mgr.InStep() && mgr.Idle(txn)
    ensures mgr.Serves(txn)
  {
    if Pending(mgr.slots[loc].v) {
      RunOne(mgr.store, InPlace(txn.id, loc, Remove));
      mgr.DeleteOwnVersion(txn, loc);
      return true;
    }
    ok := WriteTuple(mgr, txn, loc, new', Remove);
  }

  method WriteOwn(mgr: TransactionManager, txn: Transaction, loc: Loc, change: Change)
    requires mgr.InStep() && mgr.Serves(txn) && mgr.Idle(txn) && Writable(mgr.store, txn.id, loc, change)
    requires mgr.slots[loc].v.txn == txn.id && Pending(mgr.slots[loc].v)
    modifies mgr, txn
    ensures mgr.store == StoreNext(old(mgr.store), InPlace(txn.id, loc, change))
    ensures mgr.InStep() && mgr.Idle(txn)
    ensures mgr.Serves(txn)
  {
    match change
    case SetTo(value) => mgr.UpdateOwnVersion(txn, loc, value);
    case Remove => mgr.DeleteOwnVersion(txn, loc);
  }

  method WriteNew(mgr: TransactionManager, txn: Transaction, loc: Loc, new': Loc, change: Change)
    requires mgr.InStep() && mgr.Serves(txn) && CanLink(mgr.store, NewVersion(txn.id, loc, new', change))
    requires mgr.slots[loc].prev.Some? ==> mgr.slots[loc].prev.value in mgr.slots
    modifies mgr, txn
    ensures mgr.store == Unchecked(old(mgr.store), NewVersion(txn.id, loc, new', change))
    ensures mgr.InStep() && mgr.Idle(txn)
    ensures mgr.Serves(txn)
  {
    match change
    case SetTo(value) => mgr.PerformUpdate(txn, loc, new', value);
    case Remove => mgr.PerformDelete(txn, loc, new');
  }

  /** An iteration that fails leaves the store as it was: a lock it took is given back. */
  lemma FailedWrite(st: Store, c: nat, loc: Loc, new': Option<Loc>, change: Change)
    requires loc in st.mem.slots && !Written(st, c, loc, new')
    ensures UncheckedRun(st, WriteCalls(st, c, loc, new', change)) == st
  {
    var calls := WriteCalls(st, c, loc, new', change);
    if |calls| == 2 {
      RunTwo(st, calls[0], calls[1]);
      Unlocked(st, c, loc);
    }
  }

  lemma Unlocked(st: Store, c: nat, loc: Loc)
    requires loc in st.mem.slots && Succeeds(st, AcquireOwnership(c, loc))
    ensures Unchecked(Unchecked(st, AcquireOwnership(c, loc)), YieldOwnership(c, loc)) == st
  {
    var st' := Unchecked(Unchecked(st, AcquireOwnership(c, loc)), YieldOwnership(c, loc));
    assert st'.mem.slots == st.mem.slots;
    assert st'.txns == st.txns;
  }

  // ----- Comparing stores -----

  /** The slot `other` and its entry are the same for `c` in both stores. */
  predicate SameFor(st: Store, st': Store, c: nat, other: Loc) {
    && c in st.txns && c in st'.txns
    && other in st.mem.slots && other in st'.mem.slots && st'.mem.slots[other] == st.mem.slots[other]
    && (other in st'.txns[c].rw <==> other in st.txns[c].rw)
    && (other in st.txns[c].rw ==> st'.txns[c].rw[other] == st.txns[c].rw[other])
  }
}
