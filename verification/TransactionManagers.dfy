/** The timestamp-ordering transaction manager: every operation, written as the header and
    read/write-set updates it performs, is exactly its call on the store. */
module TransactionManagers {
  import opened Types
  import opened VersionChain
  import opened Replay
  import opened Protocol
  import opened ReadWriteSet
  import opened Store
  import opened StoreInvariant
  import opened StoreSteps
  import opened StoreCalls
  import opened StoreRefinement
  import opened AbortUndo
  import opened UncheckedCalls
  import opened Verdicts
  import opened GarbageSets
  import opened CommitLoop
  import opened Transactions

  // ----- What a consistent store tells the manager -----

  lemma WriteSetSeparated(st: Store, c: nat)
    requires Reached(st) && Running(st, c) && st.txns[c].acquired.None?
    ensures Separated(st.mem, st.txns[c].rw)
  {
    hide Separated, Links, Reached, Consistent, SessionOk;
    ReachedConsistent(st);
    ConsistentSession(st, c);
    forall loc | Writes(st.txns[c].rw, loc) ensures loc in st.mem.slots && st.mem.slots[loc].v.end == MAX_CID {
      WrittenIsOpen(st, c, loc);
    }
    SessionSeparated(st, c);
  }

  lemma WrittenIsOpen(st: Store, c: nat, loc: Loc)
    requires Consistent(st) && Running(st, c) && Writes(st.txns[c].rw, loc)
    ensures loc in st.mem.slots && st.mem.slots[loc].v.end == MAX_CID
  {
    hide Consistent, Links;
    ConsistentSession(st, c);
    assert EntryOk(st, c, loc);
    LockedIsOpen(st, loc);
  }

  lemma SessionSeparated(st: Store, c: nat)
    requires Links(st) && Running(st, c) && SessionOk(st, c)
    requires forall loc | Writes(st.txns[c].rw, loc) :: loc in st.mem.slots && st.mem.slots[loc].v.end == MAX_CID
    ensures Separated(st.mem, st.txns[c].rw)
  {
    var m, rw := st.mem, st.txns[c].rw;
    forall loc | loc in rw ensures loc in m.slots && (Writes(rw, loc) ==> HasNew(m, rw, loc)) {
      assert EntryOk(st, c, loc);
      if Writes(rw, loc) {
        HeadIsNew(st, loc, m.slots[loc].prev.value);
      }
    }
    forall k | k in m.heads ensures m.heads[k] in m.slots && m.slots[m.heads[k]].entry == Some(k) {
      assert Linked(m, k, st.order[k]);
    }
  }

  /** A version with nothing in front of it is what its index entry points to. */
  lemma HeadIsNew(st: Store, loc: Loc, new': Loc)
    requires Links(st) && OnList(st, loc) && OnList(st, new')
    requires st.mem.slots[loc].prev == Some(new') && st.mem.slots[new'].prev.None?
    ensures KeyAt(st, loc) in st.mem.heads && st.mem.heads[KeyAt(st, loc)] == new'
  {
    var k := KeyAt(st, loc);
    var vs := st.order[k];
    assert Linked(st.mem, k, vs);
    assert Neighbours(st.mem, vs, IndexAt(st, loc));
    assert Neighbours(st.mem, vs, IndexAt(st, loc) + 1);
  }

  lemma OwnedStamp(ch: Chain, i: nat)
    requires WellFormed(ch) && i < |ch| && IsIssued(ch[i].txn)
    ensures ch[i].reader == ch[i].txn || ch[i].reader == 0
  {
    if i < |ch| - 1 {
      assert Superseded(ch[i], ch[i + 1]);
    }
  }

  /** A version that a transaction owns was last read by that transaction, or by nobody. */
  lemma OwnedReader(st: Store, loc: Loc)
    requires Reached(st) && loc in st.mem.slots && IsIssued(st.mem.slots[loc].v.txn)
    ensures st.mem.slots[loc].v.reader == st.mem.slots[loc].v.txn || st.mem.slots[loc].v.reader == 0
  {
    ReachedConsistent(st);
    var s :| Simulates(st, s);
    assert OnList(st, loc) || Dead(st.mem.slots[loc].v);
    AllPlaced(st, s, loc);
    SlotIsVersion(st, s, loc);
    assert ChainOk(s, KeyAt(st, loc));
    OwnedStamp(s.chains[KeyAt(st, loc)], IndexAt(st, loc));
  }

  lemma RunningIsIssued(st: Store, c: nat)
    requires Reached(st) && Running(st, c)
    ensures IsIssued(c)
  {
    ReachedConsistent(st);
    assert SessionOk(st, c);
  }

  /** The transaction's own pending version is an insert, or lies over a recorded update. */
  lemma PendingIsRecorded(st: Store, c: nat, loc: Loc)
    requires Reached(st) && Running(st, c) && st.txns[c].acquired.None? && loc in st.mem.slots
    requires st.mem.slots[loc].v.txn == c && Pending(st.mem.slots[loc].v) && st.mem.slots[loc].v.end != INVALID_CID
    ensures st.mem.slots[loc].next.None? ==> loc in st.txns[c].rw && st.txns[c].rw[loc].INSERT?
    ensures st.mem.slots[loc].next.Some? ==>
              st.mem.slots[loc].next.value in st.txns[c].rw && st.txns[c].rw[st.mem.slots[loc].next.value].UPDATE?
    ensures st.mem.slots[loc].v.end == MAX_CID
  {
    ReachedConsistent(st);
    assert SessionOk(st, c) && SlotOk(st, loc);
    PendingEntry(st, c, loc);
  }

  lemma FreshIsUnrecorded(st: Store, c: nat, loc: Loc)
    requires Reached(st) && Running(st, c) && loc !in st.mem.slots
    ensures loc !in st.txns[c].rw
  {
    ReachedConsistent(st);
    assert SessionOk(st, c);
    assert loc in st.txns[c].rw ==> EntryOk(st, c, loc);
  }

  lemma StaysReached(st: Store, call: Call)
    ensures Reached(st) ==> Reached(StoreNext(st, call))
  {
    if Reached(st) {
      NextReached(st, call);
    }
  }

  /** The entry of a version that its transaction has deleted: its own, or the overwritten one's. */
  predicate IsDeleted(rw: RWSet, sl: Slot, loc: Loc) {
    if sl.next.Some? then sl.next.value in rw && rw[sl.next.value].DELETE? else loc in rw && rw[loc].INS_DEL?
  }

  /** A version `v` has been put in front of `loc`: the two are linked to each other, and nothing
      else changes but the link of a version that was in front of `loc` before. */
  ghost predicate PlacedOver(s: Slots, s': Slots, loc: Loc, new': Loc, v: Version) {
    && loc in s && new' !in s && s'.Keys == s.Keys + {new'}
    && s'[new'].v == v && s'[new'].next == Some(loc) && s'[new'].prev == s[loc].prev
    && s'[loc].prev == Some(new') && s'[loc].v == s[loc].v
    && (forall l | l in s && l != loc && s[loc].prev != Some(l) :: s'[l] == s[l])
  }

  class TransactionManager {
    var slots: map<Loc, Slot>
    var heads: map<Key, Loc>
    /** The whole database: these slots and index entries, and every transaction's session. */
    ghost var store: Store

    constructor ()
      ensures Valid() && store == EmptyStore
    {
      slots, heads, store := map[], map[], EmptyStore;
      NothingReached();
    }

    /** The ghost store is what the manager's fields hold. */
    ghost predicate InStep()
      reads this
    {
      store.mem == Memory(slots, heads)
    }

    ghost predicate Valid()
      reads this
    {
      Reached(store) && InStep()
    }

    /** `txn` is the object of a running transaction of the store. */
    ghost predicate Serves(txn: Transaction)
      reads this, txn
    {
      txn.Valid() && Running(store, txn.id) && txn.Entries() == store.txns[txn.id].rw
    }

    /** `txn` is between two operations of its executors. */
    ghost predicate Idle(txn: Transaction)
      reads this
    {
      txn.id in store.txns && store.txns[txn.id].acquired.None?
    }

    method BeginTransaction(cid: nat) returns (txn: Transaction)
      requires Valid() && IsIssued(cid) && cid !in store.txns
      modifies this`store
      ensures fresh(txn) && txn.id == cid && store == StoreNext(old(store), BeginTxn(cid))
      ensures Valid() && Idle(txn)
      ensures Serves(txn)
    {
      NextReached(store, BeginTxn(cid));
      store := StoreNext(store, BeginTxn(cid));
      txn := new Transaction(cid);
    }

    // ----- Ownership -----

    predicate IsOwner(txn: Transaction, loc: Loc)
      requires loc in slots
      reads this
    {
      slots[loc].v.txn == txn.id
    }

    predicate IsOwnable(loc: Loc)
      requires loc in slots
      reads this
    {
      slots[loc].v.txn == INITIAL_TXN_ID && slots[loc].v.end == MAX_CID
    }

    /** Raise the last-reader stamp, unless another transaction holds the version. */
    method SetLastReaderCommitId(loc: Loc, cid: nat, isOwner: bool) returns (ok: bool)
      requires loc in slots
      modifies this`slots
      ensures ok <==> isOwner || old(slots[loc].v.txn) == INITIAL_TXN_ID
      ensures ok ==>
                slots == old(slots[loc := slots[loc].(v := slots[loc].v.(reader := Max(slots[loc].v.reader, cid)))])
      ensures !ok ==> slots == old(slots)
    {
      if !isOwner && slots[loc].v.txn != INITIAL_TXN_ID {
        return false;
      }
      if slots[loc].v.reader < cid {
        slots := slots[loc := slots[loc].(v := slots[loc].v.(reader := cid))];
      }
      assert slots[loc] == old(slots[loc].(v := slots[loc].v.(reader := Max(slots[loc].v.reader, cid))));
      return true;
    }

    /** Take the write lock of a version that no later transaction has read. */
    method Lock(cid: nat, loc: Loc) returns (ok: bool)
      requires loc in slots
      modifies this`slots
      ensures ok <==> old(slots[loc].v.reader) <= cid && old(slots[loc].v.txn) == INITIAL_TXN_ID
      ensures slots == if ok then SetTransactionId(old(slots), loc, cid) else old(slots)
    {
      if slots[loc].v.reader > cid {
        return false;
      }
      if slots[loc].v.txn != INITIAL_TXN_ID {
        return false;
      }
      slots := SetTransactionId(slots, loc, cid);
      return true;
    }

    /** An executor locks a version that its transaction has read. */
    method AcquireOwnership(txn: Transaction, loc: Loc) returns (ok: bool)
      requires InStep() && Serves(txn) && Idle(txn) && loc in slots && txn.GetRWType(loc) == Some(READ)
      modifies this`slots, this`store
      ensures InStep() && Serves(txn) && (old(Valid()) ==> Valid())
      ensures ok <==> old(slots[loc].v.txn) == INITIAL_TXN_ID && old(slots[loc].v.reader) <= txn.id
      ensures slots == if ok then SetTransactionId(old(slots), loc, txn.id) else old(slots)
      ensures ok == Succeeds(old(store), Call.AcquireOwnership(txn.id, loc))
      ensures store == StoreNext(old(store), Call.AcquireOwnership(txn.id, loc))
    {
      hide Reached, Flat, Inserted, HasWrite;
      ok := Lock(txn.id, loc);
      StaysReached(store, Call.AcquireOwnership(txn.id, loc));
      store := StoreNext(store, Call.AcquireOwnership(txn.id, loc));
    }

    method YieldOwnership(txn: Transaction, loc: Loc)
      requires InStep() && Serves(txn) && store.txns[txn.id].acquired == Some(loc)
      requires loc in slots && slots[loc].v.txn == txn.id
      modifies this`slots, this`store
      ensures InStep() && Serves(txn) && Idle(txn) && (old(Valid()) ==> Valid())
      ensures slots == SetTransactionId(old(slots), loc, INITIAL_TXN_ID)
      ensures store == StoreNext(old(store), Call.YieldOwnership(txn.id, loc))
    {
      hide Reached, Flat, Inserted, HasWrite;
      slots := SetTransactionId(slots, loc, INITIAL_TXN_ID);
      StaysReached(store, Call.YieldOwnership(txn.id, loc));
      store := StoreNext(store, Call.YieldOwnership(txn.id, loc));
    }

    // ----- Reads -----

    /** Serializable and repeatable reads of a version that IsVisible has accepted. */
    method PerformRead(txn: Transaction, loc: Loc, acquire: bool) returns (ok: bool)
      requires Valid() && Serves(txn) && Idle(txn) && loc in slots && Visible(store, txn.id, loc).OK?
      modifies this`slots, this`store, txn`rwSet
      ensures Valid() && Serves(txn) && Idle(txn)
      ensures var call := if acquire && old(slots[loc].v.txn) != txn.id then ReadToUpdate(txn.id, loc)
                          else Call.PerformRead(txn.id, loc);
              ok == Succeeds(old(store), call) && store == StoreNext(old(store), call)
      ensures var v := old(slots[loc].v);
              && (ok <==> v.txn == txn.id ||
                          (v.txn == INITIAL_TXN_ID && (acquire ==> v.end == MAX_CID && v.reader <= txn.id)))
              && slots.Keys == old(slots).Keys && (forall l | l in slots && l != loc :: slots[l] == old(slots)[l])
              && slots[loc] == old(slots[loc]).(v := slots[loc].v)
              && (if !ok || v.txn == txn.id then slots[loc].v == v
                  else slots[loc].v == v.(txn := if acquire then txn.id else v.txn, reader := Max(v.reader, txn.id))
                       && loc in txn.Entries())
    {
      hide Reached, Flat, Inserted, HasWrite;
      ghost var call := if acquire && slots[loc].v.txn != txn.id then ReadToUpdate(txn.id, loc)
                        else Call.PerformRead(txn.id, loc);
      NextReached(store, call);
      RunningIsIssued(store, txn.id);
      if IsOwner(txn, loc) {
        OwnedReader(store, loc);
        assert slots[loc].v.reader == txn.id || slots[loc].v.reader == 0;
        ok := true;
      } else if acquire {
        ok := LockForRead(txn, loc);
      } else {
        ok := SetLastReaderCommitId(loc, txn.id, false);
        if ok {
          txn.RecordRead(loc);
        }
      }
      store := StoreNext(store, call);
    }

    /** Select for update: lock, record, then stamp the version. */
    method LockForRead(txn: Transaction, loc: Loc) returns (ok: bool)
      requires loc in slots && txn.Valid() && slots[loc].v.txn != txn.id && txn.id != INITIAL_TXN_ID
      modifies this`slots, txn`rwSet
      ensures txn.Valid()
      ensures var v := old(slots[loc].v);
              && (ok <==> v.txn == INITIAL_TXN_ID && v.end == MAX_CID && v.reader <= txn.id)
              && slots ==
                 (if ok then old(slots)[loc := old(slots[loc]).(v := v.(txn := txn.id, reader := txn.id))]
                  else old(slots))
              && txn.Entries() == if ok then ReadWriteSet.RecordReadOwn(old(txn.Entries()), loc) else old(txn.Entries())
    {
      if !IsOwnable(loc) {
        return false;
      }
      var locked := Lock(txn.id, loc);
      if !locked {
        return false;
      }
      txn.RecordReadOwn(loc);
      ok := SetLastReaderCommitId(loc, txn.id, true);
    }

    // ----- Writes -----

    /** Header writes for a new tuple and its index entry. */
    method PlaceTuple(cid: nat, loc: Loc, key: Key, value: Value)
      requires loc !in slots && key !in heads
      modifies this`slots, this`heads
      ensures Memory(slots, heads) == InsertSlot(old(Memory(slots, heads)), cid, loc, key, value)
    {
      slots := slots[loc := Slot(Version(INVALID_TXN_ID, MAX_CID, MAX_CID, 0, value), None, None, None)];
      slots := SetTransactionId(slots, loc, cid);
      slots := slots[loc := slots[loc].(entry := Some(key))];
      heads := heads[key := loc];
    }

    method PerformInsert(txn: Transaction, loc: Loc, key: Key, value: Value)
      requires Valid() && Serves(txn) && Idle(txn) && loc !in slots && key !in heads
      modifies this, txn`rwSet, txn`insertCount
      ensures store == StoreNext(old(store), Call.PerformInsert(txn.id, loc, key, value))
      ensures slots == old(slots)[loc := Slot(Version(txn.id, MAX_CID, MAX_CID, 0, value), None, None, Some(key))]
      ensures heads == old(heads)[key := loc] && txn.Entries() == old(txn.Entries())[loc := INSERT]
      ensures Valid() && Idle(txn)
      ensures Serves(txn)
    {
      hide Reached, Flat, Inserted, HasWrite;
      NextReached(store, Call.PerformInsert(txn.id, loc, key, value));
      FreshIsUnrecorded(store, txn.id, loc);
      PlaceTuple(txn.id, loc, key, value);
      txn.RecordInsert(loc);
      store := StoreNext(store, Call.PerformInsert(txn.id, loc, key, value));
    }

    /** Put a pending version, whose slot holds `value`, in front of `loc`. A version that is there
        already is linked to the new one, and then the index entry stays. */
    method LinkVersion(txn: Transaction, loc: Loc, new': Loc, end: nat, value: Value)
      requires loc in slots && new' !in slots && (slots[loc].prev.Some? ==> slots[loc].prev.value in slots)
      modifies this`slots, this`heads
      ensures Memory(slots, heads) == LinkNewer(old(Memory(slots, heads)), txn.id, loc, new', end, value)
      ensures PlacedOver(old(slots), slots, loc, new', Version(txn.id, MAX_CID, end, 0, value))
    {
      ghost var o := slots[loc];
      slots := slots[new' := Slot(Version(INVALID_TXN_ID, MAX_CID, MAX_CID, 0, value), None, None, None)];
      var oldPrev := slots[loc].prev;
      slots := SetPrev(slots, loc, Some(new'));
      slots := SetPrev(slots, new', oldPrev);
      slots := SetNext(slots, new', Some(loc));
      slots := SetTransactionId(slots, new', txn.id);
      slots := SetEndCommitId(slots, new', end);
      if oldPrev.None? && slots[loc].entry.Some? {
        slots := slots[new' := slots[new'].(entry := slots[loc].entry)];
        heads := heads[slots[loc].entry.value := new'];
      }
      ghost var entry := if oldPrev.None? then o.entry else None;
      assert slots[loc] == o.(prev := Some(new'));
      assert slots[new'] == Slot(Version(txn.id, MAX_CID, end, 0, value), oldPrev, Some(loc), entry);
      assert slots == old(slots)[loc := o.(prev := Some(new'))]
                                [new' := Slot(Version(txn.id, MAX_CID, end, 0, value), oldPrev, Some(loc), entry)];
      if oldPrev.Some? {
        slots := SetNext(slots, oldPrev.value, Some(new'));
      }
    }

    /** A new version over a committed one that the transaction holds. If the version is the one just
        acquired, or was locked by select-for-update, this is the update of the store model. */
    method PerformUpdate(txn: Transaction, loc: Loc, new': Loc, value: Value)
      requires InStep() && Serves(txn) && CanLink(store, Call.PerformUpdate(txn.id, loc, new', value))
      requires slots[loc].prev.Some? ==> slots[loc].prev.value in slots
      modifies this, txn`rwSet, txn`isWritten
      ensures store == Unchecked(old(store), Call.PerformUpdate(txn.id, loc, new', value))
      ensures PlacedOver(old(slots), slots, loc, new', Version(txn.id, MAX_CID, MAX_CID, 0, value))
      ensures InStep() && Idle(txn)
      ensures Serves(txn)
      ensures old(Valid() && CanWrite(store.txns[txn.id], loc)) ==> Valid()
      ensures old(CanWrite(store.txns[txn.id], loc)) ==>
                store == StoreNext(old(store), Call.PerformUpdate(txn.id, loc, new', value))
    {
      hide Reached, Flat, Inserted, HasWrite;
      ghost var call := Call.PerformUpdate(txn.id, loc, new', value);
      StaysReached(store, call);
      LinkVersion(txn, loc, new', MAX_CID, value);
      txn.RecordUpdate(loc);
      store := Unchecked(store, call);
    }

    /** The same with the empty version of a delete. */
    method PerformDelete(txn: Transaction, loc: Loc, new': Loc)
      requires InStep() && Serves(txn) && CanLink(store, Call.PerformDelete(txn.id, loc, new'))
      requires slots[loc].prev.Some? ==> slots[loc].prev.value in slots
      modifies this, txn
      ensures store == Unchecked(old(store), Call.PerformDelete(txn.id, loc, new'))
      ensures var v := Version(txn.id, MAX_CID, INVALID_CID, 0, old(slots[loc].v.value));
              PlacedOver(old(slots), slots, loc, new', v)
      ensures InStep() && Idle(txn)
      ensures Serves(txn)
      ensures old(Valid() && CanWrite(store.txns[txn.id], loc)) ==> Valid()
      ensures old(CanWrite(store.txns[txn.id], loc)) ==>
                store == StoreNext(old(store), Call.PerformDelete(txn.id, loc, new'))
    {
      hide Reached, Flat, Inserted, HasWrite;
      ghost var call := Call.PerformDelete(txn.id, loc, new');
      StaysReached(store, call);
      LinkVersion(txn, loc, new', INVALID_CID, slots[loc].v.value);
      var own := txn.RecordDelete(loc);
      store := Unchecked(store, call);
    }

    /** PerformUpdate on a version of the transaction's own, whose slot now holds `value`. */
    method UpdateOwnVersion(txn: Transaction, loc: Loc, value: Value)
      requires InStep() && Serves(txn) && Idle(txn) && loc in slots
      requires slots[loc].v.txn == txn.id && Pending(slots[loc].v) && slots[loc].v.end != INVALID_CID
      modifies this, txn`rwSet, txn`isWritten
      ensures store == StoreNext(old(store), UpdateInPlace(txn.id, loc, value))
      ensures slots == old(slots)[loc := old(slots[loc].(v := slots[loc].v.(value := value)))] && heads == old(heads)
      ensures InStep() && Idle(txn)
      ensures Serves(txn)
      ensures old(Valid()) ==> Valid()
    {
      hide Reached, Flat, Inserted, HasWrite;
      StaysReached(store, UpdateInPlace(txn.id, loc, value));
      slots := slots[loc := slots[loc].(v := slots[loc].v.(value := value))];
      if slots[loc].next.Some? {
        txn.RecordUpdate(slots[loc].next.value);
      }
      store := StoreNext(store, UpdateInPlace(txn.id, loc, value));
    }

    /** PerformDelete on a version of the transaction's own; deleting it again changes nothing. */
    method DeleteOwnVersion(txn: Transaction, loc: Loc)
      requires InStep() && Serves(txn) && Idle(txn) && loc in slots
      requires slots[loc].v.txn == txn.id && Pending(slots[loc].v)
      requires slots[loc].v.end == INVALID_CID ==> IsDeleted(store.txns[txn.id].rw, slots[loc], loc)
      modifies this, txn
      ensures store == StoreNext(old(store), DeleteInPlace(txn.id, loc))
      ensures slots == SetEndCommitId(old(slots), loc, INVALID_CID) && heads == old(heads)
      ensures InStep() && Idle(txn)
      ensures Serves(txn)
      ensures old(Valid()) ==> Valid()
    {
      hide Reached, Flat, Inserted, HasWrite;
      StaysReached(store, DeleteInPlace(txn.id, loc));
      slots := SetEndCommitId(slots, loc, INVALID_CID);
      assert Memory(slots, heads) == SetVersion(store.mem, loc, store.mem.slots[loc].v.(end := INVALID_CID));
      assert store.mem.slots[loc].v.end == INVALID_CID ==> slots == store.mem.slots;
      var own := txn.RecordDelete(if slots[loc].next.Some? then slots[loc].next.value else loc);
      store := StoreNext(store, DeleteInPlace(txn.id, loc));
    }

    // ----- Commit and abort -----

    /** Install one entry of the write set. */
    method CommitEntry(cid: nat, loc: Loc, t: RWType, gc: GCSet) returns (gc': GCSet)
      requires Processable(slots, loc, t) && IsIssued(cid)
      modifies this`slots
      ensures slots == CommitWrites(old(slots), cid, loc, t)
      ensures gc' == CommitRecycles(gc, loc, t, old(NewOf(Memory(slots, heads), loc)))
    {
      gc' := gc;
      match t
      case READ =>
      case READ_OWN => slots := SetTransactionId(slots, loc, INITIAL_TXN_ID);
      case UPDATE =>
        var new', end := slots[loc].prev.value, slots[loc].v.end;
        assert end > cid;
        slots := SetBeginCommitId(slots, new', cid);
        slots := SetEndCommitId(slots, new', end);
        slots := SetEndCommitId(slots, loc, cid);
        slots := SetTransactionId(slots, new', INITIAL_TXN_ID);
        slots := SetTransactionId(slots, loc, INITIAL_TXN_ID);
        gc' := gc'[loc := false];
      case DELETE =>
        var new', end := slots[loc].prev.value, slots[loc].v.end;
        assert end > cid;
        slots := SetBeginCommitId(slots, new', cid);
        slots := SetEndCommitId(slots, new', end);
        slots := SetEndCommitId(slots, loc, cid);
        slots := SetTransactionId(slots, new', INVALID_TXN_ID);
        slots := SetTransactionId(slots, loc, INITIAL_TXN_ID);
        gc' := gc'[loc := true][new' := false];
      case INSERT =>
        slots := SetBeginCommitId(slots, loc, cid);
        slots := SetEndCommitId(slots, loc, MAX_CID);
        slots := SetTransactionId(slots, loc, INITIAL_TXN_ID);
      case INS_DEL =>
        slots := SetBeginCommitId(slots, loc, MAX_CID);
        slots := SetEndCommitId(slots, loc, MAX_CID);
        slots := SetTransactionId(slots, loc, INVALID_TXN_ID);
        gc' := gc'[loc := true];
    }

    /** Install one tile group's entries, in whatever order its map is traversed. */
    method CommitGroup(txn: Transaction, group: nat, gc: GCSet, ghost m: Memory, ghost done: set<Loc>)
      returns (gc': GCSet, ghost done': set<Loc>)
      requires group in txn.rwSet && Separated(m, txn.Entries()) && IsIssued(txn.id)
      requires forall l | l in txn.Entries() && l.block == group :: l !in done
      requires slots == Committing(m, txn.Entries(), done, txn.id) &&
               gc == CommitGarbage(m, Restrict(txn.Entries(), done))
      modifies this`slots
      ensures slots == Committing(m, txn.Entries(), done', txn.id) &&
              gc' == CommitGarbage(m, Restrict(txn.Entries(), done'))
      ensures forall l | l in txn.Entries() :: l in done' <==> l in done || l.block == group
    {
      hide Committing, CommitGarbage, CommitRecycles, CommitWrites, Processable, Separated;
      gc', done' := gc, done;
      ghost var rw := txn.Entries();
      var tuples := txn.rwSet[group].Keys;
      while tuples != {}
        invariant tuples <= txn.rwSet[group].Keys
        invariant forall l | l in rw :: l in done' <==> l in done || (l.block == group && l.offset !in tuples)
        invariant slots == Committing(m, rw, done', txn.id) && gc' == CommitGarbage(m, Restrict(rw, done'))
      {
        var tuple :| tuple in tuples;
        var loc := Loc(group, tuple);
        assert loc in rw && rw[loc] == txn.rwSet[group][tuple];
        CommitStep(m, rw, done', txn.id, loc);
        gc' := CommitEntry(txn.id, loc, txn.rwSet[group][tuple], gc');
        done', tuples := done' + {loc}, tuples - {tuple};
      }
    }

    method CommitAll(txn: Transaction) returns (gc: GCSet)
      requires Separated(Memory(slots, heads), txn.Entries()) && IsIssued(txn.id)
      modifies this`slots
      ensures Memory(slots, heads) == CommitMemory(old(Memory(slots, heads)), txn.Entries(), txn.id)
      ensures gc == CommitGarbage(old(Memory(slots, heads)), txn.Entries())
    {
      hide Committing, CommitMemory, CommitGarbage, Restrict, Separated, Flat;
      ghost var m, done := Memory(slots, heads), {};
      NothingDone(m, txn.Entries(), txn.id);
      BlocksListed(txn.rwSet);
      gc := map[];
      var groups := txn.rwSet.Keys;
      while groups != {}
        invariant groups <= txn.rwSet.Keys
        invariant forall l | l in txn.Entries() :: l in done <==> l.block !in groups
        invariant slots == Committing(m, txn.Entries(), done, txn.id) &&
                  gc == CommitGarbage(m, Restrict(txn.Entries(), done))
      {
        var group :| group in groups;
        gc, done := CommitGroup(txn, group, gc, m, done);
        groups := groups - {group};
      }
      AllDone(m, txn.Entries(), done, txn.id);
    }

    method CommitTransaction(txn: Transaction) returns (gc: GCSet)
      requires Valid() && Serves(txn) && Idle(txn)
      modifies this
      ensures store == StoreNext(old(store), Call.CommitTransaction(txn.id))
      ensures Valid() && gc == CommitGarbage(old(store.mem), txn.Entries())
      ensures slots.Keys == old(slots).Keys && heads == old(heads)
      ensures forall l :: l in gc <==> l in slots && old(slots)[l].v.txn == txn.id && IsGarbage(slots[l].v, txn.id)
      ensures forall l | l in gc :: l in old(slots) && (gc[l] <==> EndsChain(old(Memory(slots, heads)), l))
    {
      hide Reached, Flat, Inserted, HasWrite, Separated, CommitMemory, CommitGarbage, IsGarbage, EndsChain;
      forall l {
        CommitGarbageIs(store, txn.id, l);
      }
      NextReached(store, Call.CommitTransaction(txn.id));
      WriteSetSeparated(store, txn.id);
      RunningIsIssued(store, txn.id);
      gc := CommitAll(txn);
      store := StoreNext(store, Call.CommitTransaction(txn.id));
    }

    /** Undo one entry of the write set. */
    method AbortEntry(loc: Loc, t: RWType, gc: GCSet) returns (gc': GCSet)
      requires Processable(slots, loc, t)
      modifies this`slots, this`heads
      ensures slots == AbortWrites(old(slots), loc, t)
      ensures heads == AbortHeads(old(Memory(slots, heads)), loc, t)
      ensures gc' == AbortRecycles(gc, loc, t, old(NewOf(Memory(slots, heads), loc)))
    {
      gc' := gc;
      if t.READ_OWN? {
        slots := SetTransactionId(slots, loc, INITIAL_TXN_ID);
      } else if t.UPDATE? || t.DELETE? {
        var new' := slots[loc].prev.value;
        slots := SetBeginCommitId(slots, new', MAX_CID);
        slots := SetEndCommitId(slots, new', MAX_CID);
        assert slots[new'].prev.None? && slots[loc].v.end == MAX_CID;
        // Nothing is in front of the dropped version, so the index entry goes back first.
        heads := heads[slots[loc].entry.value := loc];
        slots := SetTransactionId(slots, new', INVALID_TXN_ID);
        slots := SetPrev(slots, loc, slots[new'].prev);
        slots := SetTransactionId(slots, loc, INITIAL_TXN_ID);
        gc' := gc'[new' := false];
      } else if t.INSERT? || t.INS_DEL? {
        slots := SetBeginCommitId(slots, loc, MAX_CID);
        slots := SetEndCommitId(slots, loc, MAX_CID);
        slots := SetTransactionId(slots, loc, INVALID_TXN_ID);
        gc' := gc'[loc := true];
      }
    }

    /** Undo one tile group's entries, in whatever order its map is traversed. */
    method AbortGroup(txn: Transaction, group: nat, gc: GCSet, ghost m: Memory, ghost done: set<Loc>)
      returns (gc': GCSet, ghost done': set<Loc>)
      requires group in txn.rwSet && Separated(m, txn.Entries())
      requires forall l | l in txn.Entries() && l.block == group :: l !in done
      requires Memory(slots, heads) == Aborting(m, txn.Entries(), done, txn.id) &&
               gc == AbortGarbage(m, Restrict(txn.Entries(), done))
      modifies this`slots, this`heads
      ensures Memory(slots, heads) == Aborting(m, txn.Entries(), done', txn.id) &&
              gc' == AbortGarbage(m, Restrict(txn.Entries(), done'))
      ensures forall l | l in txn.Entries() :: l in done' <==> l in done || l.block == group
    {
      hide Aborting, AbortGarbage, AbortRecycles, AbortWrites, AbortHeads, Processable, Separated;
      gc', done' := gc, done;
      ghost var rw := txn.Entries();
      var tuples := txn.rwSet[group].Keys;
      while tuples != {}
        invariant tuples <= txn.rwSet[group].Keys
        invariant forall l | l in rw :: l in done' <==> l in done || (l.block == group && l.offset !in tuples)
        invariant Memory(slots, heads) == Aborting(m, rw, done', txn.id) && gc' == AbortGarbage(m, Restrict(rw, done'))
      {
        var tuple :| tuple in tuples;
        var loc := Loc(group, tuple);
        assert loc in rw && rw[loc] == txn.rwSet[group][tuple];
        AbortStep(m, rw, done', txn.id, loc);
        gc' := AbortEntry(loc, txn.rwSet[group][tuple], gc');
        done', tuples := done' + {loc}, tuples - {tuple};
      }
    }

    method AbortAll(txn: Transaction) returns (gc: GCSet)
      requires Separated(Memory(slots, heads), txn.Entries())
      modifies this`slots, this`heads
      ensures Memory(slots, heads) == AbortMemory(old(Memory(slots, heads)), txn.Entries(), txn.id)
      ensures gc == AbortGarbage(old(Memory(slots, heads)), txn.Entries())
    {
      hide Aborting, AbortMemory, AbortGarbage, Restrict, Separated, Flat;
      ghost var m, done := Memory(slots, heads), {};
      NothingDone(m, txn.Entries(), txn.id);
      BlocksListed(txn.rwSet);
      gc := map[];
      var groups := txn.rwSet.Keys;
      while groups != {}
        invariant groups <= txn.rwSet.Keys
        invariant forall l | l in txn.Entries() :: l in done <==> l.block !in groups
        invariant Memory(slots, heads) == Aborting(m, txn.Entries(), done, txn.id) &&
                  gc == AbortGarbage(m, Restrict(txn.Entries(), done))
      {
        var group :| group in groups;
        gc, done := AbortGroup(txn, group, gc, m, done);
        groups := groups - {group};
      }
      AllDone(m, txn.Entries(), done, txn.id);
    }

    method AbortTransaction(txn: Transaction) returns (gc: GCSet)
      requires Valid() && Serves(txn) && Idle(txn)
      modifies this
      ensures store == StoreNext(old(store), Call.AbortTransaction(txn.id))
      ensures Valid() && gc == AbortGarbage(old(store.mem), txn.Entries())
      ensures forall l :: l in gc <==> l in old(slots) && old(slots)[l].v.txn == txn.id && Pending(old(slots)[l].v)
      ensures forall l | l in gc :: l in old(slots) && (gc[l] <==> old(slots)[l].next.None?)
    {
      hide Reached, Flat, Inserted, HasWrite, Separated, AbortMemory, AbortGarbage;
      forall l {
        AbortGarbageIs(store, txn.id, l);
      }
      NextReached(store, Call.AbortTransaction(txn.id));
      WriteSetSeparated(store, txn.id);
      gc := AbortAll(txn);
      store := StoreNext(store, Call.AbortTransaction(txn.id));
    }
  }
}
