/** What commit and abort hand to the garbage collector, read off the version headers alone. */
module GarbageSets {
  import opened Types
  import opened VersionChain
  import opened Replay
  import opened Protocol
  import opened ReadWriteSet
  import opened Store
  import opened StoreInvariant
  import opened StoreSteps
  import opened StoreCommit
  import opened StoreRefinement
  import opened AbortUndo
  import opened CommitLoop
  import opened Verdicts

  /** Before the commit, the version at `l` is the one whose chain the commit ends: its tombstone
      is in front of it, or it was inserted and deleted by the same transaction. */
  predicate EndsChain(m: Memory, l: Loc)
    requires l in m.slots
  {
    var sl := m.slots[l];
    if Pending(sl.v) then sl.next.None? && sl.v.end == INVALID_CID
    else sl.prev.Some? && sl.prev.value in m.slots && m.slots[sl.prev.value].v.end == INVALID_CID
  }

  /** What is known of the entries around a slot that transaction `c` is about to finish. */
  ghost predicate Surveyed(st: Store, c: nat, l: Loc) {
    && Finishing(st, c) && l in st.mem.slots && SlotOk(st, l) && IsIssued(c)
    && (l in st.txns[c].rw ==> EntryOk(st, c, l))
    && (IsIssued(st.mem.slots[l].v.txn) && !Pending(st.mem.slots[l].v) ==> st.mem.slots[l].v.end == MAX_CID)
    && var next := st.mem.slots[l].next;
       next.Some? && next.value in st.txns[c].rw ==>
         && EntryOk(st, c, next.value)
         && (!Pending(st.mem.slots[next.value].v) && st.mem.slots[next.value].v.txn == c ==>
               st.mem.slots[next.value].v.end == MAX_CID)
  }

  lemma Survey(st: Store, c: nat, l: Loc)
    requires Reached(st) && Succeeds(st, CommitTransaction(c)) && l in st.mem.slots
    ensures Surveyed(st, c, l)
  {
    hide Reached, EntryOk, Accounted;
    ReachedConsistent(st);
    ReachedSession(st, c);
    ConsistentSession(st, c);
    ConsistentSlot(st, l);
    OpenIfLocked(st, l);
    var next := st.mem.slots[l].next;
    if next.Some? && next.value in st.txns[c].rw {
      OnListHasSlot(st, c, next.value);
      OpenIfLocked(st, next.value);
    }
  }

  lemma OnListHasSlot(st: Store, c: nat, l: Loc)
    requires c in st.txns && l in st.txns[c].rw && EntryOk(st, c, l)
    ensures l in st.mem.slots
  {
  }

  /** Installing one entry recycles exactly the slots that it turns into garbage. */
  lemma EntryRecycles(s: Slots, c: nat, loc: Loc, t: RWType, gc: GCSet, heads: map<Key, Loc>, l: Loc)
    requires HeldEntry(s, c, loc, t) && IsIssued(c) && l in s
    ensures var s' := CommitWrites(s, c, loc, t);
            && s'.Keys == s.Keys
            && (l in CommitRecycles(gc, loc, t, NewOf(Memory(s, heads), loc)) <==>
                l in gc || (s'[l] != s[l] && IsGarbage(s'[l].v, c)))
  {
  }

  /** Undoing one entry recycles exactly the slots that it makes unusable. */
  lemma UndoRecycles(s: Slots, loc: Loc, t: RWType, gc: GCSet, heads: map<Key, Loc>, l: Loc)
    requires Processable(s, loc, t) && l in s && s[l].v.txn != INVALID_TXN_ID
    ensures var s' := AbortWrites(s, loc, t);
            && s'.Keys == s.Keys
            && (l in AbortRecycles(gc, loc, t, NewOf(Memory(s, heads), loc)) <==>
                l in gc || s'[l].v.txn == INVALID_TXN_ID)
  {
  }

  /** A COMMIT'S GARBAGE. The slots handed over are exactly those that the transaction held and
      that the commit leaves as garbage, and the index entry goes with the version that ends its
      chain. */
  lemma CommitGarbageIs(st: Store, c: nat, l: Loc)
    requires Reached(st) && Succeeds(st, CommitTransaction(c))
    ensures var st', gc := StoreNext(st, CommitTransaction(c)), CommitGarbage(st.mem, st.txns[c].rw);
            && st'.mem.slots.Keys == st.mem.slots.Keys
            && (l in gc <==> l in st.mem.slots && st.mem.slots[l].v.txn == c && IsGarbage(st'.mem.slots[l].v, c))
            && (l in gc ==> (gc[l] <==> EndsChain(st.mem, l)))
  {
    hide Reached, Surveyed, CommitSlot, CommitGarbageAt, EndsChain, IsGarbage;
    if l in st.mem.slots {
      Survey(st, c, l);
      CommitGarbageSlot(st, c, l);
    }
  }

  lemma CommitGarbageSlot(st: Store, c: nat, l: Loc)
    requires Surveyed(st, c, l)
    ensures var g := CommitGarbageAt(st.mem, st.txns[c].rw, l);
            && (g.Some? <==> st.mem.slots[l].v.txn == c && IsGarbage(CommitSlot(st.mem, st.txns[c].rw, c, l).v, c))
            && (g.Some? ==> (g.value <==> EndsChain(st.mem, l)))
  {
    hide SessionOk;
    if st.mem.slots[l].v.txn != c {
      UntouchedSlot(st, c, l);
    }
  }

  /** AN ABORT'S GARBAGE. The slots handed over are exactly those that the transaction created,
      and the index entry goes when there is no older version to go back to. */
  lemma AbortGarbageIs(st: Store, c: nat, l: Loc)
    requires Reached(st) && Succeeds(st, AbortTransaction(c))
    ensures var gc := AbortGarbage(st.mem, st.txns[c].rw);
            && (l in gc <==> Created(st, c, l))
            && (l in gc ==> (gc[l] <==> st.mem.slots[l].next.None?))
  {
    hide Reached, Surveyed, AbortGarbageAt;
    if l in st.mem.slots {
      Survey(st, c, l);
      AbortGarbageSlot(st, c, l);
    }
  }

  lemma AbortGarbageSlot(st: Store, c: nat, l: Loc)
    requires Surveyed(st, c, l)
    ensures var g := AbortGarbageAt(st.mem, st.txns[c].rw, l);
            && (g.Some? <==> Created(st, c, l))
            && (g.Some? ==> (g.value <==> st.mem.slots[l].next.None?))
  {
    hide SessionOk;
    if st.mem.slots[l].v.txn != c {
      UntouchedSlot(st, c, l);
    }
  }

  // ----- One index entry per deleted chain -----

  /** The commit of `c` deletes the tuple: the head of its chain is a deletion mark of `c`. */
  predicate Deletes(m: Memory, c: nat, k: Key) {
    && k in m.heads && m.heads[k] in m.slots
    && var v := m.slots[m.heads[k]].v; v.txn == c && Pending(v) && v.end == INVALID_CID
  }

  /** The slot of chain `k` with which the index entry goes: the version under the deletion mark,
      or the mark itself when the tuple has no other version. */
  function Carrier(m: Memory, k: Key): Loc
    requires k in m.heads && m.heads[k] in m.slots
  {
    if m.slots[m.heads[k]].next.Some? then m.slots[m.heads[k]].next.value else m.heads[k]
  }

  /** Index entries go one for each deleted chain: a chain that the commit deletes has exactly one
      slot with the flag, and any other chain has none. */
  lemma OneFlagPerDeletion(st: Store, c: nat, k: Key, l: Loc)
    requires Reached(st) && Succeeds(st, CommitTransaction(c)) && k in st.order && l in st.order[k]
    ensures var gc := CommitGarbage(st.mem, st.txns[c].rw);
            && k in st.mem.heads && st.mem.heads[k] in st.mem.slots
            && (l in gc && gc[l] <==> Deletes(st.mem, c, k) && l == Carrier(st.mem, k))
            && (Deletes(st.mem, c, k) ==> Carrier(st.mem, k) in st.order[k])
  {
    hide Reached, Surveyed, Consistent, Linked, EntryOk, Deletes;
    ReachedConsistent(st);
    ChainListed(st, k, l);
    HeadListed(st, k);
    Survey(st, c, l);
    Survey(st, c, st.mem.heads[k]);
    if Pending(st.mem.slots[l].v) {
      PendingIsHead(st, l);
    }
    FlaggedIsCarrier(st, c, k, l);
    CarrierIsFlagged(st, c, k);
  }

  lemma FlaggedIsCarrier(st: Store, c: nat, k: Key, l: Loc)
    requires k in st.order && Surveyed(st, c, l) && Linked(st.mem, k, st.order[k]) && l in st.order[k]
    requires Pending(st.mem.slots[l].v) ==> st.mem.heads[k] == l
    ensures CommitGarbageAt(st.mem, st.txns[c].rw, l) == Some(true) ==>
              st.mem.heads[k] in st.mem.slots && Deletes(st.mem, c, k) && l == Carrier(st.mem, k)
  {
    var i :| 0 <= i < |st.order[k]| && st.order[k][i] == l;
    assert Neighbours(st.mem, st.order[k], i);
    if l in st.txns[c].rw && st.txns[c].rw[l].DELETE? {
      var new' := st.mem.slots[l].prev.value;
      assert Neighbours(st.mem, st.order[k], i + 1);
    }
  }

  lemma CarrierIsFlagged(st: Store, c: nat, k: Key)
    requires k in st.mem.heads && st.mem.heads[k] in st.mem.slots && Surveyed(st, c, st.mem.heads[k])
    requires st.mem.slots[st.mem.heads[k]].next.Some? ==> st.mem.slots[st.mem.heads[k]].next.value in st.mem.slots
    ensures Deletes(st.mem, c, k) ==>
              Carrier(st.mem, k) in st.mem.slots
              && CommitGarbageAt(st.mem, st.txns[c].rw, Carrier(st.mem, k)) == Some(true)
  {
  }

  /** An uncommitted version is the newest of its chain. */
  lemma PendingIsHead(st: Store, l: Loc)
    requires Consistent(st) && OnList(st, l) && Pending(st.mem.slots[l].v)
    ensures KeyAt(st, l) in st.mem.heads && st.mem.heads[KeyAt(st, l)] == l
  {
    var s :| Simulates(st, s);
    AllPlaced(st, s, l);
    SlotIsVersion(st, s, l);
    var k, i := KeyAt(st, l), IndexAt(st, l);
    assert ChainOk(s, k);
    assert i < |s.chains[k]| - 1 ==> Superseded(s.chains[k][i], s.chains[k][i + 1]);
    assert Linked(st.mem, k, st.order[k]);
  }

  lemma HeadListed(st: Store, k: Key)
    requires Consistent(st) && k in st.order
    ensures k in st.mem.heads && st.mem.heads[k] in st.order[k] && st.mem.heads[k] in st.mem.slots
    ensures var next := st.mem.slots[st.mem.heads[k]].next;
            next.Some? ==> next.value in st.order[k] && next.value in st.mem.slots
  {
    assert Linked(st.mem, k, st.order[k]);
    assert Neighbours(st.mem, st.order[k], |st.order[k]| - 1);
  }

  lemma ChainListed(st: Store, k: Key, l: Loc)
    requires Consistent(st) && k in st.order && l in st.order[k]
    ensures Linked(st.mem, k, st.order[k]) && OnList(st, l) && KeyAt(st, l) == k
  {
    assert Linked(st.mem, k, st.order[k]);
  }
}
