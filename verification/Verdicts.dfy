/** What a reader at a fixed timestamp sees of each slot, and which calls can change it. */
module Verdicts {
  import opened Types
  import opened VersionChain
  import opened ReadWriteSet
  import opened Store
  import opened StoreInvariant
  import opened StoreCommit
  import opened StoreRefinement
  import opened AbortUndo
  import opened CommitLoop

  /** IsVisible for a read-only transaction: its transaction id is its read timestamp and its
      read/write set is empty. */
  function Verdict(v: Version, rs: nat): Visibility {
    IsVisible(rs, rs, v.txn, v.begin, v.end, false)
  }

  // ----- Calls of transactions that began after the reader's timestamp -----

  lemma SlotCallKeepsVerdict(st: Store, call: Call, l: Loc, rs: nat)
    requires OnSlot(call) && Succeeds(st, call) && SessionOk(st, call.c) && l in st.mem.slots
    requires 1 < rs < call.c < MAX_CID
    requires call.PerformUpdate? || call.PerformDelete? ==> st.mem.slots[call.loc].prev.None?
    ensures l in Effect(st, call).mem.slots &&
            Verdict(Effect(st, call).mem.slots[l].v, rs) == Verdict(st.mem.slots[l].v, rs)
  {
    assert call.loc in st.txns[call.c].rw ==> EntryOk(st, call.c, call.loc);
  }

  lemma CommitKeepsVerdict(st: Store, c: nat, l: Loc, rs: nat)
    requires Finishing(st, c) && l in st.mem.slots && 1 < rs < c < MAX_CID
    requires st.mem.slots[l].v.txn == c && !Pending(st.mem.slots[l].v) ==> st.mem.slots[l].v.end == MAX_CID
    ensures Verdict(CommitSlot(st.mem, st.txns[c].rw, c, l).v, rs) == Verdict(st.mem.slots[l].v, rs)
  {
    var rw, sl := st.txns[c].rw, st.mem.slots[l];
    if sl.v.txn != c {
      UntouchedSlot(st, c, l);
    } else {
      assert l in rw ==> EntryOk(st, c, l);
      assert sl.next.Some? && sl.next.value in rw ==> EntryOk(st, c, sl.next.value);
    }
  }

  lemma AbortKeepsVerdict(st: Store, c: nat, l: Loc, rs: nat)
    requires Finishing(st, c) && l in st.mem.slots && 1 < rs < c < MAX_CID
    ensures Verdict(AbortSlot(st.mem, st.txns[c].rw, c, l).v, rs) == Verdict(st.mem.slots[l].v, rs)
  {
    var rw, sl := st.txns[c].rw, st.mem.slots[l];
    if sl.v.txn != c {
      UntouchedSlot(st, c, l);
    } else {
      assert l in rw ==> EntryOk(st, c, l);
      assert sl.next.Some? && sl.next.value in rw ==> EntryOk(st, c, sl.next.value);
    }
  }

  lemma OpenIfLocked(st: Store, l: Loc)
    requires Reached(st) && l in st.mem.slots
    ensures IsIssued(st.mem.slots[l].v.txn) && !Pending(st.mem.slots[l].v) ==> st.mem.slots[l].v.end == MAX_CID
  {
    ReachedConsistent(st);
    if IsIssued(st.mem.slots[l].v.txn) && !Pending(st.mem.slots[l].v) {
      LockedIsOpen(st, l);
    }
  }

  /** No call of a later transaction changes what a reader sees of an existing slot. */
  lemma CallKeepsVerdict(st: Store, call: Call, l: Loc, rs: nat)
    requires Reached(st) && Succeeds(st, call) && l in st.mem.slots && 1 < rs && (!call.BeginTxn? ==> rs < call.c)
    ensures l in Effect(st, call).mem.slots &&
            Verdict(Effect(st, call).mem.slots[l].v, rs) == Verdict(st.mem.slots[l].v, rs)
  {
    if !call.BeginTxn? {
      ReachedSession(st, call.c);
      if call.CommitTransaction? {
        OpenIfLocked(st, l);
        CommitKeepsVerdict(st, call.c, l, rs);
      } else if call.AbortTransaction? {
        AbortKeepsVerdict(st, call.c, l, rs);
      } else if OnSlot(call) {
        if call.PerformUpdate? || call.PerformDelete? {
          WritesNewest(st, call);
        }
        SlotCallKeepsVerdict(st, call, l, rs);
      }
    }
  }

  /** A slot that comes into use shows a reader nothing, unless the writer has the reader's own
      timestamp as its id: then the reader takes the uncommitted tuple for its own. */
  lemma NewSlotVerdict(st: Store, call: Call, l: Loc, rs: nat)
    requires Succeeds(st, call) && l !in st.mem.slots && l in Effect(st, call).mem.slots && 1 < rs < MAX_CID
    requires IsIssued(call.c)
    ensures Verdict(Effect(st, call).mem.slots[l].v, rs) != INVISIBLE <==> call.c == rs
    ensures call.PerformInsert? ==> (Verdict(Effect(st, call).mem.slots[l].v, rs) == OK <==> call.c == rs)
  {
  }

  // ----- Garbage -----

  /** An overwritten version that ended with transaction `c`, or a slot nobody can see. */
  predicate IsGarbage(v: Version, c: nat) {
    v.txn == INVALID_TXN_ID || (!Pending(v) && v.end == c)
  }

  /** Everything a commit hands to the collector is garbage once the commit is installed. */
  lemma CommitLeavesGarbage(st: Store, c: nat, l: Loc)
    requires Reached(st) && Succeeds(st, CommitTransaction(c)) && l in CommitGarbage(st.mem, st.txns[c].rw)
    ensures l in st.mem.slots && IsGarbage(CommitSlot(st.mem, st.txns[c].rw, c, l).v, c)
  {
    ReachedSession(st, c);
    assert l in st.txns[c].rw ==> EntryOk(st, c, l);
  }

  lemma AbortLeavesGarbage(st: Store, c: nat, l: Loc)
    requires Reached(st) && Succeeds(st, AbortTransaction(c)) && l in AbortGarbage(st.mem, st.txns[c].rw)
    ensures l in st.mem.slots && IsGarbage(AbortSlot(st.mem, st.txns[c].rw, c, l).v, c)
  {
  }

  /** Dead slots and tombstones are never touched again. */
  lemma UnusableStays(st: Store, call: Call, l: Loc)
    requires Reached(st) && Succeeds(st, call) && l in st.mem.slots && st.mem.slots[l].v.txn == INVALID_TXN_ID
    ensures l in Effect(st, call).mem.slots && Effect(st, call).mem.slots[l].v == st.mem.slots[l].v
  {
    if !call.BeginTxn? {
      ReachedSession(st, call.c);
      if call.CommitTransaction? || call.AbortTransaction? {
        UntouchedSlot(st, call.c, l);
      } else if OnSlot(call) {
        UnusableSlotCall(st, call, l);
      }
    }
  }

  lemma UnusableSlotCall(st: Store, call: Call, l: Loc)
    requires OnSlot(call) && Succeeds(st, call) && l in st.mem.slots && st.mem.slots[l].v.txn == INVALID_TXN_ID
    requires IsIssued(call.c)
    ensures l in Effect(st, call).mem.slots && Effect(st, call).mem.slots[l].v == st.mem.slots[l].v
  {
  }

  lemma GarbageStays(st: Store, call: Call, l: Loc, c: nat)
    requires Reached(st) && Succeeds(st, call) && l in st.mem.slots && IsGarbage(st.mem.slots[l].v, c) && c != MAX_CID
    ensures l in Effect(st, call).mem.slots && IsGarbage(Effect(st, call).mem.slots[l].v, c)
  {
    if st.mem.slots[l].v.txn == INVALID_TXN_ID {
      UnusableStays(st, call, l);
    } else {
      ReachedConsistent(st);
      CallKeeps(st, call, l);
    }
  }
}
