/** Aborting a transaction restores the state it found. */
module AbortUndo {
  import opened Types
  import opened VersionChain
  import opened Replay
  import opened Protocol
  import opened ProtocolInvariant
  import opened ProtocolCommit
  import opened ReadWriteSet
  import opened Store
  import opened StoreInvariant
  import opened StoreSteps
  import opened StoreCommit
  import opened StoreRefinement
  import opened StoreSafety

  /** A locked version has no end stamp yet. */
  lemma OwnedIsOpen(ch: Chain, i: nat)
    requires WellFormed(ch) && i < |ch| && IsIssued(ch[i].txn) && !Pending(ch[i])
    ensures ch[i].end == MAX_CID
  {
    if i < |ch| - 1 {
      assert Superseded(ch[i], ch[i + 1]);
    }
  }

  lemma LockedIsOpen(st: Store, loc: Loc)
    requires Consistent(st) && loc in st.mem.slots && IsIssued(st.mem.slots[loc].v.txn) && !Pending(st.mem.slots[loc].v)
    ensures st.mem.slots[loc].v.end == MAX_CID
  {
    var s :| Simulates(st, s);
    assert OnList(st, loc) || Dead(st.mem.slots[loc].v);
    AllPlaced(st, s, loc);
    SlotIsVersion(st, s, loc);
    var k := KeyAt(st, loc);
    assert ChainOk(s, k);
    OwnedIsOpen(s.chains[k], IndexAt(st, loc));
  }

  /** What no call takes away from a committed version. */
  predicate Kept(sl: Slot, sl': Slot) {
    && !Pending(sl'.v) && sl'.v.begin == sl.v.begin && sl'.v.value == sl.v.value
    && sl'.next == sl.next && sl'.entry == sl.entry && sl.v.reader <= sl'.v.reader
    && (sl.v.end != MAX_CID ==> sl'.v.end == sl.v.end)
  }

  lemma SlotCallKeeps(st: Store, call: Call, loc: Loc)
    requires OnSlot(call) && Succeeds(st, call) && SessionOk(st, call.c)
    requires loc in st.mem.slots && !Pending(st.mem.slots[loc].v)
    requires call.PerformUpdate? || call.PerformDelete? ==> st.mem.slots[call.loc].prev.None?
    ensures loc in Effect(st, call).mem.slots && Kept(st.mem.slots[loc], Effect(st, call).mem.slots[loc])
  {
  }

  lemma FinishKeeps(st: Store, c: nat, loc: Loc)
    requires Finishing(st, c) && loc in st.mem.slots && !Pending(st.mem.slots[loc].v)
    requires st.mem.slots[loc].v.txn == c ==> st.mem.slots[loc].v.end == MAX_CID
    ensures Kept(st.mem.slots[loc], CommitSlot(st.mem, st.txns[c].rw, c, loc))
    ensures Kept(st.mem.slots[loc], AbortSlot(st.mem, st.txns[c].rw, c, loc))
  {
    var rw, sl := st.txns[c].rw, st.mem.slots[loc];
    if sl.v.txn != c {
      UntouchedSlot(st, c, loc);
    } else {
      assert loc in rw ==> EntryOk(st, c, loc);
      assert sl.next.Some? && sl.next.value in rw ==> EntryOk(st, c, sl.next.value);
    }
  }

  lemma WritesNewest(st: Store, call: Call)
    requires (call.PerformUpdate? || call.PerformDelete?) && Succeeds(st, call) && SessionOk(st, call.c)
    ensures st.mem.slots[call.loc].prev.None?
  {
    assert call.loc in st.txns[call.c].rw ==> EntryOk(st, call.c, call.loc);
  }

  lemma KeptSame(sl: Slot)
    requires !Pending(sl.v)
    ensures Kept(sl, sl)
  {
  }

  lemma ConsistentSession(st: Store, c: nat)
    requires Consistent(st) && Running(st, c)
    ensures Links(st) && SessionOk(st, c) && (st.txns[c].acquired.None? ==> Finishing(st, c))
  {
    assert SessionOk(st, c);
  }

  lemma ConsistentSlot(st: Store, loc: Loc)
    requires Consistent(st) && loc in st.mem.slots
    ensures Links(st) && SlotOk(st, loc)
  {
  }

  lemma CallKeeps(st: Store, call: Call, loc: Loc)
    requires Consistent(st) && loc in st.mem.slots && !Pending(st.mem.slots[loc].v)
    ensures loc in StoreNext(st, call).mem.slots && Kept(st.mem.slots[loc], StoreNext(st, call).mem.slots[loc])
  {
    hide Kept, EffectAt, CommitSlot, AbortSlot, Consistent, SessionOk, Finishing;
    KeptSame(st.mem.slots[loc]);
    if Succeeds(st, call) && !call.BeginTxn? {
      ConsistentSession(st, call.c);
      if call.CommitTransaction? || call.AbortTransaction? {
        if st.mem.slots[loc].v.txn == call.c {
          LockedIsOpen(st, loc);
        }
        FinishKeeps(st, call.c, loc);
      } else if OnSlot(call) {
        if call.PerformUpdate? || call.PerformDelete? {
          WritesNewest(st, call);
        }
        SlotCallKeeps(st, call, loc);
      }
    }
  }

  lemma {:induction false} RunKeeps(st: Store, more: seq<Call>, loc: Loc)
    requires Consistent(st) && loc in st.mem.slots && !Pending(st.mem.slots[loc].v)
    ensures loc in StoreRun(st, more).mem.slots && Kept(st.mem.slots[loc], StoreRun(st, more).mem.slots[loc])
  {
    hide Consistent, StoreNext;
    if |more| > 0 {
      var n := |more| - 1;
      RunKeeps(st, more[..n], loc);
      RunConsistent(st, more[..n]);
      CallKeeps(StoreRun(st, more[..n]), more[n], loc);
    }
  }

  /** A committed, unlocked version without an end stamp is the head of its chain. */
  lemma OpenIsHead(st: Store, loc: Loc)
    requires Consistent(st) && loc in st.mem.slots
    requires st.mem.slots[loc].v.txn == INITIAL_TXN_ID && st.mem.slots[loc].v.end == MAX_CID
    ensures st.mem.slots[loc].prev.None? && st.mem.slots[loc].entry.Some?
    ensures st.mem.slots[loc].entry.value in st.mem.heads && st.mem.heads[st.mem.slots[loc].entry.value] == loc
  {
    var s :| Simulates(st, s);
    assert OnList(st, loc) || Dead(st.mem.slots[loc].v);
    AllPlaced(st, s, loc);
    SlotIsVersion(st, s, loc);
    var k := KeyAt(st, loc);
    assert ChainOk(s, k);
    EndIsNewest(s.chains[k], IndexAt(st, loc));
    assert Linked(st.mem, k, st.order[k]);
  }

  lemma AbortRestores(st: Store, c: nat, loc: Loc)
    requires Finishing(st, c) && loc in st.mem.slots && SlotOk(st, loc) && IsIssued(c)
    requires st.mem.slots[loc].v.txn == c && !Pending(st.mem.slots[loc].v)
    ensures AbortSlot(st.mem, st.txns[c].rw, c, loc).v == st.mem.slots[loc].v.(txn := INITIAL_TXN_ID)
  {
    var rw := st.txns[c].rw;
    assert loc in rw ==> EntryOk(st, c, loc);
  }

  lemma HeldRestores(st: Store, c: nat, loc: Loc)
    requires Consistent(st) && Succeeds(st, AbortTransaction(c)) && IsIssued(c)
    requires loc in st.mem.slots && st.mem.slots[loc].v.txn == c && !Pending(st.mem.slots[loc].v)
    ensures st.mem.slots[loc].v.end == MAX_CID
    ensures AbortSlot(st.mem, st.txns[c].rw, c, loc).v == st.mem.slots[loc].v.(txn := INITIAL_TXN_ID)
  {
    LockedIsOpen(st, loc);
    assert SlotOk(st, loc) && SessionOk(st, c);
    AbortRestores(st, c, loc);
  }

  /** The version at `loc` is as it was in `st`, up to its last-reader stamp, and a head. */
  predicate Restored(st: Store, st': Store, loc: Loc) {
    && loc in st.mem.slots && loc in st'.mem.slots
    && var sl, sl' := st.mem.slots[loc], st'.mem.slots[loc];
       && sl' == sl.(v := sl.v.(reader := sl'.v.reader)) && sl.v.reader <= sl'.v.reader
       && sl'.entry.Some? && sl'.entry.value in st'.mem.heads && st'.mem.heads[sl'.entry.value] == loc
  }

  lemma AbortUndoes(st: Store, st1: Store, st2: Store, loc: Loc)
    requires Consistent(st) && Consistent(st2) && loc in st.mem.slots && loc in st1.mem.slots && loc in st2.mem.slots
    requires Kept(st.mem.slots[loc], st1.mem.slots[loc]) && Kept(st1.mem.slots[loc], st2.mem.slots[loc])
    requires st.mem.slots[loc].v.txn == INITIAL_TXN_ID && st1.mem.slots[loc].v.end == MAX_CID
    requires st2.mem.slots[loc].v == st1.mem.slots[loc].v.(txn := INITIAL_TXN_ID)
    ensures Restored(st, st2, loc)
  {
    OpenIsHead(st, loc);
    OpenIsHead(st2, loc);
  }

  /** ABORT IS UNDO. Let `st` be any reachable store with a committed, unlocked version at
      `loc`. If, after any further calls, `c` holds that version and aborts, the version is
      exactly as it was in `st`: the same stamps, value and links, head of its chain again.
      Only its last-reader stamp may have grown. */
  lemma AbortIsUndo(st: Store, more: seq<Call>, c: nat, loc: Loc)
    requires Consistent(st) && loc in st.mem.slots
    requires !Pending(st.mem.slots[loc].v) && st.mem.slots[loc].v.txn == INITIAL_TXN_ID
    requires var st1 := StoreRun(st, more);
             Running(st1, c) && st1.txns[c].acquired.None? && IsIssued(c)
             && loc in st1.mem.slots && st1.mem.slots[loc].v.txn == c
    ensures Restored(st, StoreNext(StoreRun(st, more), AbortTransaction(c)), loc)
  {
    var st1 := StoreRun(st, more);
    RunKeeps(st, more, loc);
    RunConsistent(st, more);
    HeldRestores(st1, c, loc);
    CallKeeps(st1, AbortTransaction(c), loc);
    NextConsistent(st1, AbortTransaction(c));
    AbortUndoes(st, st1, StoreNext(st1, AbortTransaction(c)), loc);
  }

  // ----- Everything else -----

  /** A version that transaction `c` has created and not yet committed. */
  predicate Created(st: Store, c: nat, loc: Loc) {
    loc in st.mem.slots && st.mem.slots[loc].v.txn == c && Pending(st.mem.slots[loc].v)
  }

  /** A created version that overwrites another is the head of its chain and the new version of
      a write-set entry; no other version is. */
  lemma CreatedIsNew(st: Store, c: nat, loc: Loc)
    requires Finishing(st, c) && loc in st.mem.slots && SlotOk(st, loc) && IsIssued(c) && st.mem.slots[loc].next.Some?
    ensures var sl, rw := st.mem.slots[loc], st.txns[c].rw;
            && (Created(st, c, loc) <==> IsNewOf(st.mem, rw, loc, sl.next.value) && loc !in rw)
            && (Created(st, c, loc) ==> OnList(st, loc) && sl.prev.None?)
  {
    var sl, rw := st.mem.slots[loc], st.txns[c].rw;
    assert loc in rw ==> EntryOk(st, c, loc);
    assert sl.next.value in rw ==> EntryOk(st, c, sl.next.value);
  }

  lemma DropsHead(m: Memory, rw: RWSet, k: Key, vs: seq<Loc>, loc: Loc)
    requires Linked(m, k, vs) && loc in vs && m.slots[loc].prev.None? && m.slots[loc].next.Some?
    requires IsNewOf(m, rw, loc, m.slots[loc].next.value) && loc !in rw
    ensures loc !in DropNew(m, rw, vs)
  {
    hide IsNewOf;
    var i :| 0 <= i < |vs| && vs[i] == loc;
    assert Neighbours(m, vs, i);
  }

  lemma CreatedIsUnlinked(st: Store, st': Store, c: nat, loc: Loc)
    requires Links(st) && Finishing(st, c) && Created(st, c, loc) && SlotOk(st, loc) && IsIssued(c) &&
             st.mem.slots[loc].next.Some?
    requires st'.order == map k | k in st.order :: DropNew(st.mem, st.txns[c].rw, st.order[k])
    requires loc in st'.mem.slots && st'.mem.slots[loc].entry == st.mem.slots[loc].entry
    ensures !OnList(st', loc)
  {
    hide Linked, SlotOk, SessionOk, IsNewOf, DropNew;
    CreatedIsNew(st, c, loc);
    var k := st.mem.slots[loc].entry.value;
    DropsHead(st.mem, st.txns[c].rw, k, st.order[k], loc);
  }

  /** Nobody is shown a dead version, whatever its id, timestamp and read/write set. */
  ghost predicate ShownToNobody(v: Version) {
    forall id: nat, ts: nat, own: bool | ts < MAX_CID :: IsVisible(id, ts, v.txn, v.begin, v.end, own) == INVISIBLE
  }

  /** Everything else: slots that `c` does not hold keep every field, and the versions that `c`
      created are shown to nobody. Those that overwrote another version are off every chain. */
  lemma AbortLeavesOthers(st: Store, c: nat, loc: Loc)
    requires Consistent(st) && Succeeds(st, AbortTransaction(c)) && IsIssued(c) && loc in st.mem.slots
    ensures var st' := StoreNext(st, AbortTransaction(c));
            && st'.mem.slots.Keys == st.mem.slots.Keys
            && (st.mem.slots[loc].v.txn != c ==> st'.mem.slots[loc] == st.mem.slots[loc])
            && (Created(st, c, loc) ==> ShownToNobody(st'.mem.slots[loc].v))
            && (Created(st, c, loc) && st.mem.slots[loc].next.Some? ==> !OnList(st', loc))
  {
    hide OnList, Links, SessionOk, SlotOk, Consistent, AbortSlot, ShownToNobody, Created;
    ConsistentSlot(st, loc);
    ConsistentSession(st, c);
    AbortedSlot(st, c, loc);
    if Created(st, c, loc) && st.mem.slots[loc].next.Some? {
      CreatedIsUnlinked(st, Effect(st, AbortTransaction(c)), c, loc);
    }
  }

  lemma AbortedSlot(st: Store, c: nat, loc: Loc)
    requires Finishing(st, c) && loc in st.mem.slots && SlotOk(st, loc) && IsIssued(c)
    ensures var sl' := AbortSlot(st.mem, st.txns[c].rw, c, loc);
            && (st.mem.slots[loc].v.txn != c ==> sl' == st.mem.slots[loc])
            && (Created(st, c, loc) ==> Dead(sl'.v) && ShownToNobody(sl'.v)) && sl'.entry == st.mem.slots[loc].entry
  {
    if st.mem.slots[loc].v.txn != c {
      UntouchedSlot(st, c, loc);
    } else {
      assert loc in st.txns[c].rw ==> EntryOk(st, c, loc);
    }
  }

  lemma HeadIsListed(st: Store, k: Key)
    requires Links(st) && k in st.mem.heads
    ensures st.mem.heads[k] in st.mem.slots && st.mem.slots[st.mem.heads[k]].prev.None?
  {
    assert Linked(st.mem, k, st.order[k]);
    assert Neighbours(st.mem, st.order[k], |st.order[k]| - 1);
  }

  /** Index entries: a head that `c` put over another version gives way to that version, and
      every other head stays. */
  lemma AbortRestoresHeads(st: Store, c: nat, k: Key)
    requires Consistent(st) && Succeeds(st, AbortTransaction(c)) && IsIssued(c) && k in st.mem.heads
    ensures var st', head := StoreNext(st, AbortTransaction(c)), st.mem.heads[k];
            && head in st.mem.slots && st'.mem.heads.Keys == st.mem.heads.Keys
            && st'.mem.heads[k] ==
               if Created(st, c, head) && st.mem.slots[head].next.Some? then st.mem.slots[head].next.value else head
  {
    hide Created, Links, SlotOk, SessionOk, Represents, Inv, IsNewOf, AbortSlot;
    ConsistentSession(st, c);
    HeadIsListed(st, k);
    var head := st.mem.heads[k];
    if st.mem.slots[head].next.Some? {
      CreatedIsNew(st, c, head);
    }
  }

  lemma AbortedChains(st: Store, s: State, st': Store, s': State, c: nat, ts: nat)
    requires Represents(st, s) && Represents(st', s') && s'.chains == AbortAll(s.chains, c)
    requires AllWellFormed(s.chains) && IsIssued(c) && ts <= MAX_CID
    ensures View(Chains(st'), ts) == View(Chains(st), ts)
  {
    RepresentedChains(st, s);
    RepresentedChains(st', s');
    AbortView(s.chains, c, ts);
  }

  /** No reader at any timestamp can tell that the aborted transaction ever ran. */
  lemma AbortIsInvisible(st: Store, c: nat, ts: nat)
    requires Consistent(st) && Running(st, c) && st.txns[c].acquired.None? && IsIssued(c) && ts <= MAX_CID
    ensures View(Chains(StoreNext(st, AbortTransaction(c))), ts) == View(Chains(st), ts)
  {
    var s :| Simulates(st, s);
    var st', s' := Effect(st, AbortTransaction(c)), Next(s, Abort(c));
    AbortIs(st, s, c);
    AbortCall(st, s, st', s', c);
    InvWellFormed(s);
    AbortedChains(st, s, st', s', c, ts);
  }
}
