/** Calls that change one slot keep the store invariant. */
module StoreCalls {
  import opened Types
  import opened VersionChain
  import opened ReadWriteSet
  import opened Store
  import opened StoreInvariant
  import opened StoreSteps

  /** `st'` is `st` after transaction `c` put `v'` into slot `loc` and updated its session. */
  predicate OneSlot(st: Store, st': Store, c: nat, loc: Loc, v': Version, t': Session) {
    && OnList(st, loc) && c in st.txns && t'.phase == st.txns[c].phase
    && st' == Store(SetVersion(st.mem, loc, v'), st.txns[c := t'], st.order)
  }

  /** Nothing that another transaction relies on changes. */
  predicate Mild(v: Version, v': Version, c: nat) {
    && Pending(v') == Pending(v) && v.reader <= v'.reader
    && (v.txn == c || v.txn == INITIAL_TXN_ID || v' == v)
    && (v'.txn == c || v'.txn == INITIAL_TXN_ID || v' == v)
  }

  lemma OtherEntry(st: Store, st': Store, c: nat, loc: Loc, v': Version, t': Session, d: nat, l: Loc)
    requires OneSlot(st, st', c, loc, v', t') && Mild(st.mem.slots[loc].v, v', c)
    requires d in st.txns && d != c && IsIssued(d) && l in st.txns[d].rw && EntryOk(st, d, l)
    ensures EntryOk(st', d, l)
  {
    assert st'.txns[d] == st.txns[d];
    assert OnList(st', l);
    if st.txns[d].rw[l].UPDATE? || st.txns[d].rw[l].DELETE? {
      assert NewestOnList(st', st.mem.slots[l].prev.value);
    }
  }

  lemma OtherSession(st: Store, st': Store, c: nat, loc: Loc, v': Version, t': Session, d: nat)
    requires OneSlot(st, st', c, loc, v', t') && Mild(st.mem.slots[loc].v, v', c)
    requires d in st.txns && d != c && SessionOk(st, d)
    ensures SessionOk(st', d)
  {
    if Running(st', d) {
      forall l | l in st'.txns[d].rw ensures EntryOk(st', d, l) {
        OtherEntry(st, st', c, loc, v', t', d, l);
      }
    }
  }

  /** How a call may change its own read/write set. */
  predicate Grows(rw: RWSet, rw': RWSet) {
    forall l | l in rw :: l in rw' && (rw[l].READ? || !rw'[l].READ?) && (Writes(rw, l) ==> Writes(rw', l))
  }

  lemma OtherSlot(st: Store, st': Store, c: nat, loc: Loc, v': Version, t': Session, l: Loc)
    requires OneSlot(st, st', c, loc, v', t') && l in st.mem.slots && l != loc && SlotOk(st, l)
    requires Grows(st.txns[c].rw, t'.rw) && (forall x | x in t'.rw && x !in st.txns[c].rw :: x == loc)
    requires st.txns[c].acquired.None? || st.txns[c].acquired == Some(loc) || t'.acquired == st.txns[c].acquired
    ensures SlotOk(st', l)
  {
  }

  lemma OwnEntry(st: Store, st': Store, c: nat, loc: Loc, v': Version, t': Session, l: Loc)
    requires OneSlot(st, st', c, loc, v', t') && Mild(st.mem.slots[loc].v, v', c)
    requires l != loc && l in st.txns[c].rw && EntryOk(st, c, l) && l in t'.rw && t'.rw[l] == st.txns[c].rw[l]
    requires Writes(st.txns[c].rw, l) ==> st.mem.slots[l].prev != Some(loc)
    requires forall x | x in t'.rw && x !in st.txns[c].rw :: x == loc
    requires st.txns[c].acquired.None? || st.txns[c].acquired == Some(loc) || t'.acquired == st.txns[c].acquired
    ensures EntryOk(st', c, l)
  {
    assert OnList(st', l);
    if Writes(st.txns[c].rw, l) {
      assert NewestOnList(st', st.mem.slots[l].prev.value);
    }
  }

  /** A slot that some written version points to is itself not in the read/write set. */
  lemma NotNewOf(st: Store, c: nat, loc: Loc, l: Loc)
    requires c in st.txns && l in st.txns[c].rw && EntryOk(st, c, l) && Writes(st.txns[c].rw, l)
    requires loc in st.mem.slots && (!Pending(st.mem.slots[loc].v) || loc in st.txns[c].rw)
    ensures st.mem.slots[l].prev != Some(loc)
  {
  }

  /** Reads, locks and yields: the slot is a committed version. */
  lemma CommittedSlotSession(st: Store, st': Store, c: nat, loc: Loc, v': Version, t': Session)
    requires OneSlot(st, st', c, loc, v', t') && Mild(st.mem.slots[loc].v, v', c) && !Pending(v')
    requires SessionOk(st, c) && Running(st, c)
    requires t'.rw.Keys == st.txns[c].rw.Keys + {loc} && forall l | l in t'.rw && l != loc ::
                                                           t'.rw[l] == st.txns[c].rw[l]
    requires st.txns[c].acquired.None? || st.txns[c].acquired == Some(loc)
    requires EntryOk(st', c, loc) && (t'.acquired.Some? ==> AcquiredOk(st', c, t'.acquired.value))
    ensures SessionOk(st', c)
  {
    forall l | l in t'.rw ensures EntryOk(st', c, l) {
      if l != loc {
        assert EntryOk(st, c, l);
        if Writes(st.txns[c].rw, l) {
          NotNewOf(st, c, loc, l);
        }
        OwnEntry(st, st', c, loc, v', t', l);
      }
    }
  }

  lemma OneSlotInv(st: Store, st': Store, c: nat, loc: Loc, v': Version, t': Session)
    requires StoreInv(st) && OneSlot(st, st', c, loc, v', t') && Mild(st.mem.slots[loc].v, v', c)
    requires Grows(st.txns[c].rw, t'.rw) && (forall x | x in t'.rw && x !in st.txns[c].rw :: x == loc)
    requires st.txns[c].acquired.None? || st.txns[c].acquired == Some(loc)
    requires SessionOk(st', c) && SlotOk(st', loc)
    ensures StoreInv(st')
  {
    SetVersionLinks(st, st', loc, v');
    forall d | d in st'.txns ensures SessionOk(st', d) {
      assert SessionOk(st, d);
      if d != c {
        OtherSession(st, st', c, loc, v', t', d);
      }
    }
    forall l | l in st'.mem.slots ensures SlotOk(st', l) {
      assert SlotOk(st, l);
      if l != loc {
        OtherSlot(st, st', c, loc, v', t', l);
      }
    }
  }

  // ----- Calls on committed versions -----

  /** Everything OneSlotInv needs to know about a call besides the invariant itself. */
  ghost predicate Prepared(st: Store, st': Store, c: nat, loc: Loc, v': Version, t': Session) {
    && OneSlot(st, st', c, loc, v', t') && Mild(st.mem.slots[loc].v, v', c)
    && Grows(st.txns[c].rw, t'.rw) && (forall x | x in t'.rw && x !in st.txns[c].rw :: x == loc)
    && (st.txns[c].acquired.None? || st.txns[c].acquired == Some(loc))
    && SessionOk(st', c) && SlotOk(st', loc)
  }

  /** A successful call of a running transaction on a listed slot. */
  ghost predicate Serves(st: Store, call: Call) {
    && OneSlotCall(call) && Succeeds(st, call) && OnList(st, call.loc)
    && SessionOk(st, call.c) && SlotOk(st, call.loc)
  }

  lemma ReadPrepared(st: Store, c: nat, loc: Loc)
    requires Serves(st, PerformRead(c, loc)) && st.mem.slots[loc].v.txn != c
    ensures var st' := Effect(st, PerformRead(c, loc));
            Prepared(st, st', c, loc, st'.mem.slots[loc].v, st'.txns[c])
  {
    var st' := Effect(st, PerformRead(c, loc));
    assert loc in st.txns[c].rw ==> EntryOk(st, c, loc);
    assert EntryOk(st', c, loc);
    CommittedSlotSession(st, st', c, loc, st'.mem.slots[loc].v, st'.txns[c]);
  }

  lemma ReadToUpdatePrepared(st: Store, c: nat, loc: Loc)
    requires Serves(st, ReadToUpdate(c, loc)) && st.mem.slots[loc].prev.None?
    ensures var st' := Effect(st, ReadToUpdate(c, loc));
            Prepared(st, st', c, loc, st'.mem.slots[loc].v, st'.txns[c])
  {
    var st' := Effect(st, ReadToUpdate(c, loc));
    assert loc in st.txns[c].rw ==> EntryOk(st, c, loc);
    assert EntryOk(st', c, loc);
    CommittedSlotSession(st, st', c, loc, st'.mem.slots[loc].v, st'.txns[c]);
  }

  lemma AcquirePrepared(st: Store, c: nat, loc: Loc)
    requires Serves(st, AcquireOwnership(c, loc)) && st.mem.slots[loc].prev.None?
    ensures var st' := Effect(st, AcquireOwnership(c, loc));
            Prepared(st, st', c, loc, st'.mem.slots[loc].v, st'.txns[c])
  {
    var st' := Effect(st, AcquireOwnership(c, loc));
    assert EntryOk(st, c, loc);
    assert EntryOk(st', c, loc) && AcquiredOk(st', c, loc);
    CommittedSlotSession(st, st', c, loc, st'.mem.slots[loc].v, st'.txns[c]);
  }

  lemma YieldPrepared(st: Store, c: nat, loc: Loc)
    requires Serves(st, YieldOwnership(c, loc))
    ensures var st' := Effect(st, YieldOwnership(c, loc));
            Prepared(st, st', c, loc, st'.mem.slots[loc].v, st'.txns[c])
  {
    var st' := Effect(st, YieldOwnership(c, loc));
    assert AcquiredOk(st, c, loc) && EntryOk(st, c, loc);
    assert EntryOk(st', c, loc);
    CommittedSlotSession(st, st', c, loc, st'.mem.slots[loc].v, st'.txns[c]);
  }

  // ----- Calls on the transaction's own pending version -----

  lemma PendingEntry(st: Store, c: nat, loc: Loc)
    requires Running(st, c) && SessionOk(st, c) && st.txns[c].acquired.None? && loc in st.mem.slots && SlotOk(st, loc)
    requires st.mem.slots[loc].v.txn == c && Pending(st.mem.slots[loc].v) && st.mem.slots[loc].v.end != INVALID_CID
    ensures st.mem.slots[loc].next.None? ==> loc in st.txns[c].rw && st.txns[c].rw[loc].INSERT? && EntryOk(st, c, loc)
    ensures st.mem.slots[loc].next.Some? ==>
              var old' := st.mem.slots[loc].next.value;
              loc !in st.txns[c].rw && old' in st.txns[c].rw && st.txns[c].rw[old'].UPDATE? && EntryOk(st, c, old')
              && st.mem.slots[old'].prev == Some(loc) && old' != loc
  {
    assert loc in st.txns[c].rw ==> EntryOk(st, c, loc);
    var sl := st.mem.slots[loc];
    if sl.next.Some? && sl.next.value in st.txns[c].rw {
      assert EntryOk(st, c, sl.next.value);
    }
  }

  lemma InPlaceSession(st: Store, st': Store, c: nat, loc: Loc, v': Version, t': Session)
    requires Running(st, c) && SessionOk(st, c) && OneSlot(st, st', c, loc, v', t') &&
             Mild(st.mem.slots[loc].v, v', c) && Running(st, c)
    requires Pending(v') && st.mem.slots[loc].v.txn == c && t'.acquired.None? && st.txns[c].acquired.None?
    requires t'.rw.Keys == st.txns[c].rw.Keys
    requires forall l | l in t'.rw && l != loc && st.mem.slots[loc].next != Some(l) :: t'.rw[l] == st.txns[c].rw[l]
    requires loc in t'.rw ==> EntryOk(st', c, loc)
    requires st.mem.slots[loc].next.Some? && st.mem.slots[loc].next.value in t'.rw ==>
               EntryOk(st', c, st.mem.slots[loc].next.value)
    ensures SessionOk(st', c)
  {
    forall l | l in t'.rw ensures EntryOk(st', c, l) {
      assert EntryOk(st, c, l);
      if l != loc && st.mem.slots[loc].next != Some(l) {
        OwnEntry(st, st', c, loc, v', t', l);
      }
    }
  }

  /** The overwritten version's entry follows the end stamp of its pending version. */
  lemma InPlaceOld(st: Store, st': Store, c: nat, loc: Loc, v': Version, t': Session)
    requires OneSlot(st, st', c, loc, v', t') && Mild(st.mem.slots[loc].v, v', c)
    requires st.mem.slots[loc].next.Some? && v'.txn == c && Pending(v') && loc !in t'.rw
    requires var old' := st.mem.slots[loc].next.value;
             && old' in st.txns[c].rw && st.txns[c].rw[old'].UPDATE? && EntryOk(st, c, old') && old' in t'.rw &&
                old' != loc
             && st.mem.slots[old'].prev == Some(loc)
             && ((t'.rw[old'].UPDATE? && v'.end == MAX_CID) || (t'.rw[old'].DELETE? && v'.end == INVALID_CID))
    ensures EntryOk(st', c, st.mem.slots[loc].next.value)
  {
    assert OnList(st', st.mem.slots[loc].next.value) && NewestOnList(st', loc);
  }

  lemma UpdateInPlacePrepared(st: Store, c: nat, loc: Loc, value: Value)
    requires Serves(st, UpdateInPlace(c, loc, value))
    ensures var st' := Effect(st, UpdateInPlace(c, loc, value));
            Prepared(st, st', c, loc, st'.mem.slots[loc].v, st'.txns[c])
  {
    var st' := Effect(st, UpdateInPlace(c, loc, value));
    var v', t' := st'.mem.slots[loc].v, st'.txns[c];
    PendingEntry(st, c, loc);
    if st.mem.slots[loc].next.Some? {
      InPlaceOld(st, st', c, loc, v', t');
    } else {
      assert EntryOk(st', c, loc);
    }
    InPlaceSession(st, st', c, loc, v', t');
  }

  lemma DeleteInPlacePrepared(st: Store, c: nat, loc: Loc)
    requires Serves(st, DeleteInPlace(c, loc))
    ensures var st' := Effect(st, DeleteInPlace(c, loc));
            Prepared(st, st', c, loc, st'.mem.slots[loc].v, st'.txns[c])
  {
    var st' := Effect(st, DeleteInPlace(c, loc));
    var v', t' := st'.mem.slots[loc].v, st'.txns[c];
    PendingEntry(st, c, loc);
    if st.mem.slots[loc].next.Some? {
      InPlaceOld(st, st', c, loc, v', t');
    } else {
      assert EntryOk(st', c, loc);
    }
    InPlaceSession(st, st', c, loc, v', t');
  }

  lemma CallPrepared(st: Store, call: Call)
    requires Serves(st, call)
    requires call.ReadToUpdate? || call.AcquireOwnership? ==> st.mem.slots[call.loc].prev.None?
    ensures var st' := Effect(st, call);
            st' == st || Prepared(st, st', call.c, call.loc, st'.mem.slots[call.loc].v, st'.txns[call.c])
  {
    match call
    case PerformRead(c, loc) =>
      if st.mem.slots[loc].v.txn != c {
        ReadPrepared(st, c, loc);
      }
    case SeeDeleted(_, _) =>
    case ReadToUpdate(c, loc) => ReadToUpdatePrepared(st, c, loc);
    case AcquireOwnership(c, loc) => AcquirePrepared(st, c, loc);
    case YieldOwnership(c, loc) => YieldPrepared(st, c, loc);
    case UpdateInPlace(c, loc, value) => UpdateInPlacePrepared(st, c, loc, value);
    case DeleteInPlace(c, loc) => DeleteInPlacePrepared(st, c, loc);
  }

  lemma OneSlotCallKeepsInv(st: Store, call: Call)
    requires StoreInv(st) && OneSlotCall(call) && Succeeds(st, call) && OnList(st, call.loc)
    requires call.ReadToUpdate? || call.AcquireOwnership? ==> st.mem.slots[call.loc].prev.None?
    ensures StoreInv(Effect(st, call))
  {
    assert SessionOk(st, call.c) && SlotOk(st, call.loc);
    CallPrepared(st, call);
    var st' := Effect(st, call);
    if st' != st {
      OneSlotInv(st, st', call.c, call.loc, st'.mem.slots[call.loc].v, st'.txns[call.c]);
    }
  }
}
