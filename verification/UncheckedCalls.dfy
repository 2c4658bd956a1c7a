/** Writing a version as the manager carries it out, whatever entry the version has, and exactly
    when the transaction can still release all of its locks afterwards. */
module UncheckedCalls {
  import opened Types
  import opened VersionChain
  import opened ReadWriteSet
  import opened Store
  import opened StoreInvariant
  import opened StoreRefinement
  import opened StoreSafety

  /** What the source asserts before it links a new version: the old one is committed and locked by
      the writer, and the new slot is unused. */
  predicate CanLink(st: Store, call: Call) {
    && (call.PerformUpdate? || call.PerformDelete?) && Running(st, call.c)
    && call.loc in st.mem.slots && call.new' !in st.mem.slots
    && st.mem.slots[call.loc].v.txn == call.c && !Pending(st.mem.slots[call.loc].v)
  }

  /** A call of the manager, guarded by nothing else. */
  function Unchecked(st: Store, call: Call): Store {
    if CanLink(st, call) then EffectAt(st, call, st.txns[call.c], st.mem.slots[call.loc]) else StoreNext(st, call)
  }

  function UncheckedRun(st: Store, calls: seq<Call>): Store {
    if |calls| == 0 then st else Unchecked(UncheckedRun(st, calls[..|calls| - 1]), calls[|calls| - 1])
  }

  lemma CheckedCall(st: Store, call: Call)
    requires CanLink(st, call) ==> CanWrite(st.txns[call.c], call.loc)
    ensures Unchecked(st, call) == StoreNext(st, call)
  {
  }

  /** The end stamp and payload of the version that a call links. */
  function LinkedEnd(call: Call): nat {
    if call.PerformUpdate? then MAX_CID else INVALID_CID
  }

  function LinkedValue(st: Store, call: Call): Value
    requires CanLink(st, call)
  {
    if call.PerformUpdate? then call.value else st.mem.slots[call.loc].v.value
  }

  function LinkedSet(rw: RWSet, call: Call): RWSet
    requires call.PerformUpdate? || call.PerformDelete?
  {
    if call.PerformUpdate? then RecordUpdate(rw, call.loc) else RecordDelete(rw, call.loc)
  }

  /** Slot `y` after linking: the version that was in front of the old one now follows the new. */
  lemma LinkedSlot(st: Store, call: Call, y: Loc)
    requires CanLink(st, call) && y in st.mem.slots && st.mem.slots[call.loc].prev != Some(call.loc)
    ensures var sl, slots := st.mem.slots[call.loc], Unchecked(st, call).mem.slots;
            && y in slots
            && slots[y] == if y == call.loc then sl.(prev := Some(call.new'))
                           else if sl.prev == Some(y) then st.mem.slots[y].(next := Some(call.new'))
                           else st.mem.slots[y]
  {
  }

  lemma LinkedRest(st: Store, call: Call)
    requires CanLink(st, call)
    ensures var st' := Unchecked(st, call);
            && st'.mem.slots.Keys == st.mem.slots.Keys + {call.new'}
            && st'.mem.slots[call.new'].v == Version(call.c, MAX_CID, LinkedEnd(call), 0, LinkedValue(st, call))
            && Running(st', call.c) && st'.txns[call.c].acquired.None?
            && st'.txns[call.c].rw == LinkedSet(st.txns[call.c].rw, call)
  {
  }

  // ----- Releasing locks -----

  /** Commit resets every lock word that names `c`. */
  ghost predicate CommitReleases(st: Store, c: nat)
    requires c in st.txns
  {
    forall l | l in st.mem.slots && st.mem.slots[l].v.txn == c :: CommitSlot(st.mem, st.txns[c].rw, c, l).v.txn != c
  }

  ghost predicate AbortReleases(st: Store, c: nat)
    requires c in st.txns
  {
    forall l | l in st.mem.slots && st.mem.slots[l].v.txn == c :: AbortSlot(st.mem, st.txns[c].rw, c, l).v.txn != c
  }

  lemma ReachedReleases(st: Store, c: nat)
    requires Reached(st) && Running(st, c) && st.txns[c].acquired.None?
    ensures CommitReleases(st, c) && AbortReleases(st, c)
  {
    hide CommitSlot, AbortSlot;
    ReachedSession(st, c);
    var calls :| st == StoreRun(EmptyStore, calls);
    forall l | l in st.mem.slots && st.mem.slots[l].v.txn == c
      ensures CommitSlot(st.mem, st.txns[c].rw, c, l).v.txn != c && AbortSlot(st.mem, st.txns[c].rw, c, l).v.txn != c
    {
      LocksAreHeld(calls, l);
    }
  }

  /** A version of `c` that neither has an entry nor follows one. */
  predicate Stuck(st: Store, c: nat, l: Loc) {
    && c in st.txns && l in st.mem.slots && st.mem.slots[l].v.txn == c && l !in st.txns[c].rw
    && st.mem.slots[l].next.Some? && st.mem.slots[l].next.value !in st.txns[c].rw
  }

  lemma StuckLeaks(st: Store, c: nat, l: Loc)
    requires Stuck(st, c, l)
    ensures !CommitReleases(st, c) && !AbortReleases(st, c)
  {
    assert CommitSlot(st.mem, st.txns[c].rw, c, l) == st.mem.slots[l] == AbortSlot(st.mem, st.txns[c].rw, c, l);
  }

  /** A committed version that `c` holds for more than a select-for-update has been overwritten. */
  lemma HeldIsOverwritten(st: Store, c: nat, loc: Loc)
    requires Reached(st) && Running(st, c) && st.txns[c].acquired.None?
    requires loc in st.mem.slots && st.mem.slots[loc].v.txn == c && !Pending(st.mem.slots[loc].v)
    ensures loc in st.txns[c].rw
    ensures !st.txns[c].rw[loc].READ_OWN? ==>
              && st.mem.slots[loc].prev.Some?
              && PendingOver(st, c, st.mem.slots[loc].prev.value, loc, if st.txns[c].rw[loc].UPDATE? then MAX_CID
                                                                       else INVALID_CID)
  {
    hide Reached;
    ReachedConsistent(st);
    ReachedSession(st, c);
    assert SlotOk(st, loc);
    assert EntryOk(st, c, loc);
  }

  lemma RecordedIsUsed(st: Store, c: nat, loc: Loc)
    requires Reached(st) && Running(st, c)
    ensures loc in st.txns[c].rw ==> loc in st.mem.slots
  {
    hide Reached;
    ReachedSession(st, c);
    assert loc in st.txns[c].rw ==> EntryOk(st, c, loc);
  }

  /** WHEN A WRITE LEAKS. In every reachable store, writing a committed version that the transaction
      holds leaves only locks that commit, and only locks that abort, will release if and only if the
      version's entry is READ_OWN. Otherwise it has been overwritten already: the second new version
      goes in between, and the first one stays locked for good. */
  lemma WriteReleases(st: Store, call: Call)
    requires Reached(st) && CanLink(st, call) && st.txns[call.c].acquired.None?
    ensures var c, st', rw := call.c, Unchecked(st, call), st.txns[call.c].rw;
            && call.loc in rw && Running(st', c)
            && (CommitReleases(st', c) <==> rw[call.loc].READ_OWN?)
            && (AbortReleases(st', c) <==> rw[call.loc].READ_OWN?)
  {
    hide Reached, CommitReleases, AbortReleases, EffectAt;
    var c, st', rw := call.c, Unchecked(st, call), st.txns[call.c].rw;
    HeldIsOverwritten(st, c, call.loc);
    LinkedRest(st, call);
    if rw[call.loc].READ_OWN? {
      CheckedCall(st, call);
      NextReached(st, call);
      ReachedReleases(st', c);
    } else {
      var first := st.mem.slots[call.loc].prev.value;
      LinkedSlot(st, call, first);
      RecordedIsUsed(st, c, call.new');
      StuckLeaks(st', c, first);
    }
  }
}
