/** What the linked store guarantees after every run of calls. */
module StoreSafety {
  import opened Types
  import opened VersionChain
  import opened ChainActions
  import opened Replay
  import opened Protocol
  import opened ReadWriteSet
  import opened Store
  import opened StoreInvariant
  import opened StoreSteps
  import opened StoreRefinement
  import opened Serializability

  ghost function Chains(st: Store): map<Key, Chain> {
    map k | k in st.order :: ChainOf(st.mem.slots, st.order[k])
  }

  /** What a reader finds in the store once all commits are behind it. */
  ghost function Contents(st: Store): Database {
    View(Chains(st), MAX_CID)
  }

  // ----- Serializability of the store -----

  /** Serial execution of the histories of whole transactions. */
  function ReplayHistories(calls: seq<Call>, order: seq<nat>): Option<Database> {
    if |order| == 0 then Some(map[])
    else match ReplayHistories(calls, order[..|order| - 1])
      case None => None
      case Some(before) => Replay.Replay(before, History(calls, order[|order| - 1]))
  }

  ghost predicate StoreCommitOrder(st: Store, order: seq<nat>) {
    && (forall i, j | 0 <= i < j < |order| :: order[i] < order[j])
    && (forall c :: c in order <==> c in st.txns && st.txns[c].phase.Committed?)
  }

  lemma {:induction false} SameReplay(calls: seq<Call>, s: State, order: seq<nat>)
    requires HasHistories(s, calls) && forall c | c in order :: c in s.txns
    ensures ReplayHistories(calls, order) == ReplayAll(map[], s.txns, order)
  {
    if |order| > 0 {
      var n := |order| - 1;
      assert order[n] in order;
      assert forall c | c in order[..n] :: c in order;
      SameReplay(calls, s, order[..n]);
    }
  }

  lemma RepresentedChains(st: Store, s: State)
    requires Represents(st, s)
    ensures Chains(st) == s.chains
  {
    forall k | k in st.order ensures Chains(st)[k] == s.chains[k] {
      assert RepresentsAt(st, s, k);
    }
  }

  lemma RepresentedOrder(st: Store, s: State, order: seq<nat>)
    requires SamePhases(st, s) && StoreCommitOrder(st, order)
    ensures CommitOrder(s, order)
  {
    forall c ensures c in order <==> IsCommitted(s, c) {
      assert c in order <==> c in st.txns && st.txns[c].phase.Committed?;
    }
  }

  /** SERIALIZABILITY of the store: after any interleaving of manager calls, running the
      histories of the committed transactions one by one in commit-id order gives every read
      the value it saw and ends with the contents of the store. */
  lemma StoreSerializable(calls: seq<Call>, order: seq<nat>)
    requires StoreCommitOrder(StoreRun(EmptyStore, calls), order)
    ensures ReplayHistories(calls, order) == Some(Contents(StoreRun(EmptyStore, calls)))
  {
    var st := StoreRun(EmptyStore, calls);
    var steps := StoreRefines(calls);
    var s := Run(Empty, steps);
    RepresentedOrder(st, s, order);
    RepresentedChains(st, s);
    Serializable(steps, order);
    SameReplay(calls, s, order);
  }

  // ----- Version chains -----

  /** VERSION CHAINS. In every reachable store each index entry leads to an acyclic doubly
      linked list, newest first, whose timestamp intervals are adjacent: every version ends
      where its newer neighbour begins. Slots outside the lists are dead. */
  lemma ChainsConsistent(calls: seq<Call>)
    ensures var st := StoreRun(EmptyStore, calls);
            && Links(st)
            && (forall k | k in st.order :: WellFormed(ChainOf(st.mem.slots, st.order[k])))
  {
    var st := StoreRun(EmptyStore, calls);
    var steps := StoreRefines(calls);
    var s := Run(Empty, steps);
    forall k | k in st.order ensures WellFormed(ChainOf(st.mem.slots, st.order[k])) {
      assert RepresentsAt(st, s, k) && ChainOk(s, k);
    }
  }

  lemma AdjacentAt(st: Store, loc: Loc)
    requires OnList(st, loc) && st.mem.slots[loc].next.Some?
    requires Linked(st.mem, KeyAt(st, loc), st.order[KeyAt(st, loc)])
    requires WellFormed(ChainOf(st.mem.slots, st.order[KeyAt(st, loc)]))
    ensures var m, older := st.mem, st.mem.slots[loc].next.value;
            && older in m.slots && m.slots[older].prev == Some(loc) && m.slots[older].entry == m.slots[loc].entry
            && m.slots[older].v.end == m.slots[loc].v.begin && m.slots[older].v.begin < m.slots[loc].v.begin
  {
    var k := KeyAt(st, loc);
    var vs, i := st.order[k], IndexAt(st, loc);
    assert Neighbours(st.mem, vs, i);
    assert Neighbours(st.mem, vs, i - 1);
    assert Superseded(ChainOf(st.mem.slots, vs)[i - 1], ChainOf(st.mem.slots, vs)[i]);
  }

  /** Two neighbours of a list, read off the slots themselves. */
  lemma NeighboursAdjacent(calls: seq<Call>, loc: Loc)
    requires var st := StoreRun(EmptyStore, calls); OnList(st, loc) && st.mem.slots[loc].next.Some?
    ensures var m := StoreRun(EmptyStore, calls).mem;
            var older := m.slots[loc].next.value;
            && older in m.slots && m.slots[older].prev == Some(loc) && m.slots[older].entry == m.slots[loc].entry
            && m.slots[older].v.end == m.slots[loc].v.begin && m.slots[older].v.begin < m.slots[loc].v.begin
  {
    ChainsConsistent(calls);
    AdjacentAt(StoreRun(EmptyStore, calls), loc);
  }

  // ----- Write locks -----

  lemma LockedAt(st: Store, s: State, c: nat, loc: Loc)
    requires Facing(st, s, c, loc) && Succeeds(st, AcquireOwnership(c, loc))
    ensures var sl := st.mem.slots[loc]; sl.prev.None? && sl.v.end == MAX_CID > c && sl.v.begin < c == sl.v.reader
  {
    SlotIsVersion(st, s, loc);
    LocksNewest(st, s, AcquireOwnership(c, loc));
    StampedIsNewest(s.chains[KeyAt(st, loc)], IndexAt(st, loc), c);
  }

  /** OWNERSHIP LANDS ON THE NEWEST VERSION. AcquireOwnership only checks, under the spinlock, that
      the version is unlocked and not read by a later transaction. In every reachable store a
      reader that passes this check gets the newest version, still without an end stamp. */
  lemma AcquireIsNewest(calls: seq<Call>, c: nat, loc: Loc)
    requires Succeeds(StoreRun(EmptyStore, calls), Call.AcquireOwnership(c, loc))
    ensures var sl := StoreRun(EmptyStore, calls).mem.slots[loc];
            sl.prev.None? && sl.v.end == MAX_CID > c && sl.v.begin < c == sl.v.reader
  {
    hide StoreRun, Succeeds, Facing;
    var st := StoreRun(EmptyStore, calls);
    ReachableConsistent(calls);
    var s :| Simulates(st, s);
    SlotFaces(st, s, AcquireOwnership(c, loc));
    LockedAt(st, s, c, loc);
  }

  lemma HeldIsReleased(st: Store, c: nat, loc: Loc)
    requires loc in st.mem.slots && st.mem.slots[loc].v.txn == c && IsIssued(c) && c in st.txns
    requires Accounted(st, c, loc) && st.txns[c].acquired.None?
    ensures !IsIssued(CommitSlot(st.mem, st.txns[c].rw, c, loc).v.txn)
    ensures !IsIssued(AbortSlot(st.mem, st.txns[c].rw, c, loc).v.txn)
  {
  }

  /** NO LEAKED LOCKS. A slot is locked only by a running transaction, and that transaction's
      commit and abort will release it; so a finished transaction holds nothing. */
  lemma LocksAreHeld(calls: seq<Call>, loc: Loc)
    requires loc in StoreRun(EmptyStore, calls).mem.slots && IsIssued(StoreRun(EmptyStore, calls).mem.slots[loc].v.txn)
    ensures var st := StoreRun(EmptyStore, calls);
            var c := st.mem.slots[loc].v.txn;
            && Running(st, c) && Accounted(st, c, loc)
            && (st.txns[c].acquired.None? ==>
                  && !IsIssued(CommitSlot(st.mem, st.txns[c].rw, c, loc).v.txn)
                  && !IsIssued(AbortSlot(st.mem, st.txns[c].rw, c, loc).v.txn))
  {
    ReachableConsistent(calls);
    var st := StoreRun(EmptyStore, calls);
    var c := st.mem.slots[loc].v.txn;
    assert SlotOk(st, loc);
    if st.txns[c].acquired.None? {
      HeldIsReleased(st, c, loc);
    }
  }

  lemma FinishedHoldsNothing(calls: seq<Call>, c: nat)
    requires var st := StoreRun(EmptyStore, calls); IsIssued(c) && !Running(st, c)
    ensures forall loc | loc in StoreRun(EmptyStore, calls).mem.slots ::
              StoreRun(EmptyStore, calls).mem.slots[loc].v.txn != c
  {
    var st := StoreRun(EmptyStore, calls);
    forall loc | loc in st.mem.slots ensures st.mem.slots[loc].v.txn != c {
      if st.mem.slots[loc].v.txn == c {
        LocksAreHeld(calls, loc);
        assert false;
      }
    }
  }

  // ----- Read/write sets -----

  /** READ < READ_OWN < UPDATE < DELETE and INSERT < INS_DEL. */
  predicate Advances(a: RWType, b: RWType) {
    match a
    case READ => b != INSERT && b != INS_DEL
    case READ_OWN => b == READ_OWN || b == UPDATE || b == DELETE
    case UPDATE => b == UPDATE || b == DELETE
    case DELETE => b == DELETE
    case INSERT => b == INSERT || b == INS_DEL
    case INS_DEL => b == INS_DEL
  }

  lemma CallAdvances(st: Store, call: Call, c: nat, loc: Loc)
    requires StoreInv(st) && c in st.txns && loc in st.txns[c].rw
    ensures var st' := StoreNext(st, call);
            c in st'.txns && loc in st'.txns[c].rw && Advances(st.txns[c].rw[loc], st'.txns[c].rw[loc])
  {
    if Succeeds(st, call) && Running(st, call.c) {
      assert SessionOk(st, call.c);
      if OnSlot(call) {
        SlotCallTxns(st, call);
        if c == call.c {
          AdvancesOnSlot(st, call, loc);
        }
      }
    }
  }

  /** A call on a slot concerns the caller's session only. */
  lemma SlotCallTxns(st: Store, call: Call)
    requires OnSlot(call) && Succeeds(st, call)
    ensures var st' := Effect(st, call);
            st'.txns.Keys == st.txns.Keys && forall d | d in st.txns && d != call.c :: st'.txns[d] == st.txns[d]
  {
    hide SetVersion, LinkNewer, Append, Visible;
  }

  lemma AdvancesOnSlot(st: Store, call: Call, loc: Loc)
    requires OnSlot(call) && Succeeds(st, call) && SessionOk(st, call.c) && loc in st.txns[call.c].rw
    ensures var rw := Effect(st, call).txns[call.c].rw; loc in rw && Advances(st.txns[call.c].rw[loc], rw[loc])
  {
    hide SetVersion, LinkNewer, Append, Visible;
    assert EntryOk(st, call.c, loc);
  }

  /** An entry never moves back, whatever is called in between. */
  lemma {:induction false} EntriesAdvance(st: Store, more: seq<Call>, c: nat, loc: Loc)
    requires Consistent(st) && c in st.txns && loc in st.txns[c].rw
    ensures var st' := StoreRun(st, more);
            c in st'.txns && loc in st'.txns[c].rw && Advances(st.txns[c].rw[loc], st'.txns[c].rw[loc])
  {
    if |more| > 0 {
      var n := |more| - 1;
      EntriesAdvance(st, more[..n], c, loc);
      RunConsistent(st, more[..n]);
      CallAdvances(StoreRun(st, more[..n]), more[n], c, loc);
    }
  }
}
