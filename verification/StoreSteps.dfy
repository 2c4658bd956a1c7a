/** Every manager call on the linked store is a step of the protocol on its chains. */
module StoreSteps {
  import opened Types
  import opened VersionChain
  import opened ChainActions
  import opened Replay
  import opened Protocol
  import opened ReadWriteSet
  import opened Store
  import opened StoreInvariant

  function KeyAt(st: Store, loc: Loc): Key
    requires OnList(st, loc)
  {
    st.mem.slots[loc].entry.value
  }

  function IndexAt(st: Store, loc: Loc): nat
    requires OnList(st, loc)
  {
    IndexOf(st.order[KeyAt(st, loc)], loc)
  }

  /** The protocol step that a call on one listed version stands for. */
  function StepOf(st: Store, call: Call): Step
    requires !call.BeginTxn? && !call.PerformInsert? && !call.CommitTransaction? && !call.AbortTransaction?
    requires OnList(st, call.loc)
  {
    var c, k, i := call.c, KeyAt(st, call.loc), IndexAt(st, call.loc);
    match call
    case PerformRead(_, _) => Read(c, k, i)
    case SeeDeleted(_, _) => ReadGone(c, k, i)
    case ReadToUpdate(_, _) => ReadForUpdate(c, k, i)
    case AcquireOwnership(_, _) => Acquire(c, k, i)
    case YieldOwnership(_, _) => Yield(c, k)
    case PerformUpdate(_, _, _, v) => Update(c, k, v)
    case PerformDelete(_, _, _) => Delete(c, k)
    case UpdateInPlace(_, _, v) => UpdateOwn(c, k, v)
    case DeleteInPlace(_, _) => DeleteOwn(c, k)
  }

  lemma AllPlaced(st: Store, s: State, loc: Loc)
    requires Links(st) && Represents(st, s) && OnList(st, loc)
    ensures Placed(st, s, KeyAt(st, loc))
  {
    assert RepresentsAt(st, s, KeyAt(st, loc));
  }

  /** A listed slot is a version of its chain; it is the newest one when nothing is linked in
      front of it and the oldest one when nothing is linked behind it. */
  lemma SlotIsVersion(st: Store, s: State, loc: Loc)
    requires OnList(st, loc) && Placed(st, s, KeyAt(st, loc))
    ensures var k, i := KeyAt(st, loc), IndexAt(st, loc);
            && i < |s.chains[k]| == |st.order[k]| && s.chains[k][i] == st.mem.slots[loc].v
            && (st.mem.slots[loc].prev.None? <==> i == |s.chains[k]| - 1)
            && (st.mem.slots[loc].next.None? <==> i == 0)
  {
    var k, i := KeyAt(st, loc), IndexAt(st, loc);
    var vs := st.order[k];
    assert vs[i] == loc;
    assert s.chains[k][i] == VersionIn(st.mem.slots, vs[i]);
    assert Neighbours(st.mem, vs, i);
  }

  /** Visibility as the store computes it agrees with visibility on the chain. */
  lemma VisibleSees(st: Store, s: State, c: nat, loc: Loc)
    requires OnList(st, loc) && Placed(st, s, KeyAt(st, loc)) && WellFormed(s.chains[KeyAt(st, loc)])
    requires Running(st, c) && IsIssued(c) && (loc in st.txns[c].rw ==> EntryOk(st, c, loc))
    requires Visible(st, c, loc) != INVISIBLE
    ensures var k, i := KeyAt(st, loc), IndexAt(st, loc);
            i < |s.chains[k]| && Sees(s.chains[k], i, c) == Visible(st, c, loc)
  {
    SlotIsVersion(st, s, loc);
    OlderVersions(s.chains[KeyAt(st, loc)]);
  }

  /** A running transaction `c` calls the manager on listed version `loc`. */
  ghost predicate Facing(st: Store, s: State, c: nat, loc: Loc) {
    && OnList(st, loc) && Placed(st, s, KeyAt(st, loc)) && WellFormed(s.chains[KeyAt(st, loc)])
    && Running(st, c) && IsActive(s, c) && IsIssued(c)
    && (loc in st.txns[c].rw ==> EntryOk(st, c, loc))
    && (st.txns[c].acquired == Some(loc) ==> AcquiredOk(st, c, loc))
    && SlotOk(st, loc)
    && c !in Begins(s.chains[KeyAt(st, loc)])
  }

  predicate OneSlotCall(call: Call) {
    || call.PerformRead? || call.SeeDeleted? || call.ReadToUpdate? || call.AcquireOwnership?
    || call.YieldOwnership? || call.UpdateInPlace? || call.DeleteInPlace?
  }

  /** The version that a call leaves in its slot. */
  function NewVersion(call: Call, v: Version): Version
    requires OneSlotCall(call)
  {
    match call
    case PerformRead(c, _) => if v.txn == c then v else v.(reader := Max(v.reader, c))
    case SeeDeleted(_, _) => v
    case ReadToUpdate(c, _) => v.(txn := c, reader := c)
    case AcquireOwnership(c, _) => v.(txn := c)
    case YieldOwnership(_, _) => v.(txn := INITIAL_TXN_ID)
    case UpdateInPlace(_, _, value) => v.(value := value)
    case DeleteInPlace(_, _) => v.(end := INVALID_CID)
  }

  lemma CallIsStep(st: Store, s: State, call: Call)
    requires OneSlotCall(call) && Facing(st, s, call.c, call.loc) && Succeeds(st, call)
    ensures var k, i := KeyAt(st, call.loc), IndexAt(st, call.loc);
            && i < |s.chains[k]|
            && OnChain(s.chains[k], StepOf(st, call))
            && NewChain(s.chains[k], StepOf(st, call)) == s.chains[k][i := NewVersion(call, st.mem.slots[call.loc].v)]
  {
    var k, i := KeyAt(st, call.loc), IndexAt(st, call.loc);
    SlotIsVersion(st, s, call.loc);
    OlderVersions(s.chains[k]);
    if call.PerformRead? || call.SeeDeleted? || call.ReadToUpdate? {
      VisibleSees(st, s, call.c, call.loc);
    }
    assert NewChain(s.chains[k], StepOf(st, call))[i] == NewVersion(call, st.mem.slots[call.loc].v);
  }
}
