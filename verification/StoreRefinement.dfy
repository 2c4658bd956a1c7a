/** Every run of the linked store is a run of the protocol, so the store is serializable. */
module StoreRefinement {
  import opened Types
  import opened VersionChain
  import opened ChainActions
  import opened Replay
  import opened Protocol
  import opened ProtocolInvariant
  import opened ProtocolCommit
  import opened ReadWriteSet
  import opened Store
  import opened StoreInvariant
  import opened StoreSteps
  import opened StoreCalls
  import opened StoreLinks
  import opened StoreCommit
  import opened StoreAbort

  // ----- Starting transactions and inserting tuples -----

  /** `st'` is `st` after transaction `c` started. */
  predicate Starting(st: Store, st': Store, c: nat) {
    && IsIssued(c) && c !in st.txns && st'.mem == st.mem && st'.order == st.order
    && st'.txns == st.txns[c := Session(Active, map[], None)]
  }

  lemma BeginSession(st: Store, st': Store, c: nat, d: nat)
    requires Starting(st, st', c) && d in st'.txns && (d != c ==> SessionOk(st, d))
    ensures SessionOk(st', d)
  {
    forall l | l in st'.txns[d].rw && Running(st', d) ensures EntryOk(st', d, l) {
      assert EntryOk(st, d, l);
    }
  }

  lemma BeginInv(st: Store, st': Store, c: nat)
    requires Starting(st, st', c) && StoreInv(st)
    ensures StoreInv(st')
  {
    forall k | k in st'.order ensures Linked(st'.mem, k, st'.order[k]) {
      assert Linked(st.mem, k, st.order[k]);
    }
    forall loc | loc in st'.mem.slots ensures (OnList(st', loc) || Dead(st'.mem.slots[loc].v)) && SlotOk(st', loc) {
      assert (OnList(st, loc) || Dead(st.mem.slots[loc].v)) && SlotOk(st, loc);
    }
    forall d | d in st'.txns ensures SessionOk(st', d) {
      assert d != c ==> SessionOk(st, d);
      BeginSession(st, st', c, d);
    }
  }

  lemma BeginRepresents(st: Store, s: State, st': Store, s': State, c: nat)
    requires Starting(st, st', c) && Represents(st, s) && s' == State(s.chains, s.txns[c := Txn(Active, [])])
    ensures Represents(st', s')
  {
    forall k | k in st'.order ensures RepresentsAt(st', s', k) {
      assert RepresentsAt(st, s, k);
    }
  }

  /** `st'` is `st` after `c` inserted a tuple at `loc` under the new index entry `k`. */
  predicate Inserting(st: Store, st': Store, c: nat, loc: Loc, k: Key, v: Version) {
    && Running(st, c) && st.txns[c].acquired.None? && loc !in st.mem.slots && k !in st.mem.heads &&
       loc !in st.txns[c].rw
    && Pending(v) && v.txn == c && v.end == MAX_CID
    && st'.mem.slots == st.mem.slots[loc := Slot(v, None, None, Some(k))]
    && st'.mem.heads == st.mem.heads[k := loc] && st'.order == st.order[k := [loc]]
    && st'.txns == st.txns[c := st.txns[c].(rw := st.txns[c].rw[loc := INSERT])]
  }

  lemma InsertLists(st: Store, st': Store, c: nat, loc: Loc, k: Key, v: Version, j: Key)
    requires Inserting(st, st', c, loc, k, v) && j in st'.order && k !in st.order
    requires j != k ==> Linked(st.mem, j, st.order[j])
    ensures Linked(st'.mem, j, st'.order[j])
    ensures ChainOf(st'.mem.slots, st'.order[j]) == if j == k then [v] else ChainOf(st.mem.slots, st.order[j])
  {
    forall i | 0 <= i < |st'.order[j]| ensures Neighbours(st'.mem, st'.order[j], i) {
      assert j != k ==> Neighbours(st.mem, st.order[j], i);
    }
  }

  lemma InsertEntry(st: Store, st': Store, c: nat, loc: Loc, k: Key, v: Version, d: nat, l: Loc)
    requires Inserting(st, st', c, loc, k, v) && d in st.txns && l in st.txns[d].rw && EntryOk(st, d, l) &&
             k !in st.order
    ensures EntryOk(st', d, l)
  {
    assert OnList(st', l);
    if Writes(st.txns[d].rw, l) {
      assert NewestOnList(st', st.mem.slots[l].prev.value);
    }
  }

  lemma InsertSession(st: Store, st': Store, c: nat, loc: Loc, k: Key, v: Version, d: nat)
    requires Inserting(st, st', c, loc, k, v) && d in st.txns && SessionOk(st, d) && k !in st.order
    ensures SessionOk(st', d)
  {
    if Running(st', d) {
      forall l | l in st'.txns[d].rw ensures EntryOk(st', d, l) {
        if d == c && l == loc {
          assert st'.order[k][0] == loc;
          assert OnList(st', loc);
        } else {
          assert EntryOk(st, d, l);
          InsertEntry(st, st', c, loc, k, v, d, l);
        }
      }
    }
  }

  lemma InsertSlots(st: Store, st': Store, c: nat, loc: Loc, k: Key, v: Version, l: Loc)
    requires Inserting(st, st', c, loc, k, v) && l in st'.mem.slots && k !in st.order
    requires l != loc ==> (OnList(st, l) || Dead(st.mem.slots[l].v)) && SlotOk(st, l)
    ensures (OnList(st', l) || Dead(st'.mem.slots[l].v)) && SlotOk(st', l)
  {
    if l == loc {
      assert st'.order[k][0] == loc;
      assert OnList(st', loc);
    }
  }

  lemma InsertInv(st: Store, st': Store, c: nat, loc: Loc, k: Key, v: Version)
    requires Inserting(st, st', c, loc, k, v) && StoreInv(st)
    ensures StoreInv(st')
  {
    forall j | j in st'.order ensures Linked(st'.mem, j, st'.order[j]) {
      assert j != k ==> Linked(st.mem, j, st.order[j]);
      InsertLists(st, st', c, loc, k, v, j);
    }
    forall l | l in st'.mem.slots ensures (OnList(st', l) || Dead(st'.mem.slots[l].v)) && SlotOk(st', l) {
      assert l != loc ==> (OnList(st, l) || Dead(st.mem.slots[l].v)) && SlotOk(st, l);
      InsertSlots(st, st', c, loc, k, v, l);
    }
    forall d | d in st'.txns ensures SessionOk(st', d) {
      assert SessionOk(st, d);
      InsertSession(st, st', c, loc, k, v, d);
    }
  }

  lemma InsertRepresents(st: Store, s: State, st': Store, s': State, c: nat, loc: Loc, k: Key, v: Version)
    requires Inserting(st, st', c, loc, k, v) && Links(st) && Represents(st, s) && SamePhases(st', s')
    requires s'.chains == s.chains[k := [v]]
    ensures Represents(st', s')
  {
    forall j | j in st'.order ensures RepresentsAt(st', s', j) {
      assert j != k ==> Linked(st.mem, j, st.order[j]) && RepresentsAt(st, s, j);
      InsertLists(st, st', c, loc, k, v, j);
    }
  }

  // ----- One call, one step -----

  predicate OnSlot(call: Call) {
    OneSlotCall(call) || call.PerformUpdate? || call.PerformDelete?
  }

  /** What a successful call on a tuple of chain `k` that holds `value` adds to the history. */
  function SlotOps(call: Call, k: Key, value: Value): Log
    requires OnSlot(call)
  {
    match call
    case PerformRead(_, _) => [ReadOp(k, value)]
    case SeeDeleted(_, _) => [GoneOp(k)]
    case ReadToUpdate(_, _) => [ReadOp(k, value)]
    case AcquireOwnership(_, _) => []
    case YieldOwnership(_, _) => []
    case PerformUpdate(_, _, _, v) => [UpdateOp(k, v)]
    case PerformDelete(_, _, _) => [DeleteOp(k)]
    case UpdateInPlace(_, _, v) => [UpdateOp(k, v)]
    case DeleteInPlace(_, _) => [DeleteOp(k)]
  }

  /** The operation that a call adds to its transaction's history. */
  function CallOps(st: Store, call: Call): Log {
    if !Succeeds(st, call) then []
    else if call.PerformInsert? then [InsertOp(call.key, call.value)]
    else if OnSlot(call) && st.mem.slots[call.loc].entry.Some? then
      SlotOps(call, st.mem.slots[call.loc].entry.value, st.mem.slots[call.loc].v.value)
    else []
  }

  ghost predicate Simulates(st: Store, s: State) {
    StoreInv(st) && Inv(s) && Represents(st, s)
  }

  /** A call that succeeds on a slot finds it on its chain. */
  lemma CalledIsListed(st: Store, call: Call)
    requires OnSlot(call) && Succeeds(st, call)
    requires IsIssued(call.c) && (OnList(st, call.loc) || Dead(st.mem.slots[call.loc].v))
    ensures OnList(st, call.loc)
  {
  }

  lemma Faces(st: Store, s: State, c: nat, loc: Loc)
    requires StoreInv(st) && Inv(s) && Represents(st, s) && OnList(st, loc) && Running(st, c)
    ensures Facing(st, s, c, loc)
  {
    assert SessionOk(st, c) && SlotOk(st, loc);
    AllPlaced(st, s, loc);
    assert ChainOk(s, KeyAt(st, loc));
  }

  /** Locking a version succeeds only on the newest one. */
  lemma LocksNewest(st: Store, s: State, call: Call)
    requires call.ReadToUpdate? || call.AcquireOwnership?
    requires Facing(st, s, call.c, call.loc) && Succeeds(st, call)
    ensures st.mem.slots[call.loc].prev.None?
  {
    var k, i := KeyAt(st, call.loc), IndexAt(st, call.loc);
    SlotIsVersion(st, s, call.loc);
    if call.ReadToUpdate? {
      EndIsNewest(s.chains[k], i);
    } else {
      StampedIsNewest(s.chains[k], i, call.c);
    }
  }

  lemma StepOps(st: Store, s: State, call: Call)
    requires OnSlot(call) && Facing(st, s, call.c, call.loc) && Succeeds(st, call)
    requires OnChain(s.chains[KeyAt(st, call.loc)], StepOf(st, call))
    ensures NewOps(s.chains[KeyAt(st, call.loc)], StepOf(st, call)) == CallOps(st, call)
  {
    SlotIsVersion(st, s, call.loc);
  }

  lemma SlotEffect(st: Store, call: Call)
    requires OneSlotCall(call) && Succeeds(st, call)
    ensures var st', loc := Effect(st, call), call.loc;
            st'.mem == SetVersion(st.mem, loc, NewVersion(call, st.mem.slots[loc].v)) && st'.order == st.order
            && st'.txns.Keys == st.txns.Keys && forall d | d in st.txns :: st'.txns[d].phase == st.txns[d].phase
  {
    var m, loc := st.mem, call.loc;
    assert m == SetVersion(m, loc, m.slots[loc].v);
  }

  /** `s'` is `s` after the step of call `call`, with the same effect on the history. */
  ghost predicate Stepped(st: Store, s: State, s': State, call: Call, step: Step) {
    && Enabled(s, step) && step.c == call.c && s' == Next(s, step)
    && s'.txns.Keys == s.txns.Keys
    && (forall d | d in s.txns ::
          && s'.txns[d].phase == s.txns[d].phase
          && s'.txns[d].log == s.txns[d].log + (if d == call.c then CallOps(st, call) else []))
  }

  lemma OneSlotStep(st: Store, s: State, s': State, call: Call)
    requires OneSlotCall(call) && Facing(st, s, call.c, call.loc) && Succeeds(st, call) &&
             s' == Next(s, StepOf(st, call))
    ensures Stepped(st, s, s', call, StepOf(st, call))
    ensures var k, i := KeyAt(st, call.loc), IndexAt(st, call.loc);
            k in s.chains && i < |s.chains[k]|
            && s'.chains == s.chains[k := s.chains[k][i := NewVersion(call, st.mem.slots[call.loc].v)]]
  {
    CallIsStep(st, s, call);
    StepOps(st, s, call);
  }

  lemma OneSlotRepresents(st: Store, s: State, call: Call)
    requires OneSlotCall(call) && Facing(st, s, call.c, call.loc) && Succeeds(st, call) && Links(st) &&
             Represents(st, s)
    ensures Represents(Effect(st, call), Next(s, StepOf(st, call)))
    ensures Stepped(st, s, Next(s, StepOf(st, call)), call, StepOf(st, call))
  {
    var st', s' := Effect(st, call), Next(s, StepOf(st, call));
    OneSlotStep(st, s, s', call);
    SlotEffect(st, call);
    SetVersionRepresents(st, s, st', s', call.loc, KeyAt(st, call.loc), NewVersion(call, st.mem.slots[call.loc].v));
  }

  lemma OneSlotInvariant(st: Store, s: State, call: Call)
    requires OneSlotCall(call) && Facing(st, s, call.c, call.loc) && Succeeds(st, call) && StoreInv(st)
    ensures StoreInv(Effect(st, call))
  {
    if call.ReadToUpdate? || call.AcquireOwnership? {
      LocksNewest(st, s, call);
    }
    OneSlotCallKeepsInv(st, call);
  }

  lemma WriteStep(st: Store, s: State, s': State, call: Call)
    requires (call.PerformUpdate? || call.PerformDelete?) && Facing(st, s, call.c, call.loc) && Succeeds(st, call)
    requires s' == Next(s, StepOf(st, call))
    ensures NewestOnList(st, call.loc) && Stepped(st, s, s', call, StepOf(st, call))
    ensures var k := KeyAt(st, call.loc);
            k in s.chains && s'.chains == s.chains[k := s.chains[k] + [Effect(st, call).mem.slots[call.new'].v]]
  {
    SlotIsVersion(st, s, call.loc);
    LinkingIs(st, call, call.loc);
    StepOps(st, s, call);
  }

  lemma WriteRepresents(st: Store, s: State, call: Call)
    requires (call.PerformUpdate? || call.PerformDelete?) && Facing(st, s, call.c, call.loc) && Succeeds(st, call)
    requires Links(st) && Represents(st, s)
    ensures Represents(Effect(st, call), Next(s, StepOf(st, call)))
    ensures Stepped(st, s, Next(s, StepOf(st, call)), call, StepOf(st, call))
  {
    hide Links, Placed, WellFormed, EntryOk, AcquiredOk, SlotOk, Linking, RepresentsAt;
    var st', s', loc := Effect(st, call), Next(s, StepOf(st, call)), call.loc;
    WriteStep(st, s, s', call);
    LinkingIs(st, call, loc);
    LinkingRepresents(st, s, st', s', call.c, KeyAt(st, loc), loc, call.new',
                      st'.mem.slots[call.new'].v, st'.txns[call.c].rw);
  }

  lemma WriteInvariant(st: Store, s: State, call: Call)
    requires (call.PerformUpdate? || call.PerformDelete?) && Facing(st, s, call.c, call.loc) && Succeeds(st, call)
    requires StoreInv(st)
    ensures StoreInv(Effect(st, call))
  {
    var st', loc := Effect(st, call), call.loc;
    WriteEntry(st, st', s, call);
    LinkingInv(st, st', call.c, KeyAt(st, loc), loc, call.new', st'.mem.slots[call.new'].v, st'.txns[call.c].rw);
  }

  lemma WriteEntry(st: Store, st': Store, s: State, call: Call)
    requires (call.PerformUpdate? || call.PerformDelete?) && Facing(st, s, call.c, call.loc) && Succeeds(st, call)
    requires st' == Effect(st, call)
    ensures var v, rw, rw', loc := st'.mem.slots[call.new'].v, st.txns[call.c].rw, st'.txns[call.c].rw, call.loc;
            && Linking(st, st', call.c, KeyAt(st, loc), loc, call.new', v, rw')
            && loc in rw' && rw'.Keys == rw.Keys && (forall l | l in rw' && l != loc :: rw'[l] == rw[l])
            && ((rw'[loc].UPDATE? && v.end == MAX_CID) || (rw'[loc].DELETE? && v.end == INVALID_CID))
  {
    LinkingIs(st, call, call.loc);
  }

  lemma InsertIs(st: Store, s: State, c: nat, loc: Loc, k: Key, value: Value)
    requires Succeeds(st, PerformInsert(c, loc, k, value)) && SessionOk(st, c)
    requires st.order.Keys == s.chains.Keys == st.mem.heads.Keys && SamePhases(st, s)
    ensures var st', s' := Effect(st, PerformInsert(c, loc, k, value)), Next(s, Insert(c, k, value));
            && Inserting(st, st', c, loc, k, Version(c, MAX_CID, MAX_CID, 0, value))
            && s'.chains == s.chains[k := [Version(c, MAX_CID, MAX_CID, 0, value)]] && SamePhases(st', s')
            && Stepped(st, s, s', PerformInsert(c, loc, k, value), Insert(c, k, value))
  {
    assert loc in st.txns[c].rw ==> EntryOk(st, c, loc);
    assert Install([], c, MAX_CID, value) == [Version(c, MAX_CID, MAX_CID, 0, value)];
  }

  lemma InsertCall(st: Store, s: State, c: nat, loc: Loc, k: Key, value: Value)
    requires StoreInv(st) && Represents(st, s) && Succeeds(st, PerformInsert(c, loc, k, value))
    ensures StoreInv(Effect(st, PerformInsert(c, loc, k, value)))
    ensures Represents(Effect(st, PerformInsert(c, loc, k, value)), Next(s, Insert(c, k, value)))
    ensures Stepped(st, s, Next(s, Insert(c, k, value)), PerformInsert(c, loc, k, value), Insert(c, k, value))
  {
    var v := Version(c, MAX_CID, MAX_CID, 0, value);
    var st', s' := Effect(st, PerformInsert(c, loc, k, value)), Next(s, Insert(c, k, value));
    assert SessionOk(st, c);
    InsertIs(st, s, c, loc, k, value);
    InsertInv(st, st', c, loc, k, v);
    InsertRepresents(st, s, st', s', c, loc, k, v);
  }

  lemma ChainSlots(st: Store, s: State, k: Key)
    requires StoreInv(st) && Inv(s) && Represents(st, s) && k in st.order
    ensures Placed(st, s, k) && WellFormed(s.chains[k])
    ensures forall j | 0 <= j < |st.order[k]| :: st.order[k][j] in st.mem.slots && SlotOk(st, st.order[k][j])
  {
    assert RepresentsAt(st, s, k) && ChainOk(s, k);
    forall j | 0 <= j < |st.order[k]| ensures st.order[k][j] in st.mem.slots && SlotOk(st, st.order[k][j]) {
      KeyOf(st, k, j);
    }
  }

  lemma CommitAt(st: Store, s: State, st': Store, s': State, c: nat, k: Key)
    requires Finishing(st, c) && IsIssued(c) && Placed(st, s, k) && WellFormed(s.chains[k])
    requires forall j | 0 <= j < |st.order[k]| :: st.order[k][j] in st.mem.slots && SlotOk(st, st.order[k][j])
    requires st'.mem == CommitMemory(st.mem, st.txns[c].rw, c) && st'.order == st.order
    requires k in s'.chains && s'.chains[k] == CommitChain(s.chains[k], c)
    ensures RepresentsAt(st', s', k)
  {
    CommitRepresentsAt(st, s, c, k);
  }

  lemma AbortAt(st: Store, s: State, st': Store, s': State, c: nat, k: Key)
    requires Finishing(st, c) && IsIssued(c) && Placed(st, s, k) && WellFormed(s.chains[k])
    requires forall j | 0 <= j < |st.order[k]| :: st.order[k][j] in st.mem.slots && SlotOk(st, st.order[k][j])
    requires st'.mem == AbortMemory(st.mem, st.txns[c].rw, c)
    requires k in st'.order && st'.order[k] == DropNew(st.mem, st.txns[c].rw, st.order[k])
    requires k in s'.chains && s'.chains[k] == AbortChain(s.chains[k], c)
    ensures RepresentsAt(st', s', k)
  {
    AbortRepresentsAt(st, s, c, k);
  }

  /** Every chain of `st'` is what `finish` makes of it, and only the phase of `c` changed. */
  predicate Finished(st: Store, s: State, st': Store, s': State, c: nat, phase: Phase) {
    && st'.order.Keys == st.order.Keys && s'.chains.Keys == s.chains.Keys
    && c in st.txns && st'.txns == st.txns[c := st.txns[c].(phase := phase)]
    && c in s.txns && s'.txns == s.txns[c := s.txns[c].(phase := phase)]
  }

  lemma FinishedRepresents(st: Store, s: State, st': Store, s': State, c: nat, phase: Phase)
    requires Finished(st, s, st', s', c, phase) && SamePhases(st, s) && st.order.Keys == s.chains.Keys
    requires forall k | k in st.order :: RepresentsAt(st', s', k)
    ensures Represents(st', s')
  {
  }

  lemma CommitEach(st: Store, s: State, st': Store, s': State, c: nat)
    requires Simulates(st, s) && Finishing(st, c) && IsIssued(c)
    requires st'.mem == CommitMemory(st.mem, st.txns[c].rw, c) && st'.order == st.order
    requires s'.chains == CommitAll(s.chains, c)
    ensures forall k | k in st.order :: RepresentsAt(st', s', k)
  {
    forall k | k in st.order ensures RepresentsAt(st', s', k) {
      ChainSlots(st, s, k);
      CommitAt(st, s, st', s', c, k);
    }
  }

  lemma AbortEach(st: Store, s: State, st': Store, s': State, c: nat)
    requires Simulates(st, s) && Finishing(st, c) && IsIssued(c)
    requires st'.mem == AbortMemory(st.mem, st.txns[c].rw, c)
    requires st'.order == map k | k in st.order :: DropNew(st.mem, st.txns[c].rw, st.order[k])
    requires s'.chains == AbortAll(s.chains, c)
    ensures forall k | k in st.order :: RepresentsAt(st', s', k)
  {
    forall k | k in st.order ensures RepresentsAt(st', s', k) {
      ChainSlots(st, s, k);
      AbortAt(st, s, st', s', c, k);
    }
  }

  lemma CommitIs(st: Store, s: State, c: nat)
    requires Succeeds(st, CommitTransaction(c)) && IsActive(s, c)
    ensures var st', s' := Effect(st, CommitTransaction(c)), Next(s, Commit(c));
            && Finished(st, s, st', s', c, Committed) && st'.order == st.order
            && st'.mem == CommitMemory(st.mem, st.txns[c].rw, c) && s'.chains == CommitAll(s.chains, c)
  {
  }

  lemma AbortIs(st: Store, s: State, c: nat)
    requires Succeeds(st, AbortTransaction(c)) && IsActive(s, c)
    ensures var st', s' := Effect(st, AbortTransaction(c)), Next(s, Abort(c));
            && Finished(st, s, st', s', c, Aborted)
            && st'.order == (map k | k in st.order :: DropNew(st.mem, st.txns[c].rw, st.order[k]))
            && st'.mem == AbortMemory(st.mem, st.txns[c].rw, c) && s'.chains == AbortAll(s.chains, c)
  {
  }

  lemma CommitCall(st: Store, s: State, st': Store, s': State, c: nat)
    requires Simulates(st, s) && Running(st, c) && st.txns[c].acquired.None?
    requires Finished(st, s, st', s', c, Committed) && st'.order == st.order
    requires st'.mem == CommitMemory(st.mem, st.txns[c].rw, c) && s'.chains == CommitAll(s.chains, c)
    ensures Represents(st', s')
  {
    assert SessionOk(st, c);
    CommitEach(st, s, st', s', c);
    FinishedRepresents(st, s, st', s', c, Committed);
  }

  lemma AbortCall(st: Store, s: State, st': Store, s': State, c: nat)
    requires Simulates(st, s) && Running(st, c) && st.txns[c].acquired.None?
    requires Finished(st, s, st', s', c, Aborted)
    requires st'.order == map k | k in st.order :: DropNew(st.mem, st.txns[c].rw, st.order[k])
    requires st'.mem == AbortMemory(st.mem, st.txns[c].rw, c) && s'.chains == AbortAll(s.chains, c)
    ensures Represents(st', s')
  {
    assert SessionOk(st, c);
    AbortEach(st, s, st', s', c);
    FinishedRepresents(st, s, st', s', c, Aborted);
  }

  // ----- Whole runs -----

  /** Store `st'` and protocol state `s'` are where one call takes `st` and `s`, and the
      histories grew by what the call did. */
  ghost predicate Follows(st: Store, s: State, st': Store, s': State, call: Call) {
    && StoreInv(st') && Represents(st', s')
    && (forall c | c in s'.txns :: LogGrows(s, s', c, if c == call.c then CallOps(st, call) else []))
  }

  predicate LogGrows(s: State, s': State, c: nat, ops: Log)
    requires c in s'.txns
  {
    s'.txns[c].log == (if c in s.txns then s.txns[c].log else []) + ops
  }

  lemma SteppedFollows(st: Store, s: State, st': Store, s': State, call: Call, step: Step)
    requires StoreInv(st') && Represents(st', s') && Stepped(st, s, s', call, step)
    ensures Follows(st, s, st', s', call)
  {
  }

  lemma FinishedFollows(st: Store, s: State, st': Store, s': State, call: Call, phase: Phase)
    requires StoreInv(st') && Represents(st', s') && Finished(st, s, st', s', call.c, phase) && CallOps(st, call) == []
    ensures Follows(st, s, st', s', call)
  {
  }

  lemma CommitFollows(st: Store, s: State, c: nat)
    requires Simulates(st, s) && Succeeds(st, CommitTransaction(c))
    ensures Follows(st, s, Effect(st, CommitTransaction(c)), Next(s, Commit(c)), CommitTransaction(c))
  {
    CommitIs(st, s, c);
    CommitCall(st, s, Effect(st, CommitTransaction(c)), Next(s, Commit(c)), c);
    StoreCommit.CommitKeepsInv(st, c);
    FinishedFollows(st, s, Effect(st, CommitTransaction(c)), Next(s, Commit(c)), CommitTransaction(c), Committed);
  }

  lemma AbortFollows(st: Store, s: State, c: nat)
    requires Simulates(st, s) && Succeeds(st, AbortTransaction(c))
    ensures Follows(st, s, Effect(st, AbortTransaction(c)), Next(s, Abort(c)), AbortTransaction(c))
  {
    AbortIs(st, s, c);
    AbortCall(st, s, Effect(st, AbortTransaction(c)), Next(s, Abort(c)), c);
    StoreAbort.AbortKeepsInv(st, c);
    FinishedFollows(st, s, Effect(st, AbortTransaction(c)), Next(s, Abort(c)), AbortTransaction(c), Aborted);
  }

  lemma SlotFollows(st: Store, s: State, call: Call, st': Store, step: Step)
    requires OnSlot(call) && Facing(st, s, call.c, call.loc) && Succeeds(st, call)
    requires st' == Effect(st, call) && step == StepOf(st, call) && Simulates(st, s)
    ensures Follows(st, s, st', Next(s, step), call)
  {
    if OneSlotCall(call) {
      OneSlotRepresents(st, s, call);
      OneSlotInvariant(st, s, call);
    } else {
      WriteRepresents(st, s, call);
      WriteInvariant(st, s, call);
    }
    SteppedFollows(st, s, st', Next(s, step), call, step);
  }

  lemma SlotFaces(st: Store, s: State, call: Call)
    requires Simulates(st, s) && OnSlot(call) && Succeeds(st, call)
    ensures Facing(st, s, call.c, call.loc)
  {
    assert SessionOk(st, call.c);
    assert OnList(st, call.loc) || Dead(st.mem.slots[call.loc].v);
    CalledIsListed(st, call);
    Faces(st, s, call.c, call.loc);
  }

  lemma BeginFollows(st: Store, s: State, c: nat)
    requires Simulates(st, s) && Succeeds(st, BeginTxn(c))
    ensures Follows(st, s, Effect(st, BeginTxn(c)), Next(s, Begin(c)), BeginTxn(c))
  {
    BeginInv(st, Effect(st, BeginTxn(c)), c);
    BeginRepresents(st, s, Effect(st, BeginTxn(c)), Next(s, Begin(c)), c);
  }

  lemma InsertFollows(st: Store, s: State, c: nat, loc: Loc, k: Key, v: Value)
    requires Simulates(st, s) && Succeeds(st, PerformInsert(c, loc, k, v))
    ensures var call := PerformInsert(c, loc, k, v);
            Follows(st, s, Effect(st, call), Next(s, Insert(c, k, v)), call)
  {
    var call := PerformInsert(c, loc, k, v);
    InsertCall(st, s, c, loc, k, v);
    SteppedFollows(st, s, Effect(st, call), Next(s, Insert(c, k, v)), call, Insert(c, k, v));
  }

  /** Every successful call is one step of the protocol. */
  lemma CallFollows(st: Store, s: State, call: Call) returns (step: Step)
    requires Simulates(st, s) && Succeeds(st, call)
    ensures Follows(st, s, Effect(st, call), Next(s, step), call)
  {
    if call.BeginTxn? {
      step := Begin(call.c);
      BeginFollows(st, s, call.c);
    } else if call.PerformInsert? {
      step := Insert(call.c, call.key, call.value);
      InsertFollows(st, s, call.c, call.loc, call.key, call.value);
    } else if call.CommitTransaction? {
      step := Commit(call.c);
      CommitFollows(st, s, call.c);
    } else if call.AbortTransaction? {
      step := Abort(call.c);
      AbortFollows(st, s, call.c);
    } else {
      SlotFaces(st, s, call);
      step := StepOf(st, call);
      SlotFollows(st, s, call, Effect(st, call), step);
    }
  }

  /** The history of transaction `c` along a run of the store. */
  function History(calls: seq<Call>, c: nat): Log {
    if |calls| == 0 then []
    else
      var last := |calls| - 1;
      History(calls[..last], c) + (if calls[last].c == c then CallOps(StoreRun(EmptyStore, calls[..last]), calls[last])
                                   else [])
  }

  lemma NextOfRun(steps: seq<Step>, step: Step)
    ensures Run(Empty, steps + [step]) == Next(Run(Empty, steps), step)
  {
    assert (steps + [step])[..|steps|] == steps;
  }

  /** Every transaction of `s` has the history it has in the run, and no other one has any. */
  ghost predicate HasHistories(s: State, calls: seq<Call>) {
    && (forall c | c in s.txns :: s.txns[c].log == History(calls, c))
    && (forall c | c !in s.txns :: History(calls, c) == [])
  }

  lemma HistoriesGrow(st: Store, s: State, st': Store, s': State, calls: seq<Call>, call: Call)
    requires HasHistories(s, calls) && st == StoreRun(EmptyStore, calls) && Follows(st, s, st', s', call)
    requires s.txns.Keys + {call.c} == s'.txns.Keys
    ensures HasHistories(s', calls + [call])
  {
    var all := calls + [call];
    assert all[..|calls|] == calls;
    forall c ensures History(all, c) == History(calls, c) + (if c == call.c then CallOps(st, call) else []) {
    }
    forall c | c in s'.txns ensures s'.txns[c].log == History(all, c) {
      assert LogGrows(s, s', c, if c == call.c then CallOps(st, call) else []);
    }
  }

  lemma HistoriesStay(st: Store, s: State, calls: seq<Call>, call: Call)
    requires HasHistories(s, calls) && st == StoreRun(EmptyStore, calls) && !Succeeds(st, call)
    ensures HasHistories(s, calls + [call])
  {
    var all := calls + [call];
    assert all[..|calls|] == calls;
    forall c ensures History(all, c) == History(calls, c) {
    }
  }

  lemma StepKeepsTxns(s: State, s': State, st: Store, st': Store, call: Call)
    requires Represents(st, s) && Represents(st', s') && Succeeds(st, call) && st' == Effect(st, call)
    ensures s.txns.Keys + {call.c} == s'.txns.Keys
  {
  }

  /** REFINEMENT. Every run of calls on the linked store is a run of the protocol on version
      chains, with the same phases and histories; all pointers are consistent throughout. */
  lemma {:induction false} StoreRefines(calls: seq<Call>) returns (steps: seq<Step>)
    ensures Simulates(StoreRun(EmptyStore, calls), Run(Empty, steps))
    ensures HasHistories(Run(Empty, steps), calls)
  {
    if |calls| == 0 {
      steps := [];
    } else {
      var last := |calls| - 1;
      var st, call := StoreRun(EmptyStore, calls[..last]), calls[last];
      assert calls[..last] + [call] == calls;
      steps := StoreRefines(calls[..last]);
      var s := Run(Empty, steps);
      if Succeeds(st, call) {
        var step := CallFollows(st, s, call);
        steps := OneMore(st, s, calls[..last], call, steps, step);
      } else {
        HistoriesStay(st, s, calls[..last], call);
      }
    }
  }

  lemma OneMore(st: Store, s: State, calls: seq<Call>, call: Call, steps: seq<Step>,
                step: Step) returns (more: seq<Step>)
    requires st == StoreRun(EmptyStore, calls) && s == Run(Empty, steps)
    requires Simulates(st, s) && HasHistories(s, calls) && Succeeds(st, call)
    requires Follows(st, s, Effect(st, call), Next(s, step), call)
    ensures Simulates(Effect(st, call), Run(Empty, more)) && HasHistories(Run(Empty, more), calls + [call])
  {
    NextKeepsInv(s, step);
    NextOfRun(steps, step);
    StepKeepsTxns(s, Next(s, step), st, Effect(st, call), call);
    HistoriesGrow(st, s, Effect(st, call), Next(s, step), calls, call);
    more := steps + [step];
  }

  /** A store that represents some consistent protocol state. */
  ghost predicate Consistent(st: Store) {
    exists s :: Simulates(st, s)
  }

  lemma NextConsistent(st: Store, call: Call)
    requires Consistent(st)
    ensures Consistent(StoreNext(st, call))
  {
    if Succeeds(st, call) {
      var s :| Simulates(st, s);
      var step := CallFollows(st, s, call);
      NextKeepsInv(s, step);
      assert Simulates(Effect(st, call), Next(s, step));
    }
  }

  lemma {:induction false} RunConsistent(st: Store, calls: seq<Call>)
    requires Consistent(st)
    ensures Consistent(StoreRun(st, calls))
  {
    if |calls| > 0 {
      var n := |calls| - 1;
      RunConsistent(st, calls[..n]);
      NextConsistent(StoreRun(st, calls[..n]), calls[n]);
    }
  }

  /** A store that some sequence of calls leads to. */
  ghost predicate Reached(st: Store) {
    exists calls :: st == StoreRun(EmptyStore, calls)
  }

  lemma NextReached(st: Store, call: Call)
    requires Reached(st)
    ensures Reached(StoreNext(st, call))
  {
    var calls :| st == StoreRun(EmptyStore, calls);
    assert (calls + [call])[..|calls|] == calls;
    assert StoreRun(EmptyStore, calls + [call]) == StoreNext(st, call);
  }

  lemma NothingReached()
    ensures Reached(EmptyStore)
  {
    assert StoreRun(EmptyStore, []) == EmptyStore;
  }

  lemma ReachedConsistent(st: Store)
    requires Reached(st)
    ensures Consistent(st)
  {
    var calls :| st == StoreRun(EmptyStore, calls);
    ReachableConsistent(calls);
  }

  /** Every reachable store is consistent. */
  lemma ReachableConsistent(calls: seq<Call>)
    ensures Consistent(StoreRun(EmptyStore, calls))
  {
    var steps := StoreRefines([]);
    assert Simulates(StoreRun(EmptyStore, []), Run(Empty, steps));
    RunConsistent(EmptyStore, calls);
  }

  lemma ReachedSession(st: Store, c: nat)
    requires Reached(st) && c in st.txns
    ensures SessionOk(st, c)
  {
    ReachedConsistent(st);
  }
}
