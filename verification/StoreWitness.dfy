/** Runs of manager calls that reach the cases in which a promise fails. */
module StoreWitness {
  import opened Types
  import opened VersionChain
  import opened Protocol
  import opened ReadWriteSet
  import opened Store
  import opened StoreRefinement
  import opened IndexLookup
  import opened UncheckedCalls
  import opened Transactions
  import opened Executors
  import opened ExecutorBatches

  lemma OneMore(calls: seq<Call>, call: Call)
    ensures StoreRun(EmptyStore, calls + [call]) == StoreNext(StoreRun(EmptyStore, calls), call)
  {
    hide StoreNext;
    assert (calls + [call])[..|calls|] == calls;
  }

  const L0: Loc := Loc(0, 0)
  const L1: Loc := Loc(0, 1)
  const L2: Loc := Loc(0, 2)

  /** A store with one tuple, at L0 under key 0. */
  function OneTuple(txn: nat, begin: nat, reader: nat, txns: map<nat, Session>): Store {
    Store(Memory(map[L0 := Slot(Version(txn, begin, MAX_CID, reader, 7), None, None, Some(0))], map[0 := L0]),
          txns, map[0 := [L0]])
  }

  const Fresh: Session := Session(Active, map[], None)

  lemma Begins(st: Store, c: nat)
    requires IsIssued(c) && c !in st.txns
    ensures StoreNext(st, BeginTxn(c)) == st.(txns := st.txns[c := Fresh])
  {
  }

  /** Transaction `c` inserts the tuple into a store without slots and commits. */
  lemma Inserts(txns: map<nat, Session>, c: nat)
    requires c in txns && txns[c] == Fresh
    ensures StoreNext(EmptyStore.(txns := txns), PerformInsert(c, L0, 0, 7)) ==
            OneTuple(c, MAX_CID, 0, txns[c := Session(Active, map[L0 := INSERT], None)])
  {
  }

  lemma Commits(txns: map<nat, Session>, c: nat)
    requires c in txns && txns[c] == Session(Active, map[L0 := INSERT], None)
    ensures StoreNext(OneTuple(c, MAX_CID, 0, txns), CommitTransaction(c)) ==
            OneTuple(INITIAL_TXN_ID, c, 0, txns[c := Session(Committed, map[L0 := INSERT], None)])
  {
    var st := OneTuple(c, MAX_CID, 0, txns);
    assert CommitMemory(st.mem, txns[c].rw, c).slots ==
           map[L0 := Slot(Version(INITIAL_TXN_ID, c, MAX_CID, 0, 7), None, None, Some(0))];
  }

  // ----- An index lookup that fails its transaction -----

  const Begun: seq<Call> := [] + [BeginTxn(2)] + [BeginTxn(3)] + [BeginTxn(4)]
  const Inserted: seq<Call> := Begun + [PerformInsert(3, L0, 0, 7)] + [CommitTransaction(3)]
  const TooYoung: seq<Call> := Inserted + [ReadToUpdate(4, L0)] + [PerformUpdate(4, L0, L1, 8)]

  const Three: map<nat, Session> := map[2 := Fresh, 3 := Session(Committed, map[L0 := INSERT], None), 4 := Fresh]

  lemma IsBegun()
    ensures StoreRun(EmptyStore, Begun) == EmptyStore.(txns := map[2 := Fresh, 3 := Fresh, 4 := Fresh])
  {
    hide StoreRun, StoreNext;
    OneMore([], BeginTxn(2));
    OneMore([] + [BeginTxn(2)], BeginTxn(3));
    OneMore([] + [BeginTxn(2)] + [BeginTxn(3)], BeginTxn(4));
    StartsEmpty();
    Begins(EmptyStore, 2);
    Begins(EmptyStore.(txns := map[2 := Fresh]), 3);
    Begins(EmptyStore.(txns := map[2 := Fresh, 3 := Fresh]), 4);
    assert EmptyStore.txns[2 := Fresh] == map[2 := Fresh];
  }

  lemma StartsEmpty()
    ensures StoreRun(EmptyStore, []) == EmptyStore
  {
  }

  lemma IsInserted()
    ensures StoreRun(EmptyStore, Inserted) == OneTuple(INITIAL_TXN_ID, 3, 0, Three)
  {
    hide StoreRun, StoreNext;
    var txns := map[2 := Fresh, 3 := Fresh, 4 := Fresh];
    IsBegun();
    OneMore(Begun, PerformInsert(3, L0, 0, 7));
    Inserts(txns, 3);
    OneMore(Begun + [PerformInsert(3, L0, 0, 7)], CommitTransaction(3));
    Commits(txns[3 := Session(Active, map[L0 := INSERT], None)], 3);
    assert Three ==
           txns[3 := Session(Active, map[L0 := INSERT], None)][3 := Session(Committed, map[L0 := INSERT], None)];
  }

  lemma Claims()
    ensures StoreNext(OneTuple(INITIAL_TXN_ID, 3, 0, Three), ReadToUpdate(4, L0)) ==
            OneTuple(4, 3, 4, Three[4 := Session(Active, map[L0 := READ_OWN], None)])
  {
  }

  lemma Overwrites(st: Store)
    requires st ==
             StoreNext(OneTuple(4, 3, 4, Three[4 := Session(Active, map[L0 := READ_OWN], None)]),
                       PerformUpdate(4, L0, L1, 8))
    ensures 2 in st.txns && st.txns[2] == Fresh && 0 in st.mem.heads
    ensures 0 in st.order && st.order[0] == [L0, L1] && L0 in st.mem.slots && st.mem.slots[L0].v.begin == 3
  {
  }

  /** A tuple inserted by transaction 3 is being updated by transaction 4. Transaction 2, which is
      older than both, looks the key up: instead of finding nothing, the lookup fails. */
  method LookupFails() returns (a: Answer)
    ensures Running(StoreRun(EmptyStore, TooYoung), 2)
    ensures a == Failed
  {
    var st := StoreRun(EmptyStore, TooYoung);
    IsInserted();
    OneMore(Inserted, ReadToUpdate(4, L0));
    Claims();
    OneMore(Inserted + [ReadToUpdate(4, L0)], PerformUpdate(4, L0, L1, 8));
    Overwrites(st);
    ReachableConsistent(TooYoung);
    a := Lookup(st, 2, 0);
  }

  // ----- A tuple that occurs twice in a batch -----

  const Loaded: seq<Call> := [] + [BeginTxn(2)] + [PerformInsert(2, L0, 0, 7)] + [CommitTransaction(2)]
  const Scanned: seq<Call> := Loaded + [BeginTxn(3)] + [PerformRead(3, L0)]

  const Twice: seq<Target> := [Target(L0, Some(L1)), Target(L0, Some(L2))]

  lemma IsLoaded()
    ensures StoreRun(EmptyStore, Loaded) ==
            OneTuple(INITIAL_TXN_ID, 2, 0, map[2 := Session(Committed, map[L0 := INSERT], None)])
  {
    hide StoreRun, StoreNext;
    StartsEmpty();
    OneMore([], BeginTxn(2));
    Begins(EmptyStore, 2);
    assert EmptyStore.txns[2 := Fresh] == map[2 := Fresh];
    OneMore([] + [BeginTxn(2)], PerformInsert(2, L0, 0, 7));
    Inserts(map[2 := Fresh], 2);
    assert map[2 := Fresh][2 := Session(Active, map[L0 := INSERT], None)] ==
           map[2 := Session(Active, map[L0 := INSERT], None)];
    OneMore([] + [BeginTxn(2)] + [PerformInsert(2, L0, 0, 7)], CommitTransaction(2));
    Commits(map[2 := Session(Active, map[L0 := INSERT], None)], 2);
    assert map[2 := Session(Active, map[L0 := INSERT], None)][2 := Session(Committed, map[L0 := INSERT], None)] ==
           map[2 := Session(Committed, map[L0 := INSERT], None)];
  }

  lemma Reads(txns: map<nat, Session>)
    requires 3 in txns && txns[3] == Fresh
    ensures StoreNext(OneTuple(INITIAL_TXN_ID, 2, 0, txns), PerformRead(3, L0)) ==
            OneTuple(INITIAL_TXN_ID, 2, 3, txns[3 := Session(Active, map[L0 := READ], None)])
  {
  }

  lemma IsScanned()
    ensures var st := StoreRun(EmptyStore, Scanned);
            && BatchStarts(st, 3, Twice) && L0 in st.mem.slots && !Pending(st.mem.slots[L0].v)
            && Written(st, 3, L0, Some(L1))
  {
    hide StoreRun, StoreNext;
    var txns := map[2 := Session(Committed, map[L0 := INSERT], None)];
    IsLoaded();
    OneMore(Loaded, BeginTxn(3));
    Begins(OneTuple(INITIAL_TXN_ID, 2, 0, txns), 3);
    OneMore(Loaded + [BeginTxn(3)], PerformRead(3, L0));
    Reads(txns[3 := Fresh]);
    assert Reached(StoreRun(EmptyStore, Scanned));
  }

  /** Transaction 3 reads a tuple and an update lists it twice: both iterations succeed, and neither
      commit nor abort will release all of its locks. */
  lemma RepeatedTupleLeaks(plan: Plan)
    ensures var st := StoreRun(EmptyStore, Scanned);
            && AllWritten(st, 3, Twice, plan, 2) && 3 in RunBatch(st, 3, Twice, plan, 2).txns
            && !CommitReleases(RunBatch(st, 3, Twice, plan, 2), 3) && !AbortReleases(RunBatch(st, 3, Twice, plan, 2), 3)
  {
    hide StoreRun, BatchStarts, CommitReleases, AbortReleases, WriteOnce;
    var st := StoreRun(EmptyStore, Scanned);
    IsScanned();
    assert RunBatch(st, 3, Twice, plan, 0) == st;
    BatchRuns(st, 3, Twice, plan, 1);
    var now := RunBatch(st, 3, Twice, plan, 1);
    assert TargetOk(st, now, 3, Twice, plan, 1, Twice[0].loc);
    assert Times(Twice, 1, L0) == Times(Twice, 0, L0) + 1;
    assert Success(now, 3, Twice[1]);
    RepeatsLeak(st, 3, Twice, plan, 2);
    assert Twice[0].loc == Twice[1].loc;
  }

  // ----- A blind update -----

  /** A transaction that updates a version it has not recorded takes the read-only path. */
  method BlindUpdate(id: nat, loc: Loc) returns (readOnly: bool, txn: Transaction)
    ensures readOnly && txn.Valid() && !txn.Exact() && txn.Entries() == map[loc := UPDATE]
  {
    txn := new Transaction(id);
    txn.RecordUpdate(loc);
    readOnly := txn.IsReadOnly();
  }
}
