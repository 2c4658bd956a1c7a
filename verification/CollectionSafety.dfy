/** Garbage is collected safely, and read-only transactions read a stable snapshot. */
module CollectionSafety {
  import opened Types
  import opened VersionChain
  import opened ReadWriteSet
  import opened Store
  import opened StoreRefinement
  import opened LocalEpochs
  import opened EpochSafety
  import opened Verdicts
  import opened Collection

  // ----- Garbage -----

  lemma GarbageInvisible(st: Store, c: nat, l: Loc, ts: nat)
    requires Reached(st) && IsIssued(c) && c < ts < MAX_CID && l in st.mem.slots && IsGarbage(st.mem.slots[l].v, c)
    ensures Verdict(st.mem.slots[l].v, ts) != OK
    ensures ts in st.txns ==> Visible(st, ts, l) != OK
  {
    OpenIfLocked(st, l);
  }

  lemma RunningIsAbove(y: System, d: nat)
    requires SysInv(y) && Running(y.st, d)
    ensures y.ep.expired < EpochOf(d) && IsIssued(d)
  {
    hide EpochInv, Reached, Accounts, AllGarbage;
    HomeIsAbove(y, d);
    ReachedSession(y.st, d);
  }

  /** What the collector may recycle: garbage of a transaction whose epoch has expired. */
  ghost predicate Recyclable(y: System, c: nat, l: Loc) {
    c in y.gc && l in y.gc[c] && EpochOf(c) <= y.ep.expired
  }

  /** Nobody who is running can see slot `l`. */
  ghost predicate Unseen(y: System, l: Loc) {
    && l in y.st.mem.slots
    && (forall d | Running(y.st, d) :: Visible(y.st, d, l) != OK)
    && (forall p | p in y.readers :: Verdict(y.st.mem.slots[l].v, Stamp(p.1, 0)) != OK)
  }

  lemma RecyclableIsGarbage(y: System, c: nat, l: Loc)
    requires SysInv(y) && c in y.gc && l in y.gc[c]
    ensures IsIssued(c) && l in y.st.mem.slots && IsGarbage(y.st.mem.slots[l].v, c) && Reached(y.st)
  {
    hide EpochInv, Reached, Accounts;
    assert GarbageSet(y.st, y.gc[c], c);
    ReachedSession(y.st, c);
  }

  lemma RecyclableUnseen(y: System, c: nat, l: Loc)
    requires SysInv(y) && Recyclable(y, c, l)
    ensures Unseen(y, l)
  {
    hide Reached, EpochInv, Accounts, AllGarbage, Verdict, Visible;
    RecyclableIsGarbage(y, c, l);
    forall d | Running(y.st, d) ensures Visible(y.st, d, l) != OK {
      RunningIsAbove(y, d);
      EpochsOrderStamps(c, d);
      GarbageInvisible(y.st, c, l, d);
    }
    forall p | p in y.readers ensures Verdict(y.st.mem.slots[l].v, Stamp(p.1, 0)) != OK {
      ReaderIsAbove(y, p);
      ReaderStamp(y, p);
      EpochsOrderStamps(c, Stamp(p.1, 0));
      GarbageInvisible(y.st, c, l, Stamp(p.1, 0));
    }
  }

  lemma ReaderStamp(y: System, p: (nat, nat))
    requires SysInv(y) && p in y.readers
    ensures EpochOf(Stamp(p.1, 0)) == p.1 && 1 < Stamp(p.1, 0) < MAX_CID
  {
    ReaderIsAbove(y, p);
    ActiveIsAbove(y.ep, p.0, p.1);
    StampsAgree(p.1, 0, p.1, 0);
  }

  /** GC SAFETY. Once a report reaches the epoch of a finished transaction, no transaction that
      is running then or at any later time, read-only ones included, sees a version that the
      finished transaction handed to the collector. */
  lemma GarbageIsUnseen(threads: set<nat>, steps: seq<SysStep>, more: seq<SysStep>, c: nat, l: Loc)
    requires Recyclable(SysRun(Boot(threads), steps), c, l)
    ensures Unseen(SysRun(SysRun(Boot(threads), steps), more), l)
  {
    hide SysInv, SysRun, Unseen;
    var y := SysRun(Boot(threads), steps);
    BootOk(threads);
    SysRunKeeps(Boot(threads), steps);
    SysRunKeeps(y, more);
    SysRunGrows(y, more, c);
    RecyclableUnseen(SysRun(y, more), c, l);
  }

  // ----- Snapshots -----

  /** The same slots show the same, and slots that came into use show nothing. */
  ghost predicate SameView(st: Store, st': Store, rs: nat) {
    && (forall l | l in st.mem.slots ::
          l in st'.mem.slots && Verdict(st'.mem.slots[l].v, rs) == Verdict(st.mem.slots[l].v, rs))
    && (forall l | l in st'.mem.slots && l !in st.mem.slots :: Verdict(st'.mem.slots[l].v, rs) == INVISIBLE)
  }

  lemma CallKeepsView(st: Store, call: Call, rs: nat)
    requires Reached(st) && Succeeds(st, call) && 1 < rs < MAX_CID && (!call.BeginTxn? ==> rs < call.c)
    ensures SameView(st, Effect(st, call), rs)
  {
    hide Reached, Verdict;
    var st' := Effect(st, call);
    forall l | l in st.mem.slots
      ensures l in st'.mem.slots && Verdict(st'.mem.slots[l].v, rs) == Verdict(st.mem.slots[l].v, rs)
    {
      CallKeepsVerdict(st, call, l, rs);
    }
    forall l | l in st'.mem.slots && l !in st.mem.slots ensures Verdict(st'.mem.slots[l].v, rs) == INVISIBLE {
      ReachedSession(st, call.c);
      NewSlotVerdict(st, call, l, rs);
    }
  }

  /** Every running transaction has a timestamp at or after a reader's. */
  lemma RunningIsLater(y: System, p: (nat, nat), d: nat)
    requires SysInv(y) && p in y.readers && Running(y.st, d)
    ensures Stamp(p.1, 0) <= d
  {
    hide EpochInv, Reached, Accounts, AllGarbage;
    ReaderIsAbove(y, p);
    RunningIsAbove(y, d);
    StampIsLeast(p.1, d);
  }

  lemma StampIsLeast(e: nat, d: nat)
    requires e <= EpochOf(d)
    ensures Stamp(e, 0) <= d
  {
  }

  lemma StepKeepsView(y: System, step: SysStep, p: (nat, nat))
    requires SysInv(y) && p in y.readers && !Running(y.st, Stamp(p.1, 0))
    ensures SameView(y.st, SysNext(y, step).st, Stamp(p.1, 0))
  {
    hide EpochInv, Accounts, AllGarbage, Homed, Reached, Verdict, EpochNext;
    ReaderStamp(y, p);
    if SysAllowed(y, step) {
      if step.Perform? {
        RunningIsLater(y, p, step.call.c);
        CallKeepsView(y.st, step.call, Stamp(p.1, 0));
      } else if step.StartTxn? {
        CallKeepsView(y.st, BeginTxn(Stamp(step.epoch, y.ep.next)), Stamp(p.1, 0));
      }
    }
  }

  /** Reader `p` is there throughout, and nobody runs with the reader's own timestamp. */
  ghost predicate Undisturbed(y: System, steps: seq<SysStep>, p: (nat, nat)) {
    |steps| > 0 ==>
      var n := |steps| - 1;
      && Undisturbed(y, steps[..n], p)
      && p in SysRun(y, steps[..n]).readers && !Running(SysRun(y, steps[..n]).st, Stamp(p.1, 0))
  }

  lemma SameViewTrans(a: Store, b: Store, c: Store, rs: nat)
    requires SameView(a, b, rs) && SameView(b, c, rs)
    ensures SameView(a, c, rs)
  {
  }

  lemma {:induction false} RunKeepsView(y: System, steps: seq<SysStep>, p: (nat, nat))
    requires SysInv(y) && Undisturbed(y, steps, p)
    ensures SameView(y.st, SysRun(y, steps).st, Stamp(p.1, 0))
  {
    hide SysInv, SysNext, Verdict;
    if |steps| > 0 {
      var n := |steps| - 1;
      SysRunKeeps(y, steps[..n]);
      RunKeepsView(y, steps[..n], p);
      StepKeepsView(SysRun(y, steps[..n]), steps[n], p);
      SameViewTrans(y.st, SysRun(y, steps[..n]).st, SysRun(y, steps).st, Stamp(p.1, 0));
    }
  }

  /** STABLE SNAPSHOTS. While a read-only transaction runs, no running transaction has an
      earlier timestamp; and as long as none has exactly the reader's, no step of anybody
      changes what the reader sees of any slot. */
  lemma SnapshotIsStable(threads: set<nat>, before: seq<SysStep>, during: seq<SysStep>, p: (nat, nat))
    requires Undisturbed(SysRun(Boot(threads), before), during, p)
    ensures var y := SysRun(Boot(threads), before);
            && SameView(y.st, SysRun(y, during).st, Stamp(p.1, 0))
            && (p in y.readers ==> forall d | Running(y.st, d) :: Stamp(p.1, 0) <= d)
  {
    hide SysInv, SysRun, SameView;
    BootOk(threads);
    var y := SysRun(Boot(threads), before);
    SysRunKeeps(Boot(threads), before);
    RunKeepsView(y, during, p);
    forall d | p in y.readers && Running(y.st, d) ensures Stamp(p.1, 0) <= d {
      RunningIsLater(y, p, d);
    }
  }

  // ----- A writer with the reader's own timestamp -----

  /** The condition is exact: an insert of transaction `c` disturbs the reader if and only if
      `c` is the reader's timestamp. The reader then reads the uncommitted tuple. */
  lemma OnlyCollisionsDisturb(y: System, p: (nat, nat), c: nat, loc: Loc, key: nat, value: Value)
    requires SysInv(y) && p in y.readers && Running(y.st, c) && y.st.txns[c].acquired.None?
    requires loc !in y.st.mem.slots && key !in y.st.mem.heads
    ensures var y' := SysNext(y, Perform(PerformInsert(c, loc, key, value)));
            && (SameView(y.st, y'.st, Stamp(p.1, 0)) <==> c != Stamp(p.1, 0))
            && loc in y'.st.mem.slots && (Verdict(y'.st.mem.slots[loc].v, Stamp(p.1, 0)) == OK <==> c == Stamp(p.1, 0))
  {
    hide EpochInv, Accounts, AllGarbage, Homed, Reached, EpochNext;
    var call := PerformInsert(c, loc, key, value);
    ReaderStamp(y, p);
    RunningIsLater(y, p, c);
    RunningIsAbove(y, c);
    NewSlotVerdict(y.st, call, loc, Stamp(p.1, 0));
    if c != Stamp(p.1, 0) {
      CallKeepsView(y.st, call, Stamp(p.1, 0));
    }
  }

  const FIRST: nat := EPOCH_UNIT

  /** The first transaction of a fresh system, a reader, an insert and an abort. */
  function Collision(): seq<SysStep> {
    [StartTxn(0, 1), StartReader(0), Perform(PerformInsert(FIRST, Loc(0, 0), 0, 7)), Perform(AbortTransaction(FIRST))]
  }

  function After(n: nat): System
    requires n <= 4
  {
    if n == 0 then Boot({0}) else SysNext(After(n - 1), Collision()[n - 1])
  }

  lemma {:induction false} AfterIsRun(n: nat)
    requires n <= 4
    ensures SysRun(Boot({0}), Collision()[..n]) == After(n)
  {
    hide SysNext, Boot;
    if n > 0 {
      AfterIsRun(n - 1);
      assert Collision()[..n][..n - 1] == Collision()[..n - 1];
    }
  }

  lemma Begun()
    ensures After(1).st == Store(Memory(map[], map[]), map[FIRST := Session(Protocol.Active, map[], None)], map[])
    ensures Stamp(1, 0) == FIRST && After(1).ep.snapshot == 1 && 0 in After(1).ep.locals && 0 in After(1).ep.active
  {
    assert After(0).ep.locals[0] == Unused;
  }

  lemma ReaderJoins()
    ensures After(2).st == After(1).st && (0, 1) in After(2).readers
  {
    hide EpochNext;
    Begun();
    assert Collision()[1] == StartReader(0);
  }

  lemma Inserts()
    ensures var v := Version(FIRST, MAX_CID, MAX_CID, 0, 7);
            && After(3).readers == After(2).readers
            && After(3).st.mem.slots == map[Loc(0, 0) := Slot(v, None, None, Some(0))]
            && After(3).st.txns == map[FIRST := Session(Protocol.Active, map[Loc(0, 0) := INSERT], None)]
  {
    hide EpochNext, Boot;
    Begun();
    ReaderJoins();
    assert After(3) == SysNext(After(2), Perform(PerformInsert(FIRST, Loc(0, 0), 0, 7)));
  }

  lemma AbortedInsert(y: System, c: nat, loc: Loc)
    requires Running(y.st, c) && y.st.txns[c].acquired.None? && loc in y.st.mem.slots
    requires loc in y.st.txns[c].rw && y.st.txns[c].rw[loc].INSERT?
    ensures var y' := SysNext(y, Perform(AbortTransaction(c)));
            && y'.readers == y.readers && loc in y'.st.mem.slots
            && y'.st.mem.slots[loc].v == y.st.mem.slots[loc].v.(txn := INVALID_TXN_ID, begin := MAX_CID, end := MAX_CID)
  {
  }

  lemma Aborts()
    ensures After(4).readers == After(3).readers
    ensures Loc(0, 0) in After(4).st.mem.slots &&
            After(4).st.mem.slots[Loc(0, 0)].v == Version(INVALID_TXN_ID, MAX_CID, MAX_CID, 0, 7)
  {
    hide SysNext, Boot;
    Inserts();
    AbortedInsert(After(3), FIRST, Loc(0, 0));
    assert After(4) == SysNext(After(3), Perform(AbortTransaction(FIRST)));
  }

  /** Such a collision happens: the first transaction of all has sequence number zero, so its
      timestamp is that of the first snapshot. The reader sees its insert, which then aborts. */
  lemma FirstTransactionCollides()
    ensures var y, y' := SysRun(Boot({0}), Collision()[..3]), SysRun(Boot({0}), Collision());
            && (0, 1) in y.readers && (0, 1) in y'.readers && Running(y.st, Stamp(1, 0))
            && Loc(0, 0) in y.st.mem.slots && Verdict(y.st.mem.slots[Loc(0, 0)].v, Stamp(1, 0)) == OK
            && Loc(0, 0) in y'.st.mem.slots && Verdict(y'.st.mem.slots[Loc(0, 0)].v, Stamp(1, 0)) == INVISIBLE
  {
    hide SysRun, Boot, SysNext, After;
    AfterIsRun(3);
    AfterIsRun(4);
    assert Collision()[..4] == Collision();
    Begun();
    ReaderJoins();
    Inserts();
    Aborts();
  }
}
