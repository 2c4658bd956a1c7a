/** Transactions, epochs and garbage together: when versions may be reclaimed, and what
    read-only transactions see. */
module Collection {
  import opened Store
  import opened StoreRefinement
  import opened CommitLoop
  import opened LocalEpochs
  import opened EpochSafety
  import opened Verdicts

  /** `home` is the thread of every transaction that has not left its epoch, `readers` the
      threads and epochs of the read-only transactions, `gc` what finished transactions have
      handed to the garbage collector. */
  datatype System = System(
    st: Store, ep: Epochs, home: map<nat, nat>, readers: multiset<(nat, nat)>, gc: map<nat, GCSet>)

  function Boot(threads: set<nat>): System {
    System(EmptyStore, Start(threads), map[], multiset{}, map[])
  }

  datatype SysStep =
    | Tick
    | Report(expired: nat)
    | StartTxn(thread: nat, epoch: nat)
    | Perform(call: Call)
    | EndEpoch(c: nat)
    | StartReader(thread: nat)
    | EndReader(thread: nat, epoch: nat)

  predicate SysAllowed(y: System, step: SysStep) {
    match step
    case Tick => Allowed(y.ep, Advance)
    case Report(r) => Allowed(y.ep, Collect(r))
    case StartTxn(t, e) => Allowed(y.ep, EnterRead(t, e)) && Succeeds(y.st, BeginTxn(Stamp(e, y.ep.next)))
    case Perform(call) => !call.BeginTxn? && Succeeds(y.st, call)
    case EndEpoch(c) => c in y.home && !Running(y.st, c)
    case StartReader(t) => Allowed(y.ep, EnterSnapshot(t))
    case EndReader(t, e) => y.readers[(t, e)] > 0
  }

  /** What a finishing transaction adds to the collector's work. */
  function Discards(st: Store, call: Call): map<nat, GCSet> {
    if call.CommitTransaction? && call.c in st.txns then map[call.c := CommitGarbage(st.mem, st.txns[call.c].rw)]
    else if call.AbortTransaction? && call.c in st.txns then map[call.c := AbortGarbage(st.mem, st.txns[call.c].rw)]
    else map[]
  }

  function SysNext(y: System, step: SysStep): System {
    if !SysAllowed(y, step) then y
    else match step
      case Tick => y.(ep := EpochNext(y.ep, Advance))
      case Report(r) => y.(ep := EpochNext(y.ep, Collect(r)))
      case StartTxn(t, e) =>
        var c := Stamp(e, y.ep.next);
        y.(st := Effect(y.st, BeginTxn(c)), ep := EpochNext(y.ep, EnterRead(t, e)), home := y.home[c := t])
      case Perform(call) => y.(st := Effect(y.st, call), gc := y.gc + Discards(y.st, call))
      case EndEpoch(c) => y.(ep := EpochNext(y.ep, Leave(y.home[c], EpochOf(c))), home := y.home - {c})
      case StartReader(t) =>
        y.(ep := EpochNext(y.ep, EnterSnapshot(t)), readers := y.readers + multiset{(t, y.ep.snapshot)})
      case EndReader(t, e) => y.(ep := EpochNext(y.ep, Leave(t, e)), readers := y.readers - multiset{(t, e)})
  }

  function SysRun(y: System, steps: seq<SysStep>): System {
    if |steps| == 0 then y else SysNext(SysRun(y, steps[..|steps| - 1]), steps[|steps| - 1])
  }

  // ----- The invariant -----

  function HomesAt(home: map<nat, nat>, t: nat, e: nat): set<nat> {
    set c | c in home && home[c] == t && EpochOf(c) == e
  }

  /** Epochs count exactly the transactions and readers that have not left them. */
  ghost predicate Accounts(active: map<nat, multiset<nat>>, home: map<nat, nat>, readers: multiset<(nat, nat)>) {
    && (forall c | c in home :: home[c] in active)
    && (forall p | p in readers :: p.0 in active)
    && (forall t, e | t in active :: Counted(active[t], home, readers, t, e))
  }

  predicate Counted(active: multiset<nat>, home: map<nat, nat>, readers: multiset<(nat, nat)>, t: nat, e: nat) {
    active[e] == |HomesAt(home, t, e)| + readers[(t, e)]
  }

  ghost predicate Homed(st: Store, home: map<nat, nat>) {
    && (forall c | c in home :: c in st.txns)
    && (forall c | Running(st, c) :: c in home)
  }

  ghost predicate AllGarbage(st: Store, gc: map<nat, GCSet>) {
    forall c | c in gc :: c in st.txns && !Running(st, c) && GarbageSet(st, gc[c], c)
  }

  ghost predicate GarbageSet(st: Store, g: GCSet, c: nat) {
    forall l | l in g :: l in st.mem.slots && IsGarbage(st.mem.slots[l].v, c)
  }

  ghost predicate SysInv(y: System) {
    && Reached(y.st) && EpochInv(y.ep)
    && Accounts(y.ep.active, y.home, y.readers) && Homed(y.st, y.home)
    && (forall p | p in y.readers :: p.1 == y.ep.snapshot)
    && AllGarbage(y.st, y.gc)
  }

  // ----- Accounting -----

  lemma EnterAccounts(active: map<nat, multiset<nat>>, home: map<nat, nat>, readers: multiset<(nat, nat)>, t: nat,
                      c: nat)
    requires Accounts(active, home, readers) && t in active && c !in home
    ensures Accounts(active[t := active[t] + multiset{EpochOf(c)}], home[c := t], readers)
  {
    var active', home' := active[t := active[t] + multiset{EpochOf(c)}], home[c := t];
    forall u, e | u in active' ensures Counted(active'[u], home', readers, u, e) {
      assert Counted(active[u], home, readers, u, e);
      assert HomesAt(home', u, e) == HomesAt(home, u, e) + if u == t && e == EpochOf(c) then {c} else {};
    }
  }

  lemma LeaveAccounts(active: map<nat, multiset<nat>>, home: map<nat, nat>, readers: multiset<(nat, nat)>, c: nat)
    requires Accounts(active, home, readers) && c in home
    ensures home[c] in active && active[home[c]][EpochOf(c)] > 0
    ensures Accounts(active[home[c] := active[home[c]] - multiset{EpochOf(c)}], home - {c}, readers)
  {
    var t, e0 := home[c], EpochOf(c);
    assert c in HomesAt(home, t, e0) && Counted(active[t], home, readers, t, e0);
    var active', home' := active[t := active[t] - multiset{e0}], home - {c};
    forall u, e | u in active' ensures Counted(active'[u], home', readers, u, e) {
      assert Counted(active[u], home, readers, u, e);
      assert HomesAt(home', u, e) == HomesAt(home, u, e) - if u == t && e == e0 then {c} else {};
    }
  }

  lemma ReaderEnters(active: map<nat, multiset<nat>>, home: map<nat, nat>, readers: multiset<(nat, nat)>, t: nat,
                     e0: nat)
    requires Accounts(active, home, readers) && t in active
    ensures Accounts(active[t := active[t] + multiset{e0}], home, readers + multiset{(t, e0)})
  {
    var active', readers' := active[t := active[t] + multiset{e0}], readers + multiset{(t, e0)};
    forall u, e | u in active' ensures Counted(active'[u], home, readers', u, e) {
      assert Counted(active[u], home, readers, u, e);
    }
  }

  lemma ReaderLeaves(active: map<nat, multiset<nat>>, home: map<nat, nat>, readers: multiset<(nat, nat)>, t: nat,
                     e0: nat)
    requires Accounts(active, home, readers) && readers[(t, e0)] > 0
    ensures t in active && active[t][e0] > 0
    ensures Accounts(active[t := active[t] - multiset{e0}], home, readers - multiset{(t, e0)})
  {
    assert (t, e0) in readers && Counted(active[t], home, readers, t, e0);
    var active', readers' := active[t := active[t] - multiset{e0}], readers - multiset{(t, e0)};
    forall u, e | u in active' ensures Counted(active'[u], home, readers', u, e) {
      assert Counted(active[u], home, readers, u, e);
    }
  }

  /** Who has not left an epoch is counted in it, so the epoch has not expired. */
  lemma HomeIsAbove(y: System, c: nat)
    requires SysInv(y) && c in y.home
    ensures y.ep.expired < EpochOf(c)
  {
    LeaveAccounts(y.ep.active, y.home, y.readers, c);
    ActiveIsAbove(y.ep, y.home[c], EpochOf(c));
  }

  /** A read-only transaction's epoch is the snapshot epoch for as long as it runs. */
  lemma ReaderIsAbove(y: System, p: (nat, nat))
    requires SysInv(y) && p in y.readers
    ensures p.0 in y.ep.active && p.1 in y.ep.active[p.0] && p.1 == y.ep.expired + 1
  {
    assert Counted(y.ep.active[p.0], y.home, y.readers, p.0, p.1);
  }

  // ----- Every step keeps the invariant -----

  lemma ReportKeeps(y: System, r: nat)
    requires SysInv(y) && SysAllowed(y, Report(r))
    ensures SysInv(SysNext(y, Report(r)))
  {
    hide EpochInv, Reached, Accounts, Homed, AllGarbage, Expired, IsLeast;
    var ep' := EpochNext(y.ep, Collect(r));
    NextKeepsEpochs(y.ep, Collect(r));
    forall p | p in y.readers ensures p.1 == ep'.snapshot {
      ReaderIsAbove(y, p);
      ActiveIsAbove(ep', p.0, p.1);
    }
  }

  lemma StartTxnKeeps(y: System, t: nat, e: nat)
    requires SysInv(y) && SysAllowed(y, StartTxn(t, e))
    ensures SysInv(SysNext(y, StartTxn(t, e)))
  {
    hide EpochInv, Reached, Accounts, AllGarbage, Enter;
    var c := Stamp(e, y.ep.next);
    BeginKeepsGarbage(y.st, c, y.gc);
    StampsAgree(e, y.ep.next, e, y.ep.next);
    NextKeepsEpochs(y.ep, EnterRead(t, e));
    NextReached(y.st, BeginTxn(c));
    EnterAccounts(y.ep.active, y.home, y.readers, t, c);
  }

  lemma EndEpochKeeps(y: System, c: nat)
    requires SysInv(y) && SysAllowed(y, EndEpoch(c))
    ensures SysInv(SysNext(y, EndEpoch(c)))
  {
    hide EpochInv, Reached, Accounts, AllGarbage, Exit;
    LeaveAccounts(y.ep.active, y.home, y.readers, c);
    NextKeepsEpochs(y.ep, Leave(y.home[c], EpochOf(c)));
    EpochHasLocal(y.ep, y.home[c]);
  }

  lemma EpochHasLocal(s: Epochs, t: nat)
    requires EpochInv(s) && t in s.active
    ensures t in s.locals
  {
  }

  lemma ReaderKeeps(y: System, step: SysStep)
    requires SysInv(y) && SysAllowed(y, step) && (step.StartReader? || step.EndReader?)
    ensures SysInv(SysNext(y, step))
  {
    hide EpochInv, Reached, Accounts, Homed, AllGarbage, Enter, Exit;
    if step.StartReader? {
      NextKeepsEpochs(y.ep, EnterSnapshot(step.thread));
      ReaderEnters(y.ep.active, y.home, y.readers, step.thread, y.ep.snapshot);
    } else {
      ReaderLeaves(y.ep.active, y.home, y.readers, step.thread, step.epoch);
      NextKeepsEpochs(y.ep, Leave(step.thread, step.epoch));
      EpochHasLocal(y.ep, step.thread);
    }
  }

  lemma PerformHomed(st: Store, call: Call, home: map<nat, nat>)
    requires Homed(st, home) && Succeeds(st, call) && !call.BeginTxn?
    ensures Homed(Effect(st, call), home)
  {
    CallKeepsRunning(st, call);
  }

  lemma CallKeepsRunning(st: Store, call: Call)
    requires Succeeds(st, call) && !call.BeginTxn?
    ensures st.txns.Keys == Effect(st, call).txns.Keys
    ensures forall c | Running(Effect(st, call), c) :: Running(st, c)
  {
  }

  lemma PerformGarbage(st: Store, call: Call, gc: map<nat, GCSet>)
    requires Reached(st) && Succeeds(st, call) && !call.BeginTxn? && AllGarbage(st, gc)
    ensures AllGarbage(Effect(st, call), gc + Discards(st, call))
  {
    var st', gc' := Effect(st, call), gc + Discards(st, call);
    CallKeepsRunning(st, call);
    forall c | c in gc' ensures c in st'.txns && !Running(st', c) && GarbageSet(st', gc'[c], c) {
      if c in Discards(st, call) {
        DiscardsGarbage(st, call);
      } else {
        assert c in st.txns && GarbageSet(st, gc[c], c);
        GarbageSetStays(st, call, gc[c], c);
      }
    }
  }

  lemma GarbageSetStays(st: Store, call: Call, g: GCSet, c: nat)
    requires Reached(st) && Succeeds(st, call) && c in st.txns && GarbageSet(st, g, c)
    ensures GarbageSet(Effect(st, call), g, c)
  {
    ReachedSession(st, c);
    forall l | l in g ensures l in Effect(st, call).mem.slots && IsGarbage(Effect(st, call).mem.slots[l].v, c) {
      GarbageStays(st, call, l, c);
    }
  }

  lemma DiscardsGarbage(st: Store, call: Call)
    requires Reached(st) && Succeeds(st, call) && call.c in Discards(st, call)
    ensures GarbageSet(Effect(st, call), Discards(st, call)[call.c], call.c)
  {
    forall l | l in Discards(st, call)[call.c]
      ensures l in Effect(st, call).mem.slots && IsGarbage(Effect(st, call).mem.slots[l].v, call.c)
    {
      if call.CommitTransaction? {
        CommitLeavesGarbage(st, call.c, l);
      } else {
        AbortLeavesGarbage(st, call.c, l);
      }
    }
  }

  lemma BeginKeepsGarbage(st: Store, c: nat, gc: map<nat, GCSet>)
    requires AllGarbage(st, gc) && Succeeds(st, BeginTxn(c))
    ensures AllGarbage(Effect(st, BeginTxn(c)), gc)
  {
    forall d | d in gc
      ensures d in Effect(st, BeginTxn(c)).txns && !Running(Effect(st, BeginTxn(c)), d) &&
              GarbageSet(Effect(st, BeginTxn(c)), gc[d], d)
    {
      assert GarbageSet(st, gc[d], d);
    }
  }

  lemma TickKeeps(y: System)
    requires SysInv(y) && SysAllowed(y, Tick)
    ensures SysInv(SysNext(y, Tick))
  {
    hide EpochInv, Reached, Accounts, Homed, AllGarbage;
    NextKeepsEpochs(y.ep, Advance);
  }

  lemma PerformKeeps(y: System, call: Call)
    requires SysInv(y) && SysAllowed(y, Perform(call))
    ensures SysInv(SysNext(y, Perform(call)))
  {
    hide EpochInv, Reached, Accounts, Homed, AllGarbage;
    NextReached(y.st, call);
    PerformHomed(y.st, call, y.home);
    PerformGarbage(y.st, call, y.gc);
  }

  lemma SysNextKeeps(y: System, step: SysStep)
    requires SysInv(y)
    ensures SysInv(SysNext(y, step))
  {
    hide SysInv;
    if SysAllowed(y, step) {
      match step
      case Tick => TickKeeps(y);
      case Report(r) => ReportKeeps(y, r);
      case StartTxn(t, e) => StartTxnKeeps(y, t, e);
      case Perform(call) => PerformKeeps(y, call);
      case EndEpoch(c) => EndEpochKeeps(y, c);
      case StartReader(t) => ReaderKeeps(y, step);
      case EndReader(t, e) => ReaderKeeps(y, step);
    }
  }

  lemma ReportsGrow(y: System, step: SysStep)
    requires SysInv(y)
    ensures y.ep.expired <= SysNext(y, step).ep.expired
  {
    hide EpochInv, Reached, Accounts, Homed, AllGarbage, Succeeds, Effect, Enter, Exit;
    if step.Report? {
      NextKeepsEpochs(y.ep, Collect(step.expired));
    }
  }

  lemma GarbageGrows(y: System, step: SysStep, c: nat)
    requires AllGarbage(y.st, y.gc) && c in y.gc
    ensures c in SysNext(y, step).gc && SysNext(y, step).gc[c] == y.gc[c]
  {
    hide EpochNext, Effect, GarbageSet, Allowed;
  }

  /** The reports never go back, and what was handed to the collector stays with it. */
  lemma SysNextGrows(y: System, step: SysStep, c: nat)
    requires SysInv(y)
    ensures y.ep.expired <= SysNext(y, step).ep.expired
    ensures c in y.gc ==> c in SysNext(y, step).gc && SysNext(y, step).gc[c] == y.gc[c]
  {
    hide SysNext;
    ReportsGrow(y, step);
    if c in y.gc {
      GarbageGrows(y, step, c);
    }
  }

  lemma {:induction false} SysRunGrows(y: System, steps: seq<SysStep>, c: nat)
    requires SysInv(y)
    ensures y.ep.expired <= SysRun(y, steps).ep.expired
    ensures c in y.gc ==> c in SysRun(y, steps).gc && SysRun(y, steps).gc[c] == y.gc[c]
  {
    hide SysInv, SysNext;
    if |steps| > 0 {
      var n := |steps| - 1;
      SysRunKeeps(y, steps[..n]);
      SysRunGrows(y, steps[..n], c);
      SysNextGrows(SysRun(y, steps[..n]), steps[n], c);
    }
  }

  lemma {:induction false} SysRunKeeps(y: System, steps: seq<SysStep>)
    requires SysInv(y)
    ensures SysInv(SysRun(y, steps))
  {
    if |steps| > 0 {
      var n := |steps| - 1;
      SysRunKeeps(y, steps[..n]);
      SysNextKeeps(SysRun(y, steps[..n]), steps[n]);
    }
  }

  lemma BootOk(threads: set<nat>)
    ensures SysInv(Boot(threads))
  {
    hide EpochInv, Reached;
    StartOk(threads);
    NothingReached();
  }
}
