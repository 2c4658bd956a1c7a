/** Exactly when a read-only transaction's snapshot cannot be disturbed any more. */
module SnapshotExactness {
  import opened Types
  import opened ReadWriteSet
  import opened Store
  import opened StoreRefinement
  import opened LocalEpochs
  import opened EpochSafety
  import opened Verdicts
  import opened Collection
  import opened CollectionSafety

  /** Reader `p` runs from `y` on and through all of `steps`. */
  ghost predicate Stays(y: System, steps: seq<SysStep>, p: (nat, nat)) {
    p in SysRun(y, steps).readers && (|steps| > 0 ==> Stays(y, steps[..|steps| - 1], p))
  }

  /** While `p` runs, a transaction can still be running with exactly the reader's timestamp. */
  ghost predicate Collides(y: System, p: (nat, nat)) {
    exists ahead :: Stays(y, ahead, p) && Running(SysRun(y, ahead).st, Stamp(p.1, 0))
  }

  /** Whatever happens while `p` runs, it keeps seeing what it sees now. */
  ghost predicate IsStable(y: System, p: (nat, nat)) {
    forall during | Stays(y, during, p) :: SameView(y.st, SysRun(y, during).st, Stamp(p.1, 0))
  }

  // ----- Without a collision, nothing changes -----

  lemma {:induction false} StaysUndisturbed(y: System, steps: seq<SysStep>, p: (nat, nat))
    requires Stays(y, steps, p) && !Collides(y, p)
    ensures Undisturbed(y, steps, p)
  {
    hide SysRun, Running;
    if |steps| > 0 {
      StaysUndisturbed(y, steps[..|steps| - 1], p);
    }
  }

  lemma StableWithout(y: System, p: (nat, nat))
    requires SysInv(y) && !Collides(y, p)
    ensures IsStable(y, p)
  {
    hide SysInv, SysRun, SameView, Collides, Stays, Undisturbed;
    forall during | Stays(y, during, p) ensures SameView(y.st, SysRun(y, during).st, Stamp(p.1, 0)) {
      StaysUndisturbed(y, during, p);
      RunKeepsView(y, during, p);
    }
  }

  // ----- With one, an insert is seen before it commits -----

  lemma StaysOneMore(y: System, steps: seq<SysStep>, p: (nat, nat), step: SysStep)
    requires Stays(y, steps, p) && p in SysNext(SysRun(y, steps), step).readers
    ensures Stays(y, steps + [step], p) && SysRun(y, steps + [step]) == SysNext(SysRun(y, steps), step)
  {
    hide SysNext;
    assert (steps + [step])[..|steps|] == steps;
  }

  lemma FreshNat(s: set<nat>) returns (n: nat)
    ensures n !in s
  {
    var m := LargestIn(s);
    n := m + 1;
  }

  lemma LargestIn(s: set<nat>) returns (m: nat)
    ensures forall x | x in s :: x <= m
    decreases |s|
  {
    if s == {} {
      m := 0;
    } else {
      var x :| x in s;
      var rest := LargestIn(s - {x});
      m := if rest < x then x else rest;
      assert forall z | z in s :: z == x || z in s - {x};
    }
  }

  /** The transaction gives up a lock it has just taken, if any. */
  lemma BecomesIdle(y: System, p: (nat, nat), steps: seq<SysStep>, c: nat) returns (idle: seq<SysStep>)
    requires SysInv(y) && Stays(y, steps, p) && Running(SysRun(y, steps).st, c)
    ensures Stays(y, idle, p) && Running(SysRun(y, idle).st, c) && SysRun(y, idle).st.txns[c].acquired.None?
  {
    hide SysInv, SysRun;
    var y1 := SysRun(y, steps);
    SysRunKeeps(y, steps);
    idle := steps;
    if y1.st.txns[c].acquired.Some? {
      var loc := y1.st.txns[c].acquired.value;
      AcquiredIsLocked(y1, c);
      StaysHere(y, steps, p);
      StaysOneMore(y, steps, p, Perform(YieldOwnership(c, loc)));
      idle := steps + [Perform(YieldOwnership(c, loc))];
    }
  }

  lemma StaysHere(y: System, steps: seq<SysStep>, p: (nat, nat))
    requires Stays(y, steps, p)
    ensures p in SysRun(y, steps).readers
  {
  }

  lemma AcquiredIsLocked(y: System, c: nat)
    requires SysInv(y) && Running(y.st, c) && y.st.txns[c].acquired.Some?
    ensures Succeeds(y.st, YieldOwnership(c, y.st.txns[c].acquired.value))
  {
    hide EpochInv, Accounts, AllGarbage, Homed, Reached;
    ReachedSession(y.st, c);
  }

  lemma DisturbedBy(y: System, p: (nat, nat), ahead: seq<SysStep>)
    requires SysInv(y) && Stays(y, ahead, p) && Running(SysRun(y, ahead).st, Stamp(p.1, 0))
    ensures !IsStable(y, p)
  {
    hide SysInv, SysRun, Stays, Verdict;
    var c := Stamp(p.1, 0);
    var steps := BecomesIdle(y, p, ahead, c);
    var y1 := SysRun(y, steps);
    SysRunKeeps(y, steps);
    StaysHere(y, steps, p);
    var used := set l | l in y.st.mem.slots.Keys + y1.st.mem.slots.Keys :: l.offset;
    var offset := FreshNat(used);
    var key := FreshNat(y1.st.mem.heads.Keys);
    var loc := Loc(0, offset);
    assert loc !in y.st.mem.slots && loc !in y1.st.mem.slots by {
      assert loc in y.st.mem.slots.Keys + y1.st.mem.slots.Keys ==> loc.offset in used;
    }
    var insert := Perform(PerformInsert(c, loc, key, 0));
    OnlyCollisionsDisturb(y1, p, c, loc, key, 0);
    StaysOneMore(y, steps, p, insert);
    assert !SameView(y.st, SysRun(y, steps + [insert]).st, c);
  }

  // ----- When a collision is possible -----

  lemma {:induction false} FinishedStays(y: System, steps: seq<SysStep>, c: nat)
    requires c in y.st.txns && !Running(y.st, c)
    ensures c in SysRun(y, steps).st.txns && !Running(SysRun(y, steps).st, c)
  {
    hide SysNext, Running;
    if |steps| > 0 {
      FinishedStays(y, steps[..|steps| - 1], c);
      FinishedStep(SysRun(y, steps[..|steps| - 1]), steps[|steps| - 1], c);
    }
  }

  lemma FinishedStep(y: System, step: SysStep, c: nat)
    requires c in y.st.txns && !Running(y.st, c)
    ensures c in SysNext(y, step).st.txns && !Running(SysNext(y, step).st, c)
  {
    hide EpochNext, Allowed;
  }

  /** Every transaction began in an epoch that has been current. */
  ghost predicate BegunByNow(y: System) {
    forall c | c in y.st.txns :: EpochOf(c) <= y.ep.current
  }

  lemma {:induction false} RunBegunByNow(threads: set<nat>, steps: seq<SysStep>)
    ensures BegunByNow(SysRun(Boot(threads), steps))
  {
    hide SysNext, BegunByNow;
    if |steps| > 0 {
      RunBegunByNow(threads, steps[..|steps| - 1]);
      StepBegunByNow(SysRun(Boot(threads), steps[..|steps| - 1]), steps[|steps| - 1]);
    } else {
      BootBegunByNow(threads);
    }
  }

  lemma BootBegunByNow(threads: set<nat>)
    ensures BegunByNow(Boot(threads))
  {
  }

  lemma StepBegunByNow(y: System, step: SysStep)
    requires BegunByNow(y)
    ensures BegunByNow(SysNext(y, step))
  {
    hide Enter, Exit, EpochOf, Stamp;
    if step.StartTxn? {
      StampsAgree(step.epoch, y.ep.next, step.epoch, y.ep.next);
    }
  }

  /** The reader's thread may still enter the reader's epoch and the current one. */
  lemma MayStart(y: System, p: (nat, nat), e: nat)
    requires SysInv(y) && p in y.readers && (e == p.1 || e == y.ep.current)
    ensures Allowed(y.ep, EnterRead(p.0, e)) && p.1 <= y.ep.current
  {
    hide Reached, Accounts, AllGarbage, Homed;
    ReaderIsAbove(y, p);
    assert ThreadOk(y.ep.locals[p.0], y.ep.active[p.0], y.ep.current, y.ep.expired);
  }

  lemma StampIsIssued(e: nat, n: nat)
    requires 0 < e < EPOCH_UNIT - 1
    ensures IsIssued(Stamp(e, n))
  {
  }

  lemma StartsAt(y: System, p: (nat, nat), e: nat)
    requires SysInv(y) && p in y.readers && (e == p.1 || e == y.ep.current) && 0 < e < EPOCH_UNIT - 1
    requires Stamp(e, y.ep.next) !in y.st.txns
    ensures var y' := SysNext(y, StartTxn(p.0, e));
            && y'.readers == y.readers && y'.ep.current == y.ep.current && y'.ep.next == y.ep.next + 1
            && y'.st.txns.Keys == y.st.txns.Keys + {Stamp(e, y.ep.next)} && Running(y'.st, Stamp(e, y.ep.next))
  {
    hide SysInv, Enter, Stamp, Refuses;
    MayStart(y, p, e);
    StampIsIssued(e, y.ep.next);
  }

  /** Transactions that began in the current epoch used smaller sequence numbers. */
  ghost predicate NumbersLeft(y: System) {
    forall c | c in y.st.txns && EpochOf(c) == y.ep.current :: c % EPOCH_UNIT < y.ep.next % EPOCH_UNIT
  }

  lemma NextNumber(y: System, c: nat)
    requires NumbersLeft(y) && c == Stamp(y.ep.current, y.ep.next)
    ensures c !in y.st.txns && EpochOf(c) == y.ep.current
  {
    StampParts(y.ep.current, y.ep.next);
  }

  lemma NumbersStayLeft(y: System, y': System)
    requires NumbersLeft(y) && y'.ep.current == y.ep.current && y'.ep.next == y.ep.next + 1 &&
             y'.ep.next % EPOCH_UNIT != 0
    requires y'.st.txns.Keys == y.st.txns.Keys + {Stamp(y.ep.current, y.ep.next)}
    ensures NumbersLeft(y') && y'.ep.next % EPOCH_UNIT == y.ep.next % EPOCH_UNIT + 1
  {
    StampParts(y.ep.current, y.ep.next);
  }

  /** Transactions start in the current epoch until the sequence number wraps around. */
  lemma {:induction false} WrapsAround(y: System, before: seq<SysStep>, p: (nat, nat),
                                       rs: nat) returns (steps: seq<SysStep>)
    requires var y1 := SysRun(y, before);
             && SysInv(y) && Stays(y, before, p) && rs !in y1.st.txns && EpochOf(rs) < y1.ep.current < EPOCH_UNIT - 1
             && (y1.ep.next % EPOCH_UNIT != 0 ==> NumbersLeft(y1))
    ensures var y2 := SysRun(y, steps);
            Stays(y, steps, p) && rs !in y2.st.txns && y2.ep.next % EPOCH_UNIT == 0 && y2.ep.current < EPOCH_UNIT - 1
    decreases EPOCH_UNIT - SysRun(y, before).ep.next % EPOCH_UNIT
  {
    hide SysInv, SysRun, SysNext, Stays, NumbersLeft, Stamp, EpochOf;
    var y1 := SysRun(y, before);
    steps := before;
    if y1.ep.next % EPOCH_UNIT != 0 {
      SysRunKeeps(y, before);
      StaysHere(y, before, p);
      var c := Stamp(y1.ep.current, y1.ep.next);
      NextNumber(y1, c);
      CurrentIsPositive(y1);
      StartsAt(y1, p, y1.ep.current);
      StaysOneMore(y, before, p, StartTxn(p.0, y1.ep.current));
      var y2 := SysNext(y1, StartTxn(p.0, y1.ep.current));
      if y2.ep.next % EPOCH_UNIT != 0 {
        NumbersStayLeft(y1, y2);
        steps := WrapsAround(y, before + [StartTxn(p.0, y1.ep.current)], p, rs);
      } else {
        steps := before + [StartTxn(p.0, y1.ep.current)];
      }
    }
  }

  lemma CurrentIsPositive(y: System)
    requires SysInv(y)
    ensures 0 < y.ep.current
  {
    hide Reached, Accounts, AllGarbage, Homed;
  }

  lemma Ticks(y: System)
    requires y.ep.current + 1 < EPOCH_UNIT && BegunByNow(y)
    ensures var y' := SysNext(y, Tick);
            && y'.ep.current == y.ep.current + 1 && y'.ep.next == y.ep.next && y'.readers == y.readers && y'.st == y.st
            && NumbersLeft(y')
  {
  }

  /** An id that was never used can still be handed out while the reader runs. */
  lemma UnusedCollides(y: System, p: (nat, nat))
    requires SysInv(y) && BegunByNow(y) && p in y.readers && y.ep.current + 2 < EPOCH_UNIT &&
             Stamp(p.1, 0) !in y.st.txns
    ensures Collides(y, p)
  {
    hide SysInv, SysRun, SysNext, Stays, BegunByNow, NumbersLeft, Stamp, EpochOf;
    var rs := Stamp(p.1, 0);
    StampsAgree(p.1, 0, p.1, 0);
    MayStart(y, p, p.1);
    StaysAtFirst(y, p);
    Ticks(y);
    StaysOneMore(y, [], p, Tick);
    var steps := WrapsAround(y, [] + [Tick], p, rs);
    var y2 := SysRun(y, steps);
    SysRunKeeps(y, steps);
    StaysHere(y, steps, p);
    StampsAgree(p.1, y2.ep.next, p.1, 0);
    MayStart(y2, p, p.1);
    ReaderEpochIsPositive(y2, p);
    StartsAt(y2, p, p.1);
    StaysOneMore(y, steps, p, StartTxn(p.0, p.1));
  }

  lemma StaysAtFirst(y: System, p: (nat, nat))
    requires p in y.readers
    ensures Stays(y, [], p) && SysRun(y, []) == y
  {
  }

  lemma ReaderEpochIsPositive(y: System, p: (nat, nat))
    requires SysInv(y) && p in y.readers
    ensures 0 < p.1
  {
    ReaderIsAbove(y, p);
  }

  /** STABLE SNAPSHOTS, EXACTLY. For a reader in any reachable system, no continuation changes
      what it sees of any slot if and only if no transaction with the reader's own timestamp is
      running or can still begin. As long as epoch ids are not used up, that means: if and only
      if such a transaction has begun and finished already. */
  lemma SnapshotExact(threads: set<nat>, before: seq<SysStep>, p: (nat, nat))
    requires p in SysRun(Boot(threads), before).readers
    ensures var y := SysRun(Boot(threads), before); var rs := Stamp(p.1, 0);
            && (IsStable(y, p) <==> !Collides(y, p))
            && (y.ep.current + 2 < EPOCH_UNIT ==> (IsStable(y, p) <==> rs in y.st.txns && !Running(y.st, rs)))
  {
    hide SysInv, SysRun, IsStable, Stays, Running, BegunByNow, Stamp;
    var y, rs := SysRun(Boot(threads), before), Stamp(p.1, 0);
    BootOk(threads);
    SysRunKeeps(Boot(threads), before);
    RunBegunByNow(threads, before);
    if Collides(y, p) {
      var ahead :| Stays(y, ahead, p) && Running(SysRun(y, ahead).st, rs);
      DisturbedBy(y, p, ahead);
      if rs in y.st.txns && !Running(y.st, rs) {
        FinishedStays(y, ahead, rs);
      }
    } else {
      StableWithout(y, p);
      StaysAtFirst(y, p);
      assert !Running(y.st, rs);
      if y.ep.current + 2 < EPOCH_UNIT && rs !in y.st.txns {
        UnusedCollides(y, p);
      }
    }
  }
}
