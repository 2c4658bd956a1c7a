/** The executors' loop over a batch of tuples: what it achieves, and exactly when it leaves a lock
    that nothing will release. */
module ExecutorBatches {
  import opened Types
  import opened VersionChain
  import opened ReadWriteSet
  import opened Store
  import opened StoreInvariant
  import opened StoreRefinement
  import opened StoreSafety
  import opened UncheckedCalls
  import opened Transactions
  import opened TransactionManagers
  import opened Executors

  /** An update plan projects the old tuple to the new one; a delete plan removes it. */
  datatype Plan = UpdatePlan(project: Value -> Value) | DeletePlan

  function ChangeFor(plan: Plan, value: Value): Change {
    if plan.UpdatePlan? then SetTo(plan.project(value)) else Remove
  }

  /** A tuple to write, and the slot the table provides for its new version. */
  datatype Target = Target(loc: Loc, new': Option<Loc>)

  /** The scan below the executor has read the tuple and nothing has overwritten it since. */
  predicate ReadyToWrite(st: Store, c: nat, loc: Loc) {
    && c in st.txns && loc in st.mem.slots
    && var v, rw := st.mem.slots[loc].v, st.txns[c].rw;
       if v.txn == c then
         if Pending(v) then v.end != INVALID_CID else loc in rw && rw[loc].READ_OWN?
       else loc in rw && rw[loc].READ?
  }

  /** The tuples of the source tile, which may repeat, and slots that the table provides once. */
  ghost predicate Batch(st: Store, c: nat, ts: seq<Target>) {
    && (forall i | 0 <= i < |ts| :: ReadyToWrite(st, c, ts[i].loc))
    && (forall i | 0 <= i < |ts| :: ts[i].new'.Some? ==> ts[i].new'.value !in st.mem.slots)
    && (forall i, j | 0 <= i < j < |ts| :: ts[i].new'.Some? ==> ts[i].new' != ts[j].new')
  }

  /** No tuple occurs twice among the first `n`, unless it is a version of the transaction's own. */
  ghost predicate NoRepeats(st: Store, ts: seq<Target>, n: nat)
    requires n <= |ts| && forall i | 0 <= i < |ts| :: ts[i].loc in st.mem.slots
  {
    forall i, j | 0 <= i < j < n :: ts[i].loc == ts[j].loc ==> Pending(st.mem.slots[ts[i].loc].v)
  }

  // ----- The loop as a function -----

  function WriteOnce(st: Store, c: nat, t: Target, plan: Plan): Store {
    if t.loc !in st.mem.slots then st
    else UncheckedRun(st, WriteCalls(st, c, t.loc, t.new', ChangeFor(plan, st.mem.slots[t.loc].v.value)))
  }

  /** The store after `n` iterations. */
  function RunBatch(st: Store, c: nat, ts: seq<Target>, plan: Plan, n: nat): Store
    requires n <= |ts|
  {
    if n == 0 then st else WriteOnce(RunBatch(st, c, ts, plan, n - 1), c, ts[n - 1], plan)
  }

  predicate Success(st: Store, c: nat, t: Target) {
    t.loc in st.mem.slots && Written(st, c, t.loc, t.new')
  }

  /** The first `n` iterations succeed. */
  predicate AllWritten(st: Store, c: nat, ts: seq<Target>, plan: Plan, n: nat)
    requires n <= |ts|
  {
    forall i | 0 <= i < n :: Success(RunBatch(st, c, ts, plan, i), c, ts[i])
  }

  // ----- What the loop keeps -----

  /** How often a tuple occurs among the first `n`, and where it does so last. */
  function Times(ts: seq<Target>, n: nat, x: Loc): nat
    requires n <= |ts|
  {
    if n == 0 then 0 else Times(ts, n - 1, x) + if ts[n - 1].loc == x then 1 else 0
  }

  function LastOf(ts: seq<Target>, n: nat, x: Loc): (k: nat)
    requires n <= |ts| && Times(ts, n, x) > 0
    ensures k < n && ts[k].loc == x
  {
    if ts[n - 1].loc == x then n - 1 else LastOf(ts, n - 1, x)
  }

  lemma {:induction false} TimesZero(ts: seq<Target>, n: nat, x: Loc)
    requires n <= |ts|
    ensures Times(ts, n, x) == 0 <==> forall i | 0 <= i < n :: ts[i].loc != x
  {
    if n > 0 {
      TimesZero(ts, n - 1, x);
    }
  }

  function Iterate(f: Value -> Value, v: Value, k: nat): Value {
    if k == 0 then v else f(Iterate(f, v, k - 1))
  }

  /** A version of the transaction's own after `k` writes in place. */
  function AfterWrites(v: Version, plan: Plan, k: nat): Version {
    match plan
    case UpdatePlan(f) => v.(value := Iterate(f, v.value, k))
    case DeletePlan => if k == 0 then v else v.(end := INVALID_CID)
  }

  /** The transaction's own new version holds the new value, or is marked deleted. */
  predicate Shows(v: Version, c: nat, change: Change) {
    && Pending(v) && v.txn == c
    && (if change.SetTo? then v.value == change.value && v.end == MAX_CID else v.end == INVALID_CID)
  }

  /** Before its transaction deletes it, an own version is an insert or lies over a recorded one. */
  predicate IsOwned(rw: RWSet, sl: Slot, x: Loc) {
    if sl.next.Some? then sl.next.value in rw ==> !rw[sl.next.value].INSERT? && !rw[sl.next.value].INS_DEL?
    else x in rw && rw[x].INSERT?
  }

  /** An own version was rewritten in place as often as it occurs; a committed one is as it was, or
      lies under the slot of its last occurrence. */
  predicate TargetOk(st: Store, now: Store, c: nat, ts: seq<Target>, plan: Plan, n: nat, x: Loc)
    requires n <= |ts|
  {
    && c in now.txns && x in st.mem.slots && x in now.mem.slots
    && var sl, sl', k := st.mem.slots[x], now.mem.slots[x], Times(ts, n, x);
       if Pending(sl.v) then
         && sl.v.txn == c && sl' == sl.(v := AfterWrites(sl.v, plan, k))
         && (plan.DeletePlan? ==> if k > 0 then IsDeleted(now.txns[c].rw, sl', x) else IsOwned(now.txns[c].rw, sl', x))
       else if k == 0 then SameFor(st, now, c, x)
       else Overwritten(sl, sl', now, c, plan, ts[LastOf(ts, n, x)].new')
  }

  predicate Overwritten(sl: Slot, sl': Slot, now: Store, c: nat, plan: Plan, new': Option<Loc>) {
    && sl'.v == sl.v.(txn := c) && new'.Some? && sl'.prev == new' && new'.value in now.mem.slots
    && Shows(now.mem.slots[new'.value].v, c, ChangeFor(plan, sl.v.value))
  }

  ghost predicate Loop(st: Store, now: Store, c: nat, ts: seq<Target>, plan: Plan, n: nat)
    requires n <= |ts|
  {
    && Running(now, c) && now.txns[c].acquired.None?
    && (forall l | l in now.txns[c].rw :: l in st.mem.slots)
    && (forall l | l in st.mem.slots :: l in now.mem.slots)
    && (forall i | 0 <= i < |ts| :: TargetOk(st, now, c, ts, plan, n, ts[i].loc))
    && (forall i | n <= i < |ts| :: ts[i].new'.Some? ==> ts[i].new'.value !in now.mem.slots)
  }

  // ----- The batch at the start -----

  ghost predicate BatchStarts(st: Store, c: nat, ts: seq<Target>) {
    Reached(st) && Running(st, c) && st.txns[c].acquired.None? && Batch(st, c, ts)
  }

  lemma ReadIsCommitted(st: Store, c: nat, loc: Loc)
    requires Reached(st) && Running(st, c) && loc in st.txns[c].rw && st.txns[c].rw[loc].READ?
    ensures loc in st.mem.slots && !Pending(st.mem.slots[loc].v)
  {
    ReachedConsistent(st);
    assert SessionOk(st, c) && EntryOk(st, c, loc);
  }

  /** A pending version that is ready to be written is the transaction's own. */
  lemma PendingIsOwn(st: Store, c: nat, loc: Loc)
    requires Reached(st) && Running(st, c) && ReadyToWrite(st, c, loc) && Pending(st.mem.slots[loc].v)
    ensures st.mem.slots[loc].v.txn == c
  {
    if st.mem.slots[loc].v.txn != c {
      ReadIsCommitted(st, c, loc);
      assert false;
    }
  }

  /** What a scan has read, plainly or for update, is ready to be written. */
  lemma ReadIsReady(st: Store, call: Call)
    requires (call.PerformRead? || call.ReadToUpdate?) && Succeeds(st, call) && Reached(st)
    ensures ReadyToWrite(StoreNext(st, call), call.c, call.loc)
  {
    hide Reached;
    ReachedSession(st, call.c);
    ReadMakesReady(st, call);
  }

  lemma ReadMakesReady(st: Store, call: Call)
    requires (call.PerformRead? || call.ReadToUpdate?) && Succeeds(st, call) && SessionOk(st, call.c)
    ensures ReadyToWrite(Effect(st, call), call.c, call.loc)
  {
    assert call.loc in st.txns[call.c].rw ==> EntryOk(st, call.c, call.loc);
  }

  /** A version in front of a tuple of the batch is a slot; nothing is in front of one that the
      transaction holds or can lock. */
  lemma InFront(st: Store, c: nat, loc: Loc)
    requires Reached(st) && Running(st, c) && ReadyToWrite(st, c, loc) && !Pending(st.mem.slots[loc].v)
    ensures st.mem.slots[loc].prev.Some? ==> st.mem.slots[loc].prev.value in st.mem.slots
    ensures st.mem.slots[loc].v.txn == c || Succeeds(st, AcquireOwnership(c, loc)) ==> st.mem.slots[loc].prev.None?
  {
    hide Reached;
    ReachedConsistent(st);
    assert SessionOk(st, c) && EntryOk(st, c, loc);
    NewerIsSlot(st, loc);
    if Succeeds(st, AcquireOwnership(c, loc)) {
      LockIsNewest(st, c, loc);
    }
  }

  lemma NewerIsSlot(st: Store, loc: Loc)
    requires Links(st) && OnList(st, loc)
    ensures st.mem.slots[loc].prev.Some? ==> st.mem.slots[loc].prev.value in st.mem.slots
  {
    var k := st.mem.slots[loc].entry.value;
    assert Linked(st.mem, k, st.order[k]);
    var i :| 0 <= i < |st.order[k]| && st.order[k][i] == loc;
    assert Neighbours(st.mem, st.order[k], i);
    assert i + 1 < |st.order[k]| ==> Neighbours(st.mem, st.order[k], i + 1);
  }

  lemma LockIsNewest(st: Store, c: nat, loc: Loc)
    requires Reached(st) && Succeeds(st, AcquireOwnership(c, loc))
    ensures st.mem.slots[loc].prev.None?
  {
    hide StoreRun, Succeeds;
    var calls :| st == StoreRun(EmptyStore, calls);
    AcquireIsNewest(calls, c, loc);
  }

  /** What an in-place write records is a slot, and not another tuple of the batch. */
  lemma RecordedApart(st: Store, c: nat, a: Loc, b: Loc)
    requires Reached(st) && Running(st, c) && st.txns[c].acquired.None? && ReadyToWrite(st, c, a)
    requires Pending(st.mem.slots[a].v) && st.mem.slots[a].v.txn == c && ReadyToWrite(st, c, b)
    ensures st.mem.slots[a].next != Some(b)
    ensures st.mem.slots[a].next.Some? ==> st.mem.slots[a].next.value in st.mem.slots
  {
    hide Reached;
    PendingIsRecorded(st, c, a);
    ReachedSession(st, c);
    assert st.mem.slots[a].next.Some? ==> EntryOk(st, c, st.mem.slots[a].next.value);
  }

  lemma LoopStarts(st: Store, c: nat, ts: seq<Target>, plan: Plan)
    requires BatchStarts(st, c, ts)
    ensures Loop(st, st, c, ts, plan, 0)
  {
    hide Reached;
    forall l | l in st.txns[c].rw ensures l in st.mem.slots {
      RecordedIsUsed(st, c, l);
    }
    forall i | 0 <= i < |ts| ensures TargetOk(st, st, c, ts, plan, 0, ts[i].loc) {
      if Pending(st.mem.slots[ts[i].loc].v) {
        PendingIsOwn(st, c, ts[i].loc);
        PendingIsRecorded(st, c, ts[i].loc);
      }
    }
  }

  // ----- One iteration on a version of the transaction's own -----

  /** The entry that an in-place write of `x` records. */
  function RecordsAt(sl: Slot, x: Loc): Loc {
    if sl.next.Some? then sl.next.value else x
  }

  /** `x` got the version `v`; one entry may have been added or moved up. */
  ghost predicate InPlaceStep(now: Store, next: Store, c: nat, x: Loc, v: Version, plan: Plan)
    requires c in now.txns && x in now.mem.slots
  {
    && Running(next, c) && next.txns[c].acquired.None?
    && next.mem.slots == now.mem.slots[x := now.mem.slots[x].(v := v)]
    && var rw, rw', q := now.txns[c].rw, next.txns[c].rw, RecordsAt(now.mem.slots[x], x);
       && (forall y | y != q :: (y in rw' <==> y in rw) && (y in rw ==> rw'[y] == rw[y]))
       && (q in rw' ==> q in rw || now.mem.slots[x].next.Some? || plan.DeletePlan?)
       && (q in rw && (rw[q].DELETE? || rw[q].INS_DEL?) ==> q in rw' && rw'[q] == rw[q])
       && (plan.DeletePlan? ==> IsDeleted(rw', next.mem.slots[x], x))
  }

  lemma RewritesOwn(now: Store, c: nat, t: Target, plan: Plan)
    requires Running(now, c) && now.txns[c].acquired.None? && t.loc in now.mem.slots
    requires var sl, rw := now.mem.slots[t.loc], now.txns[c].rw;
             && sl.v.txn == c && Pending(sl.v)
             && (if sl.v.end == INVALID_CID then plan.DeletePlan? && IsDeleted(rw, sl, t.loc)
                 else plan.UpdatePlan? || IsOwned(rw, sl, t.loc))
    ensures InPlaceStep(now, WriteOnce(now, c, t, plan), c, t.loc, AfterWrites(now.mem.slots[t.loc].v, plan, 1), plan)
  {
    var v := now.mem.slots[t.loc].v;
    RunOne(now, InPlace(c, t.loc, ChangeFor(plan, v.value)));
    assert plan.UpdatePlan? ==> Iterate(plan.project, v.value, 1) == plan.project(Iterate(plan.project, v.value, 0));
    if v.end == INVALID_CID {
      assert now.mem.slots == now.mem.slots[t.loc := now.mem.slots[t.loc].(v := v)];
    }
  }

  // ----- One iteration on a committed version -----

  /** `x` is locked and lies under the new version, which is in front of everything else. */
  ghost predicate LinkStep(now: Store, next: Store, c: nat, x: Loc, new': Loc, plan: Plan)
    requires c in now.txns && x in now.mem.slots
  {
    var sl := now.mem.slots[x];
    && Running(next, c) && next.txns[c].acquired.None?
    && next.mem.slots.Keys == now.mem.slots.Keys + {new'}
    && (forall y | y in now.mem.slots ::
          next.mem.slots[y] == if y == x then sl.(prev := Some(new'), v := sl.v.(txn := c))
                               else if sl.prev == Some(y) then now.mem.slots[y].(next := Some(new'))
                               else now.mem.slots[y])
    && Shows(next.mem.slots[new'].v, c, ChangeFor(plan, sl.v.value))
    && next.txns[c].rw == if plan.UpdatePlan? then RecordUpdate(now.txns[c].rw, x) else RecordDelete(now.txns[c].rw, x)
  }

  lemma LinksOwned(now: Store, c: nat, x: Loc, new': Loc, plan: Plan)
    requires var sl := now.mem.slots; x in sl && sl[x].prev != Some(x)
    requires CanLink(now, NewVersion(c, x, new', ChangeFor(plan, now.mem.slots[x].v.value)))
    ensures LinkStep(now, Unchecked(now, NewVersion(c, x, new', ChangeFor(plan, now.mem.slots[x].v.value))),
                     c, x, new', plan)
  {
    hide Unchecked;
    var call := NewVersion(c, x, new', ChangeFor(plan, now.mem.slots[x].v.value));
    LinkedRest(now, call);
    forall y | y in now.mem.slots
      ensures y in Unchecked(now, call).mem.slots
      ensures Unchecked(now, call).mem.slots[y] ==
              if y == x then now.mem.slots[x].(prev := Some(new'))
              else if now.mem.slots[x].prev == Some(y) then now.mem.slots[y].(next := Some(new'))
              else now.mem.slots[y]
    {
      LinkedSlot(now, call, y);
    }
  }

  lemma LockStep(now: Store, c: nat, x: Loc)
    requires Succeeds(now, AcquireOwnership(c, x)) && x in now.mem.slots
    ensures var sl, st' := now.mem.slots[x], Unchecked(now, AcquireOwnership(c, x));
            && st'.mem.slots == now.mem.slots[x := sl.(v := sl.v.(txn := c))]
            && Running(st', c) && st'.txns[c].rw == now.txns[c].rw
  {
  }

  lemma LinksTuple(now: Store, c: nat, t: Target, plan: Plan)
    requires Running(now, c) && Success(now, c, t) && t.new'.Some? && t.new'.value !in now.mem.slots
    requires !Pending(now.mem.slots[t.loc].v) && now.mem.slots[t.loc].prev != Some(t.loc)
    ensures LinkStep(now, WriteOnce(now, c, t, plan), c, t.loc, t.new'.value, plan)
  {
    hide Unchecked;
    var x, new', value := t.loc, t.new'.value, now.mem.slots[t.loc].v.value;
    var call := NewVersion(c, x, new', ChangeFor(plan, value));
    if now.mem.slots[x].v.txn == c {
      RunOne(now, call);
      LinksOwned(now, c, x, new', plan);
    } else {
      var locked := Unchecked(now, AcquireOwnership(c, x));
      RunTwo(now, AcquireOwnership(c, x), call);
      LockStep(now, c, x);
      LinksOwned(locked, c, x, new', plan);
    }
  }

  // ----- Every iteration keeps the invariant -----

  lemma OneMoreWrite(v: Version, plan: Plan, k: nat)
    ensures AfterWrites(AfterWrites(v, plan, k), plan, 1) == AfterWrites(v, plan, k + 1)
  {
    if plan.UpdatePlan? {
      var f, w := plan.project, Iterate(plan.project, v.value, k);
      assert Iterate(f, w, 1) == f(Iterate(f, w, 0)) == f(w);
    }
  }

  lemma InPlaceKeeps(st: Store, now: Store, next: Store, c: nat, ts: seq<Target>, plan: Plan, n: nat, i: nat)
    requires BatchStarts(st, c, ts) && n < |ts| && i < |ts| && Loop(st, now, c, ts, plan, n)
    requires var x := ts[n].loc;
             && Pending(st.mem.slots[x].v)
             && InPlaceStep(now, next, c, x, AfterWrites(now.mem.slots[x].v, plan, 1), plan)
    ensures TargetOk(st, next, c, ts, plan, n + 1, ts[i].loc)
  {
    hide Reached;
    var x, y := ts[n].loc, ts[i].loc;
    assert TargetOk(st, now, c, ts, plan, n, x) && TargetOk(st, now, c, ts, plan, n, y);
    RecordedApart(st, c, x, y);
    if Pending(st.mem.slots[y].v) {
      RecordedApart(st, c, y, x);
    }
    OneMoreWrite(st.mem.slots[x].v, plan, Times(ts, n, x));
  }

  lemma InPlaceLoop(st: Store, now: Store, next: Store, c: nat, ts: seq<Target>, plan: Plan, n: nat)
    requires BatchStarts(st, c, ts) && n < |ts| && Loop(st, now, c, ts, plan, n)
    requires var x := ts[n].loc;
             && Pending(st.mem.slots[x].v)
             && InPlaceStep(now, next, c, x, AfterWrites(now.mem.slots[x].v, plan, 1), plan)
    ensures Loop(st, next, c, ts, plan, n + 1)
  {
    hide Reached, AfterWrites, Times, TargetOk;
    var x := ts[n].loc;
    forall i | 0 <= i < |ts| ensures TargetOk(st, next, c, ts, plan, n + 1, ts[i].loc) {
      InPlaceKeeps(st, now, next, c, ts, plan, n, i);
    }
    RecordedIn(st, now, c, ts, plan, n);
  }

  lemma RecordedIn(st: Store, now: Store, c: nat, ts: seq<Target>, plan: Plan, n: nat)
    requires BatchStarts(st, c, ts) && n < |ts| && Loop(st, now, c, ts, plan, n) && Pending(st.mem.slots[ts[n].loc].v)
    ensures ts[n].loc in now.mem.slots && RecordsAt(now.mem.slots[ts[n].loc], ts[n].loc) in st.mem.slots
  {
    hide Reached;
    var x := ts[n].loc;
    assert TargetOk(st, now, c, ts, plan, n, x);
    RecordedApart(st, c, x, x);
  }

  /** What lies in front of a tuple of the batch, if anything, is none of the slots at the start. */
  lemma FrontIsNew(st: Store, now: Store, c: nat, ts: seq<Target>, plan: Plan, n: nat)
    requires BatchStarts(st, c, ts) && n < |ts| && Loop(st, now, c, ts, plan, n) && !Pending(st.mem.slots[ts[n].loc].v)
    requires Success(now, c, ts[n])
    ensures var prev := now.mem.slots[ts[n].loc].prev;
            prev.Some? ==> prev.value !in st.mem.slots && prev.value in now.mem.slots && Times(ts, n, ts[n].loc) > 0
    ensures !Pending(now.mem.slots[ts[n].loc].v) && ts[n].new'.Some?
  {
    hide Reached;
    var x := ts[n].loc;
    assert TargetOk(st, now, c, ts, plan, n, x);
    InFront(st, c, x);
  }

  lemma LinkKeeps(st: Store, now: Store, next: Store, c: nat, ts: seq<Target>, plan: Plan, n: nat, i: nat)
    requires BatchStarts(st, c, ts) && n < |ts| && i < |ts| && Loop(st, now, c, ts, plan, n) && ts[i].loc != ts[n].loc
    requires var x := ts[n].loc;
             && !Pending(st.mem.slots[x].v) && ts[n].new'.Some?
             && (now.mem.slots[x].prev.Some? ==> now.mem.slots[x].prev.value !in st.mem.slots)
             && LinkStep(now, next, c, x, ts[n].new'.value, plan)
    ensures TargetOk(st, next, c, ts, plan, n + 1, ts[i].loc)
  {
    hide Reached, Shows;
    var x, y := ts[n].loc, ts[i].loc;
    assert TargetOk(st, now, c, ts, plan, n, y);
    if Pending(st.mem.slots[y].v) {
      RecordedApart(st, c, y, x);
    }
  }

  lemma LinkWrites(st: Store, now: Store, next: Store, c: nat, ts: seq<Target>, plan: Plan, n: nat)
    requires n < |ts| && Loop(st, now, c, ts, plan, n)
    requires var x := ts[n].loc;
             && x in st.mem.slots && !Pending(st.mem.slots[x].v) && ts[n].new'.Some?
             && LinkStep(now, next, c, x, ts[n].new'.value, plan)
    ensures TargetOk(st, next, c, ts, plan, n + 1, ts[n].loc)
  {
    hide Shows;
    assert TargetOk(st, now, c, ts, plan, n, ts[n].loc);
  }

  lemma LinkLoop(st: Store, now: Store, next: Store, c: nat, ts: seq<Target>, plan: Plan, n: nat)
    requires BatchStarts(st, c, ts) && n < |ts| && Loop(st, now, c, ts, plan, n)
    requires var x := ts[n].loc;
             && !Pending(st.mem.slots[x].v) && ts[n].new'.Some?
             && (now.mem.slots[x].prev.Some? ==> now.mem.slots[x].prev.value !in st.mem.slots)
             && LinkStep(now, next, c, x, ts[n].new'.value, plan)
    ensures Loop(st, next, c, ts, plan, n + 1)
  {
    hide Reached, Times, TargetOk;
    forall i | 0 <= i < |ts| ensures TargetOk(st, next, c, ts, plan, n + 1, ts[i].loc) {
      if ts[i].loc == ts[n].loc {
        LinkWrites(st, now, next, c, ts, plan, n);
      } else {
        LinkKeeps(st, now, next, c, ts, plan, n, i);
      }
    }
  }

  lemma LoopStep(st: Store, now: Store, c: nat, ts: seq<Target>, plan: Plan, n: nat)
    requires BatchStarts(st, c, ts) && n < |ts| && Loop(st, now, c, ts, plan, n) && Success(now, c, ts[n])
    ensures Loop(st, WriteOnce(now, c, ts[n], plan), c, ts, plan, n + 1)
  {
    hide BatchStarts, InPlaceStep, LinkStep, WriteOnce, Success;
    StartsOnSlots(st, c, ts, n);
    if Pending(st.mem.slots[ts[n].loc].v) {
      OwnIsWritable(st, now, c, ts, plan, n);
      RewritesOwn(now, c, ts[n], plan);
      InPlaceLoop(st, now, WriteOnce(now, c, ts[n], plan), c, ts, plan, n);
    } else {
      FrontIsNew(st, now, c, ts, plan, n);
      LinksTuple(now, c, ts[n], plan);
      LinkLoop(st, now, WriteOnce(now, c, ts[n], plan), c, ts, plan, n);
    }
  }

  lemma StartsOnSlots(st: Store, c: nat, ts: seq<Target>, n: nat)
    requires BatchStarts(st, c, ts) && n < |ts|
    ensures ts[n].loc in st.mem.slots
  {
    hide Reached;
  }

  lemma OwnIsWritable(st: Store, now: Store, c: nat, ts: seq<Target>, plan: Plan, n: nat)
    requires BatchStarts(st, c, ts) && n < |ts| && Loop(st, now, c, ts, plan, n) && Pending(st.mem.slots[ts[n].loc].v)
    ensures ts[n].loc in now.mem.slots
    ensures var sl, rw := now.mem.slots[ts[n].loc], now.txns[c].rw;
            && sl.v.txn == c && Pending(sl.v)
            && (if sl.v.end == INVALID_CID then plan.DeletePlan? && IsDeleted(rw, sl, ts[n].loc)
                else plan.UpdatePlan? || IsOwned(rw, sl, ts[n].loc))
  {
    hide Reached;
    assert TargetOk(st, now, c, ts, plan, n, ts[n].loc);
  }

  // ----- Locks that nothing releases -----

  /** A new version that another one was put in front of, and that no tuple of the batch points to. */
  ghost predicate Buried(st: Store, now: Store, c: nat, ts: seq<Target>, l: Loc) {
    && l in now.mem.slots && l !in st.mem.slots && now.mem.slots[l].v.txn == c
    && now.mem.slots[l].next.Some? && now.mem.slots[l].next.value !in st.mem.slots
    && (forall i | 0 <= i < |ts| :: ts[i].loc in now.mem.slots && now.mem.slots[ts[i].loc].prev != Some(l))
  }

  lemma BuriedLeaks(st: Store, now: Store, c: nat, ts: seq<Target>, plan: Plan, n: nat, l: Loc)
    requires n <= |ts| && Loop(st, now, c, ts, plan, n) && Buried(st, now, c, ts, l)
    ensures !CommitReleases(now, c) && !AbortReleases(now, c)
  {
    hide CommitReleases, AbortReleases, TargetOk;
    StuckLeaks(now, c, l);
  }

  lemma BuriedStays(st: Store, now: Store, c: nat, ts: seq<Target>, plan: Plan, n: nat, l: Loc)
    requires BatchStarts(st, c, ts) && n < |ts| && Loop(st, now, c, ts, plan, n) && Success(now, c, ts[n])
    requires Buried(st, now, c, ts, l)
    ensures Buried(st, WriteOnce(now, c, ts[n], plan), c, ts, l)
  {
    hide BatchStarts, WriteOnce, Success, TargetOk, CommitReleases;
    StartsOnSlots(st, c, ts, n);
    if Pending(st.mem.slots[ts[n].loc].v) {
      OwnIsWritable(st, now, c, ts, plan, n);
      RewritesOwn(now, c, ts[n], plan);
    } else {
      FrontIsNew(st, now, c, ts, plan, n);
      LinksTuple(now, c, ts[n], plan);
    }
  }

  /** A committed tuple that comes up again: its first new version gets buried. */
  lemma RepeatBuries(st: Store, now: Store, c: nat, ts: seq<Target>, plan: Plan, n: nat)
    requires BatchStarts(st, c, ts) && n < |ts| && Loop(st, now, c, ts, plan, n) && Success(now, c, ts[n])
    requires ts[n].loc in st.mem.slots && !Pending(st.mem.slots[ts[n].loc].v) && Times(ts, n, ts[n].loc) > 0
    ensures exists l :: Buried(st, WriteOnce(now, c, ts[n], plan), c, ts, l)
  {
    hide Reached, WriteOnce, Success, CommitReleases;
    var x, next := ts[n].loc, WriteOnce(now, c, ts[n], plan);
    FrontIsNew(st, now, c, ts, plan, n);
    LinksTuple(now, c, ts[n], plan);
    assert TargetOk(st, now, c, ts, plan, n, x);
    var l := now.mem.slots[x].prev.value;
    forall i | 0 <= i < |ts| ensures ts[i].loc in next.mem.slots && next.mem.slots[ts[i].loc].prev != Some(l) {
      PointsElsewhere(st, now, c, ts, plan, n, i);
    }
    assert Buried(st, next, c, ts, l);
  }

  /** Different tuples lie under different slots. */
  lemma PointsElsewhere(st: Store, now: Store, c: nat, ts: seq<Target>, plan: Plan, n: nat, i: nat)
    requires BatchStarts(st, c, ts) && n < |ts| && i < |ts| && Loop(st, now, c, ts, plan, n)
    requires ts[n].loc in st.mem.slots && !Pending(st.mem.slots[ts[n].loc].v) && Times(ts, n, ts[n].loc) > 0
    ensures ts[i].loc in now.mem.slots && ts[n].loc in now.mem.slots
    ensures ts[i].loc != ts[n].loc ==> now.mem.slots[ts[i].loc].prev != now.mem.slots[ts[n].loc].prev
  {
    hide Reached, Batch, Times, Loop;
    var y := ts[i].loc;
    FrontOf(st, now, c, ts, plan, n, n);
    FrontOf(st, now, c, ts, plan, n, i);
    SlotsApart(st, c, ts, LastOf(ts, n, ts[n].loc), LastOf(ts, n, ts[n].loc));
    if !Pending(st.mem.slots[y].v) && Times(ts, n, y) > 0 {
      SlotsApart(st, c, ts, LastOf(ts, n, y), LastOf(ts, n, ts[n].loc));
    }
  }

  lemma SlotsApart(st: Store, c: nat, ts: seq<Target>, i: nat, j: nat)
    requires Batch(st, c, ts) && i < |ts| && j < |ts|
    ensures i != j && ts[i].new'.Some? ==> ts[i].new' != ts[j].new'
    ensures ts[i].new'.Some? ==> ts[i].new'.value !in st.mem.slots
  {
  }

  /** In front of a tuple is a slot from the start, or that of its last occurrence. */
  lemma FrontOf(st: Store, now: Store, c: nat, ts: seq<Target>, plan: Plan, n: nat, i: nat)
    requires BatchStarts(st, c, ts) && n <= |ts| && i < |ts| && Loop(st, now, c, ts, plan, n)
    ensures var y := ts[i].loc;
            && y in now.mem.slots && y in st.mem.slots
            && var prev := now.mem.slots[y].prev;
               if !Pending(st.mem.slots[y].v) && Times(ts, n, y) > 0 then
                 prev.Some? && prev == ts[LastOf(ts, n, y)].new'
               else prev.Some? ==> prev.value in st.mem.slots
  {
    hide Reached;
    assert TargetOk(st, now, c, ts, plan, n, ts[i].loc);
    FrontAtStart(st, c, ts[i].loc);
  }

  lemma FrontAtStart(st: Store, c: nat, loc: Loc)
    requires Reached(st) && Running(st, c) && ReadyToWrite(st, c, loc)
    ensures st.mem.slots[loc].prev.Some? ==> st.mem.slots[loc].prev.value in st.mem.slots
  {
    hide Reached;
    ReachedConsistent(st);
    assert OnList(st, loc) || Dead(st.mem.slots[loc].v);
    ReachedSession(st, c);
    assert loc in st.txns[c].rw ==> EntryOk(st, c, loc);
    NewerIsSlot(st, loc);
  }

  // ----- Without repetitions every call is one of the store model -----

  lemma FirstWriteReached(st: Store, now: Store, c: nat, ts: seq<Target>, plan: Plan, n: nat)
    requires BatchStarts(st, c, ts) && n < |ts| && Loop(st, now, c, ts, plan, n) && Success(now, c, ts[n])
    requires ts[n].loc in st.mem.slots && (Pending(st.mem.slots[ts[n].loc].v) || Times(ts, n, ts[n].loc) == 0)
    requires Reached(now)
    ensures Reached(WriteOnce(now, c, ts[n], plan))
  {
    hide Reached, EffectAt;
    var x := ts[n].loc;
    assert TargetOk(st, now, c, ts, plan, n, x);
    var calls := WriteCalls(now, c, x, ts[n].new', ChangeFor(plan, now.mem.slots[x].v.value));
    if |calls| == 1 {
      RunOne(now, calls[0]);
      CheckedCall(now, calls[0]);
      NextReached(now, calls[0]);
    } else {
      RunTwo(now, calls[0], calls[1]);
      NextReached(now, calls[0]);
      LocksFor(now, c, x);
      CheckedCall(StoreNext(now, calls[0]), calls[1]);
      NextReached(StoreNext(now, calls[0]), calls[1]);
    }
  }

  lemma LocksFor(st: Store, c: nat, x: Loc)
    requires Succeeds(st, AcquireOwnership(c, x))
    ensures Unchecked(st, AcquireOwnership(c, x)) == StoreNext(st, AcquireOwnership(c, x))
    ensures CanWrite(StoreNext(st, AcquireOwnership(c, x)).txns[c], x)
  {
  }

  // ----- The whole loop -----

  lemma OnSlots(st: Store, c: nat, ts: seq<Target>)
    requires Batch(st, c, ts)
    ensures forall i | 0 <= i < |ts| :: ts[i].loc in st.mem.slots
  {
  }

  lemma NoneRepeats(st: Store, ts: seq<Target>)
    requires forall i | 0 <= i < |ts| :: ts[i].loc in st.mem.slots
    ensures NoRepeats(st, ts, 0)
  {
  }

  lemma RepeatsOrNot(st: Store, ts: seq<Target>, n: nat)
    requires n < |ts| && forall i | 0 <= i < |ts| :: ts[i].loc in st.mem.slots
    ensures NoRepeats(st, ts, n + 1) <==>
            NoRepeats(st, ts, n) && (Pending(st.mem.slots[ts[n].loc].v) || Times(ts, n, ts[n].loc) == 0)
  {
    hide Times;
    TimesZero(ts, n, ts[n].loc);
  }

  lemma {:induction false} BatchRuns(st: Store, c: nat, ts: seq<Target>, plan: Plan, n: nat)
    requires BatchStarts(st, c, ts) && n <= |ts| && AllWritten(st, c, ts, plan, n)
    ensures var now := RunBatch(st, c, ts, plan, n);
            && Loop(st, now, c, ts, plan, n)
            && (forall i | 0 <= i < |ts| :: ts[i].loc in st.mem.slots)
            && (if NoRepeats(st, ts, n) then Reached(now) else exists l :: Buried(st, now, c, ts, l))
  {
    hide Reached, Batch, Loop, Buried, WriteOnce, Success, NoRepeats, Times, CommitReleases;
    OnSlots(st, c, ts);
    if n == 0 {
      LoopStarts(st, c, ts, plan);
      NoneRepeats(st, ts);
    } else {
      var now := RunBatch(st, c, ts, plan, n - 1);
      BatchRuns(st, c, ts, plan, n - 1);
      LoopStep(st, now, c, ts, plan, n - 1);
      RepeatsOrNot(st, ts, n - 1);
      if !NoRepeats(st, ts, n - 1) {
        var l :| Buried(st, now, c, ts, l);
        BuriedStays(st, now, c, ts, plan, n - 1, l);
      } else if Pending(st.mem.slots[ts[n - 1].loc].v) || Times(ts, n - 1, ts[n - 1].loc) == 0 {
        FirstWriteReached(st, now, c, ts, plan, n - 1);
      } else {
        RepeatBuries(st, now, c, ts, plan, n - 1);
      }
    }
  }

  /** WHEN A BATCH LEAKS. For every reachable store, every batch of tuples that were read, and every
      number of successful iterations: commit releases all locks of the transaction, and so does
      abort, if and only if no committed version occurs twice. */
  lemma RepeatsLeak(st: Store, c: nat, ts: seq<Target>, plan: Plan, n: nat)
    requires BatchStarts(st, c, ts) && n <= |ts| && AllWritten(st, c, ts, plan, n)
    ensures var now := RunBatch(st, c, ts, plan, n);
            && c in now.txns && (forall i | 0 <= i < |ts| :: ts[i].loc in st.mem.slots)
            && (CommitReleases(now, c) <==> NoRepeats(st, ts, n))
            && (AbortReleases(now, c) <==> NoRepeats(st, ts, n))
  {
    hide Reached, BatchStarts, AllWritten, RunBatch, NoRepeats, CommitReleases, AbortReleases, TargetOk, Buried;
    var now := RunBatch(st, c, ts, plan, n);
    BatchRuns(st, c, ts, plan, n);
    if NoRepeats(st, ts, n) {
      ReachedReleases(now, c);
    } else {
      var l :| Buried(st, now, c, ts, l);
      BuriedLeaks(st, now, c, ts, plan, n, l);
    }
  }

  // ----- Everything else -----

  /** Slot `l` is none of the first `n` tuples. */
  predicate NotAmong(ts: seq<Target>, n: nat, l: Loc)
    requires n <= |ts|
  {
    forall i | 0 <= i < n :: ts[i].loc != l
  }

  lemma StepLeaves(st: Store, now: Store, c: nat, ts: seq<Target>, plan: Plan, n: nat, l: Loc)
    requires BatchStarts(st, c, ts) && n < |ts| && Loop(st, now, c, ts, plan, n) && Success(now, c, ts[n])
    requires l in st.mem.slots && l != ts[n].loc
    ensures var next := WriteOnce(now, c, ts[n], plan);
            l in now.mem.slots && l in next.mem.slots && next.mem.slots[l] == now.mem.slots[l]
  {
    hide BatchStarts, WriteOnce, Success, TargetOk, CommitReleases, Shows;
    StartsOnSlots(st, c, ts, n);
    if Pending(st.mem.slots[ts[n].loc].v) {
      OwnIsWritable(st, now, c, ts, plan, n);
      RewritesOwn(now, c, ts[n], plan);
    } else {
      FrontIsNew(st, now, c, ts, plan, n);
      LinksTuple(now, c, ts[n], plan);
    }
  }

  /** A slot that was there at the start and is not written keeps its version and its links. */
  lemma {:induction false} OthersStay(st: Store, c: nat, ts: seq<Target>, plan: Plan, n: nat, l: Loc)
    requires BatchStarts(st, c, ts) && n <= |ts| && AllWritten(st, c, ts, plan, n)
    requires l in st.mem.slots && NotAmong(ts, n, l)
    ensures var now := RunBatch(st, c, ts, plan, n); l in now.mem.slots && now.mem.slots[l] == st.mem.slots[l]
  {
    hide BatchStarts, WriteOnce, Success, Loop, NoRepeats, Reached;
    if n > 0 {
      OthersStay(st, c, ts, plan, n - 1, l);
      BatchRuns(st, c, ts, plan, n - 1);
      StepLeaves(st, RunBatch(st, c, ts, plan, n - 1), c, ts, plan, n - 1, l);
    }
  }

  // ----- The loop -----

  lemma TargetIsWritable(st: Store, now: Store, c: nat, ts: seq<Target>, plan: Plan, n: nat)
    requires BatchStarts(st, c, ts) && n < |ts| && Loop(st, now, c, ts, plan, n)
    ensures ts[n].loc in now.mem.slots
    ensures Writable(now, c, ts[n].loc, ChangeFor(plan, now.mem.slots[ts[n].loc].v.value))
    ensures ts[n].new'.Some? ==> ts[n].new'.value !in now.mem.slots
  {
    hide Reached;
    var x := ts[n].loc;
    assert TargetOk(st, now, c, ts, plan, n, x);
    if !Pending(st.mem.slots[x].v) {
      FrontAtStart(st, c, x);
    }
  }

  /** What the transaction sees of a tuple of the batch: a version of its own holds the value projected
      as often as the tuple occurs, or is marked deleted, and a committed version lies under a new one
      with the projected value, or a deleted one. */
  predicate Done(st: Store, now: Store, c: nat, ts: seq<Target>, plan: Plan, x: Loc) {
    && x in st.mem.slots && x in now.mem.slots
    && var v, sl := st.mem.slots[x].v, now.mem.slots[x];
       if Pending(v) then
         Shows(sl.v, c, if plan.UpdatePlan? then SetTo(Iterate(plan.project, v.value, Times(ts, |ts|, x))) else Remove)
       else
         && sl.prev.Some? && sl.prev.value in now.mem.slots
         && Shows(now.mem.slots[sl.prev.value].v, c, ChangeFor(plan, v.value))
  }

  lemma AllDone(st: Store, now: Store, c: nat, ts: seq<Target>, plan: Plan, i: nat)
    requires BatchStarts(st, c, ts) && i < |ts| && Loop(st, now, c, ts, plan, |ts|)
    ensures Done(st, now, c, ts, plan, ts[i].loc)
  {
    hide Reached;
    var x := ts[i].loc;
    assert TargetOk(st, now, c, ts, plan, |ts|, x);
    TimesZero(ts, |ts|, x);
    if Pending(st.mem.slots[x].v) {
      PendingIsRecorded(st, c, x);
    }
  }

  /** Write every tuple of the batch, stopping at the first that cannot be written. On success the
      transaction sees exactly the requested changes. Its commit and abort release every lock it
      holds if and only if no committed version was written twice; and then the manager is valid. */
  method Execute(mgr: TransactionManager, txn: Transaction, ts: seq<Target>, plan: Plan)
    returns (ok: bool, ghost n: nat)
    requires mgr.Valid() && mgr.Serves(txn) && mgr.Idle(txn) && Batch(mgr.store, txn.id, ts)
    modifies mgr, txn
    ensures mgr.InStep() && mgr.Idle(txn)
    ensures mgr.Serves(txn)
    ensures n <= |ts| && (ok <==> n == |ts|) && mgr.store == RunBatch(old(mgr.store), txn.id, ts, plan, n)
    ensures !ok ==> !Success(mgr.store, txn.id, ts[n])
    ensures ok ==> forall i | 0 <= i < |ts| :: Done(old(mgr.store), mgr.store, txn.id, ts, plan, ts[i].loc)
    ensures forall l | l in old(mgr.slots) && NotAmong(ts, n, l) :: l in mgr.slots && mgr.slots[l] == old(mgr.slots)[l]
    ensures forall i | 0 <= i < |ts| :: ts[i].loc in old(mgr.slots)
    ensures CommitReleases(mgr.store, txn.id) <==> NoRepeats(old(mgr.store), ts, n)
    ensures AbortReleases(mgr.store, txn.id) <==> NoRepeats(old(mgr.store), ts, n)
    ensures NoRepeats(old(mgr.store), ts, n) ==> mgr.Valid()
  {
    hide Reached, Batch, Loop, NoRepeats, Written, CommitReleases, AbortReleases, Done, Flat, Inserted, HasWrite,
         NotAmong;
    ghost var st := mgr.store;
    n, ok := 0, true;
    for k := 0 to |ts|
      invariant mgr.InStep() && mgr.Idle(txn)
      invariant mgr.Serves(txn)
      invariant ok && n == k && mgr.store == RunBatch(st, txn.id, ts, plan, k) && AllWritten(st, txn.id, ts, plan, k)
    {
      ghost var now := mgr.store;
      BatchRuns(st, txn.id, ts, plan, k);
      TargetIsWritable(st, now, txn.id, ts, plan, k);
      var t := ts[k];
      var change := ChangeFor(plan, mgr.slots[t.loc].v.value);
      ok := WriteTuple(mgr, txn, t.loc, t.new', change);
      if !ok {
        FailedWrite(now, txn.id, t.loc, t.new', change);
        break;
      }
      n := k + 1;
    }
    BatchRuns(st, txn.id, ts, plan, n);
    RepeatsLeak(st, txn.id, ts, plan, n);
    forall l | l in st.mem.slots && NotAmong(ts, n, l)
      ensures l in mgr.store.mem.slots && mgr.store.mem.slots[l] == st.mem.slots[l]
    {
      OthersStay(st, txn.id, ts, plan, n, l);
    }
    forall i | ok && 0 <= i < |ts| ensures Done(st, mgr.store, txn.id, ts, plan, ts[i].loc) {
      AllDone(st, mgr.store, txn.id, ts, plan, i);
    }
  }
}
