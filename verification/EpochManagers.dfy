/** The epoch manager and its per-thread epochs as objects: every method is exactly its step. */
module EpochManagers {
  import opened LocalEpochs
  import opened EpochSafety

  class LocalEpoch {
    var bound: nat
    var queue: seq<nat>
    var counts: map<nat, nat>

    ghost function State(): Local
      reads this
    {
      Local(bound, queue, counts)
    }

    constructor ()
      ensures State() == Unused
    {
      bound, queue, counts := MAX_EID, [], map[];
    }

    method EnterEpoch(epoch: nat, purpose: Purpose) returns (ok: bool)
      requires 0 < epoch
      modifies this
      ensures ok == !Refuses(old(State()), epoch, purpose) && State() == Enter(old(State()), epoch, purpose)
    {
      if bound == MAX_EID {
        bound := epoch - 1;
      } else if bound >= epoch {
        if purpose.Snapshot? {
          bound := epoch - 1;
        } else {
          return false;
        }
      }
      if !purpose.Committing? {
        if epoch !in counts {
          queue := Push(queue, epoch);
          counts := counts[epoch := 1];
        } else {
          counts := counts[epoch := counts[epoch] + 1];
        }
      }
      return true;
    }

    /** Pop epochs without transactions; the first other one fixes the bound. */
    method PopFinished(ghost active: multiset<nat>)
      requires LocalOk(State(), active)
      modifies this
      ensures State() == Prune(old(State()))
    {
      while |queue| != 0
        invariant LocalOk(State(), active) && Prune(State()) == Prune(old(State()))
        decreases |queue|
      {
        var top := queue[0];
        assert top in queue && top in counts && top > bound;
        if counts[top] == 0 {
          DropTop(State(), active);
          hide LocalOk;
          counts := counts - {top};
          queue := queue[1..];
        } else {
          bound := top - 1;
          break;
        }
      }
    }

    method ExitEpoch(epoch: nat, ghost active: multiset<nat>)
      requires LocalOk(State(), active) && active[epoch] > 0
      modifies this
      ensures State() == Exit(old(State()), epoch)
    {
      assert epoch in active;
      Recount(State(), epoch, counts[epoch] - 1, active);
      counts := counts[epoch := counts[epoch] - 1];
      PopFinished(active[epoch := active[epoch] - 1]);
    }

    method GetExpiredEpochId(current: nat, ghost active: multiset<nat>) returns (r: nat)
      requires LocalOk(State(), active) && 0 < current
      modifies this
      ensures State() == Expire(old(State()), current) && r == State().bound
      ensures old(Settled(State())) ==> JustBelow(r, active, current)
    {
      if Settled(State()) {
        ExpireIsExact(State(), current, active);
      }
      if |queue| == 0 {
        bound := current - 1;
      } else {
        PopFinished(active);
      }
      return bound;
    }
  }

  class DecentralizedEpochManager {
    var locals: map<nat, LocalEpoch>
    var current: nat
    var next: nat
    var snapshot: nat
    /** The unfinished transactions and the reports so far, which the manager does not store. */
    ghost var active: map<nat, multiset<nat>>
    ghost var expired: nat

    ghost function State(): Epochs
      reads this, locals.Values
    {
      Epochs(current, next, snapshot, map t | t in locals :: locals[t].State(), active, expired)
    }

    ghost predicate Valid()
      reads this, locals.Values
    {
      && EpochInv(State())
      && Distinct()
    }

    constructor (threads: set<nat>)
      ensures Valid() && State() == Start(threads) && forall t | t in locals :: fresh(locals[t])
    {
      current, next, snapshot := 1, 0, 1;
      active, expired := map t | t in threads :: multiset{}, 0;
      locals := map[];
      new;
      var rest := threads;
      while rest != {}
        invariant rest <= threads && locals.Keys == threads - rest && forall t | t in locals :: fresh(locals[t])
        invariant current == 1 && next == 0 && snapshot == 1 && expired == 0
        invariant active == map t | t in threads :: multiset{}
        invariant forall t | t in locals :: locals[t].State() == Unused
        invariant forall t, u | t in locals && u in locals && t != u :: locals[t] != locals[u]
      {
        var t :| t in rest;
        var local := new LocalEpoch();
        locals := locals[t := local];
        rest := rest - {t};
      }
      assert State() == Start(threads);
      StartOk(threads);
    }

    method AdvanceEpoch()
      requires Valid() && current + 1 < EPOCH_UNIT
      modifies this`current
      ensures Valid() && State() == EpochNext(old(State()), Advance)
    {
      hide EpochInv;
      ghost var s := State();
      NextKeepsEpochs(s, Advance);
      current := current + 1;
      assert State() == EpochNext(s, Advance);
    }

    ghost predicate Distinct()
      reads this`locals
    {
      forall t, u | t in locals && u in locals && t != u :: locals[t] != locals[u]
    }

    /** Only the thread's own local epoch changes. */
    method EnterLocal(thread: nat, epoch: nat, purpose: Purpose) returns (ok: bool)
      requires thread in locals && 0 < epoch && Distinct()
      modifies locals[thread]
      ensures ok == !Refuses(old(State()).locals[thread], epoch, purpose)
      ensures State() ==
              old(State()).(locals := old(State()).locals[thread := Enter(old(State()).locals[thread], epoch, purpose)])
    {
      ok := locals[thread].EnterEpoch(epoch, purpose);
    }

    /** One attempt to enter `epoch`, which was current when it was fetched. */
    method TryEnter(thread: nat, epoch: nat) returns (ok: bool)
      requires Valid() && thread in locals && 0 < epoch <= current
      modifies this`next, this`active, locals[thread]
      ensures Valid() && ok == Allowed(old(State()), EnterRead(thread, epoch))
      ensures State() == EpochNext(old(State()), EnterRead(thread, epoch))
    {
      hide EpochInv, Enter, Distinct;
      ghost var s := State();
      InvFacts(s, thread);
      NextKeepsEpochs(s, EnterRead(thread, epoch));
      RefusedStays(s.locals[thread], epoch, Reading);
      ok := EnterLocal(thread, epoch, Reading);
      if ok {
        TakeNumber(thread, epoch);
        assert State() == Joined(s, thread, epoch, Reading).(next := s.next + 1);
      } else {
        assert State() == s;
      }
    }

    /** The entered transaction takes the next sequence number. */
    method TakeNumber(thread: nat, epoch: nat)
      requires thread in active
      modifies this`next, this`active
      ensures State() ==
              old(State()).(next := old(next) + 1,
                            active := old(active)[thread := old(active)[thread] + multiset{epoch}])
    {
      next := next + 1;
      active := active[thread := active[thread] + multiset{epoch}];
    }

    /** Enter an epoch to read. The loop fetches the shared epoch counter and tries to enter;
        `fetched` are the values it would see, of which all but the last may be out of date. */
    method EnterEpoch(thread: nat, fetched: seq<nat>) returns (cid: nat)
      requires Valid() && thread in locals
      requires |fetched| > 0 && fetched[|fetched| - 1] == current && forall e | e in fetched :: 0 < e <= current
      modifies this`next, this`active, locals[thread]
      ensures Valid() && State() == EpochNext(old(State()), EnterRead(thread, EpochOf(cid)))
      ensures Allowed(old(State()), EnterRead(thread, EpochOf(cid))) && cid == Stamp(EpochOf(cid), old(next))
      ensures exists i :: 0 <= i < |fetched| && fetched[i] == EpochOf(cid)
                          && forall j | 0 <= j < i :: !Allowed(old(State()), EnterRead(thread, fetched[j]))
    {
      hide EpochInv, Allowed, EpochNext;
      ghost var s := State();
      NotRefused(s, thread);
      var i := 0;
      while true
        invariant i < |fetched| && State() == s && Valid()
        invariant forall j | 0 <= j < i :: !Allowed(s, EnterRead(thread, fetched[j]))
        decreases |fetched| - i
      {
        var epoch, seqno := fetched[i], next;
        assert epoch in fetched;
        DisallowedStays(s, EnterRead(thread, epoch));
        var ok := TryEnter(thread, epoch);
        if ok {
          StampsAgree(epoch, seqno, epoch, seqno);
          return Stamp(epoch, seqno);
        }
        i := i + 1;
      }
    }

    /** A snapshot reader enters the snapshot epoch and reads at its start. */
    method EnterSnapshotEpoch(thread: nat) returns (cid: nat)
      requires Valid() && thread in locals
      modifies this`active, locals[thread]
      ensures Valid() && State() == EpochNext(old(State()), EnterSnapshot(thread))
      ensures cid == Stamp(old(snapshot), 0)
    {
      hide EpochInv, Enter, Distinct;
      ghost var s := State();
      InvFacts(s, thread);
      NextKeepsEpochs(s, EnterSnapshot(thread));
      var ok := EnterLocal(thread, snapshot, Snapshot);
      active := active[thread := active[thread] + multiset{snapshot}];
      assert State() == EpochNext(s, EnterSnapshot(thread));
      return snapshot * EPOCH_UNIT;
    }

    method ExitEpoch(thread: nat, epoch: nat)
      requires Valid() && thread in locals && thread in active && active[thread][epoch] > 0
      modifies this`active, locals[thread]
      ensures Valid() && State() == EpochNext(old(State()), Leave(thread, epoch))
    {
      hide EpochInv, LocalOk, Exit;
      ghost var s := State();
      InvFacts(s, thread);
      NextKeepsEpochs(s, Leave(thread, epoch));
      locals[thread].ExitEpoch(epoch, active[thread]);
      active := active[thread := active[thread] - multiset{epoch}];
      assert State() == EpochNext(s, Leave(thread, epoch));
    }

    /** Ask every local epoch, in any order, and report the least bound. Without threads the
        report is MAX_EID and nothing changes. */
    method GetExpiredEpochId() returns (r: nat)
      requires Valid()
      modifies this`snapshot, this`expired, locals.Values
      ensures Valid()
      ensures locals == map[] ==> r == MAX_EID && State() == old(State())
      ensures locals != map[] ==> Allowed(old(State()), Collect(r)) && State() == EpochNext(old(State()), Collect(r))
      ensures locals != map[] ==> ExactReport(old(State()), r) && snapshot == r + 1
    {
      hide EpochInv, Expired, IsLeast, Distinct, ExactReport, Collected, EpochNext, Allowed;
      ghost var s := State();
      ExpiredKeys(s);
      r := AskAll(s, Expired(s));
      if locals.Keys != {} {
        CollectStep(s, r);
        if r != MAX_EID && r >= snapshot {
          snapshot := r + 1;
        }
        expired := r;
        assert State() == s.(locals := Expired(s), snapshot := r + 1, expired := r);
      } else {
        assert State() == s;
      }
    }

    /** The local epochs of the threads in `rest` still have to be asked. */
    ghost predicate Asked(rest: set<nat>, s: Epochs, e: map<nat, Local>)
      reads this, locals.Values
    {
      && locals.Keys == s.locals.Keys == e.Keys
      && forall t | t in locals :: locals[t].State() == if t in rest then s.locals[t] else e[t]
    }

    lemma NoneAsked(s: Epochs, e: map<nat, Local>)
      requires s == State() && e.Keys == s.locals.Keys
      ensures Asked(locals.Keys, s, e)
    {
    }

    lemma AllAsked(s: Epochs, e: map<nat, Local>)
      requires Asked({}, s, e)
      ensures State().locals == e
    {
    }

    method AskOne(t: nat, ghost rest: set<nat>, ghost s: Epochs, ghost e: map<nat, Local>) returns (bound: nat)
      requires EpochInv(s) && e == Expired(s) && t in locals && t in rest && Asked(rest, s, e)
      requires Distinct() && active == s.active && current == s.current
      modifies locals[t]
      ensures Asked(rest - {t}, s, e) && bound == e[t].bound < MAX_EID
    {
      hide EpochInv;
      InvFacts(s, t);
      BoundIsOrdinary(s, t);
      bound := locals[t].GetExpiredEpochId(current, active[t]);
    }

    method AskAll(ghost s: Epochs, ghost e: map<nat, Local>) returns (r: nat)
      requires s == State() && Valid() && e == Expired(s)
      modifies locals.Values
      ensures State().locals == e
      ensures if locals.Keys == {} then r == MAX_EID else IsLeast(e, r)
    {
      hide EpochInv, Expired, Asked;
      ExpiredKeys(s);
      NoneAsked(s, e);
      r := MAX_EID;
      var rest := locals.Keys;
      ghost var least := 0;
      while rest != {}
        invariant rest <= locals.Keys
        invariant Asked(rest, s, e)
        invariant forall t | t in e && t !in rest :: r <= e[t].bound
        invariant if rest == locals.Keys then r == MAX_EID else least in locals && least !in rest && e[least].bound == r
      {
        var t :| t in rest;
        var bound := AskOne(t, rest, s, e);
        if bound < r {
          r, least := bound, t;
        }
        rest := rest - {t};
      }
      AllAsked(s, e);
    }
  }

  lemma ExpiredKeys(s: Epochs)
    ensures Expired(s).Keys == s.locals.Keys
  {
  }

  lemma BoundIsOrdinary(s: Epochs, t: nat)
    requires EpochInv(s) && t in s.locals
    ensures Expired(s)[t].bound < MAX_EID
  {
    assert ThreadOk(s.locals[t], s.active[t], s.current, s.expired);
    CollectThreadOk(s.locals[t], s.active[t], s.current, s.expired, 0);
  }

  lemma CollectStep(s: Epochs, r: nat)
    requires EpochInv(s) && IsLeast(Expired(s), r)
    ensures r < MAX_EID && r + 1 >= s.snapshot && ExactReport(s, r) && Allowed(s, Collect(r))
    ensures EpochNext(s, Collect(r)) == s.(locals := Expired(s), snapshot := r + 1, expired := r)
    ensures EpochInv(EpochNext(s, Collect(r)))
  {
    hide EpochInv, Expired, IsLeast, ExactReport;
    NextKeepsEpochs(s, Collect(r));
    ReportIsOrdinary(s, r);
    OnlyReport(s, r);
  }

  lemma ReportIsOrdinary(s: Epochs, r: nat)
    requires EpochInv(s) && IsLeast(Expired(s), r)
    ensures r < MAX_EID
  {
    var t :| t in Expired(s) && Expired(s)[t].bound == r;
    BoundIsOrdinary(s, t);
  }

  lemma InvFacts(s: Epochs, t: nat)
    requires EpochInv(s) && t in s.locals
    ensures 0 < s.current < EPOCH_UNIT && 0 < s.snapshot && t in s.active && LocalOk(s.locals[t], s.active[t])
  {
    assert ThreadOk(s.locals[t], s.active[t], s.current, s.expired);
  }

  lemma RefusedStays(l: Local, e: nat, purpose: Purpose)
    ensures Refuses(l, e, purpose) ==> Enter(l, e, purpose) == l
  {
  }

  lemma DisallowedStays(s: Epochs, step: EpochStep)
    ensures !Allowed(s, step) ==> EpochNext(s, step) == s
  {
  }

  lemma NotRefused(s: Epochs, t: nat)
    requires EpochInv(s) && t in s.locals
    ensures Allowed(s, EnterRead(t, s.current))
  {
    assert ThreadOk(s.locals[t], s.active[t], s.current, s.expired);
  }
}
