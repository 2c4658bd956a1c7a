/** The epoch protocol as a state machine over all threads, and why expired epochs are safe. */
module EpochSafety {
  import opened LocalEpochs

  /** Timestamps are an epoch id in the upper half and a 32-bit sequence number below it. */
  const EPOCH_UNIT: nat := 0x1_0000_0000

  function Stamp(epoch: nat, seqno: nat): nat {
    epoch * EPOCH_UNIT + seqno % EPOCH_UNIT
  }

  function EpochOf(cid: nat): nat {
    cid / EPOCH_UNIT
  }

  /** Two entries get the same timestamp exactly when they fall into one epoch and their
      counters agree modulo 2^32. */
  lemma StampsAgree(e: nat, m: nat, f: nat, n: nat)
    ensures Stamp(e, m) == Stamp(f, n) <==> e == f && m % EPOCH_UNIT == n % EPOCH_UNIT
    ensures EpochOf(Stamp(e, m)) == e
  {
    StampParts(e, m);
    StampParts(f, n);
  }

  lemma StampParts(e: nat, n: nat)
    ensures Stamp(e, n) / EPOCH_UNIT == e && Stamp(e, n) % EPOCH_UNIT == n % EPOCH_UNIT
  {
  }

  /** A smaller epoch gives a smaller timestamp. */
  lemma EpochsOrderStamps(a: nat, b: nat)
    ensures EpochOf(a) < EpochOf(b) ==> a < b
    ensures EpochOf(a) * EPOCH_UNIT <= a
  {
  }

  // ----- The machine -----

  /** `active` are the epochs of each thread's unfinished transactions. `expired` is the largest
      expired epoch reported so far, zero before the first report. */
  datatype Epochs = Epochs(
    current: nat, next: nat, snapshot: nat, locals: map<nat, Local>,
    active: map<nat, multiset<nat>>, expired: nat)

  datatype EpochStep =
    | Advance
    | EnterRead(thread: nat, epoch: nat)
    | EnterSnapshot(thread: nat)
    | Leave(thread: nat, epoch: nat)
    | Collect(expired: nat)

  function Start(threads: set<nat>): Epochs {
    Epochs(1, 0, 1, map t | t in threads :: Unused, map t | t in threads :: multiset{}, 0)
  }

  /** What the local epochs hold once each has been asked for its expired epoch. */
  function Expired(s: Epochs): map<nat, Local> {
    map t | t in s.locals :: Expire(s.locals[t], s.current)
  }

  /** `r` is the minimum of all bounds. */
  predicate IsLeast(locals: map<nat, Local>, r: nat) {
    && (forall t | t in locals :: r <= locals[t].bound)
    && (exists t :: t in locals && locals[t].bound == r)
  }

  /** Entering to read may use any epoch id that was current at some time: the manager fetches
      it first and enters later. */
  predicate Allowed(s: Epochs, step: EpochStep) {
    match step
    case Advance => s.current + 1 < EPOCH_UNIT
    case EnterRead(t, e) =>
      && t in s.locals && t in s.active && 0 < e <= s.current
      && !Refuses(s.locals[t], e, Reading)
    case EnterSnapshot(t) => t in s.locals && t in s.active
    case Leave(t, e) => t in s.locals && t in s.active && s.active[t][e] > 0
    case Collect(r) => IsLeast(Expired(s), r)
  }

  function Joined(s: Epochs, t: nat, e: nat, purpose: Purpose): Epochs
    requires t in s.locals && t in s.active
  {
    s.(locals := s.locals[t := Enter(s.locals[t], e, purpose)],
       active := s.active[t := s.active[t] + multiset{e}])
  }

  function EpochNext(s: Epochs, step: EpochStep): Epochs {
    if !Allowed(s, step) then s
    else match step
      case Advance => s.(current := s.current + 1)
      case EnterRead(t, e) => Joined(s, t, e, Reading).(next := s.next + 1)
      case EnterSnapshot(t) => Joined(s, t, s.snapshot, Snapshot)
      case Leave(t, e) =>
        s.(locals := s.locals[t := Exit(s.locals[t], e)], active := s.active[t := s.active[t] - multiset{e}])
      case Collect(r) => Collected(s, r)
  }

  /** GetExpiredEpochId: the snapshot epoch stays above what has been reported. */
  function Collected(s: Epochs, r: nat): Epochs {
    s.(locals := Expired(s), snapshot := if r >= s.snapshot then r + 1 else s.snapshot, expired := r)
  }

  function EpochRun(s: Epochs, steps: seq<EpochStep>): Epochs {
    if |steps| == 0 then s else EpochNext(EpochRun(s, steps[..|steps| - 1]), steps[|steps| - 1])
  }

  // ----- The invariant -----

  ghost predicate ThreadOk(l: Local, active: multiset<nat>, current: nat, expired: nat) {
    && LocalOk(l, active) && Settled(l)
    && (forall e | e in active :: e <= current)
    && (if l.bound == MAX_EID then l.queue == [] && expired == 0 else expired <= l.bound < current)
  }

  ghost predicate EpochInv(s: Epochs) {
    && 0 < s.current < EPOCH_UNIT && s.snapshot == s.expired + 1 <= s.current
    && s.locals.Keys == s.active.Keys
    && (forall t | t in s.locals :: ThreadOk(s.locals[t], s.active[t], s.current, s.expired))
  }

  lemma EnterThreadOk(l: Local, active: multiset<nat>, current: nat, expired: nat, e: nat, purpose: Purpose)
    requires ThreadOk(l, active, current, expired) && expired < e <= current < EPOCH_UNIT && !purpose.Committing?
    requires !Refuses(l, e, purpose)
    ensures ThreadOk(Enter(l, e, purpose), active + multiset{e}, current, expired)
  {
    EnterKeeps(l, e, purpose, active);
    EnterSettles(l, e, purpose, active);
  }

  lemma LeaveThreadOk(l: Local, active: multiset<nat>, current: nat, expired: nat, e: nat)
    requires ThreadOk(l, active, current, expired) && active[e] > 0 && current < EPOCH_UNIT
    ensures ThreadOk(Exit(l, e), active - multiset{e}, current, expired)
  {
    assert e in active && e in l.queue;
    ExitKeeps(l, e, active);
    ExitBound(l, e, active, current);
  }

  lemma ExitBound(l: Local, e: nat, active: multiset<nat>, current: nat)
    requires LocalOk(l, active) && active[e] > 0 && l.bound < current && forall x | x in active :: x <= current
    ensures Exit(l, e).bound < current
  {
    var less := l.(counts := l.counts[e := l.counts[e] - 1]);
    Recount(l, e, l.counts[e] - 1, active);
    assert active[e := active[e] - 1] == active - multiset{e};
    PruneKeeps(less, active - multiset{e});
    if Prune(less).queue != [] {
      assert Prune(less).queue[0] in active - multiset{e};
    }
  }

  /** The new bound, which the report does not exceed, is below every unfinished epoch. */
  lemma CollectThreadOk(l: Local, active: multiset<nat>, current: nat, expired: nat, r: nat)
    requires ThreadOk(l, active, current, expired) && expired < current < EPOCH_UNIT && r <= Expire(l, current).bound
    ensures expired <= Expire(l, current).bound < current
    ensures ThreadOk(Expire(l, current), active, current, r)
  {
    ExpireKeeps(l, current, active);
    ExpireIsExact(l, current, active);
  }

  /** Whoever may enter an epoch finds it above every reported one. */
  lemma EnteredIsAbove(s: Epochs, t: nat, e: nat)
    requires EpochInv(s) && Allowed(s, EnterRead(t, e))
    ensures s.expired < e
  {
    assert ThreadOk(s.locals[t], s.active[t], s.current, s.expired);
  }

  /** An unfinished transaction's epoch is above every reported one. */
  lemma ActiveIsAbove(s: Epochs, t: nat, e: nat)
    requires EpochInv(s) && t in s.active && e in s.active[t]
    ensures s.expired < e <= s.current
  {
    assert ThreadOk(s.locals[t], s.active[t], s.current, s.expired);
    assert e in s.locals[t].counts && e in s.locals[t].queue;
  }

  lemma ThreadInv(s: Epochs, t: nat, l: Local, active: multiset<nat>)
    requires EpochInv(s) && t in s.locals && ThreadOk(l, active, s.current, s.expired)
    ensures EpochInv(s.(locals := s.locals[t := l], active := s.active[t := active]))
  {
    hide ThreadOk;
  }

  lemma JoinKeeps(s: Epochs, t: nat, e: nat, purpose: Purpose)
    requires EpochInv(s) && t in s.locals && s.expired < e <= s.current && !purpose.Committing?
    requires !Refuses(s.locals[t], e, purpose)
    ensures EpochInv(Joined(s, t, e, purpose))
  {
    assert ThreadOk(s.locals[t], s.active[t], s.current, s.expired);
    EnterThreadOk(s.locals[t], s.active[t], s.current, s.expired, e, purpose);
    ThreadInv(s, t, Enter(s.locals[t], e, purpose), s.active[t] + multiset{e});
  }

  lemma LeaveKeeps(s: Epochs, t: nat, e: nat)
    requires EpochInv(s) && Allowed(s, Leave(t, e))
    ensures EpochInv(EpochNext(s, Leave(t, e)))
  {
    assert ThreadOk(s.locals[t], s.active[t], s.current, s.expired);
    LeaveThreadOk(s.locals[t], s.active[t], s.current, s.expired, e);
    ThreadInv(s, t, Exit(s.locals[t], e), s.active[t] - multiset{e});
  }

  lemma CollectThread(s: Epochs, r: nat, t: nat)
    requires EpochInv(s) && t in s.locals && r <= Expired(s)[t].bound
    ensures ThreadOk(Expired(s)[t], s.active[t], s.current, r) && s.expired <= Expired(s)[t].bound < s.current
  {
    assert ThreadOk(s.locals[t], s.active[t], s.current, s.expired);
    CollectThreadOk(s.locals[t], s.active[t], s.current, s.expired, r);
  }

  lemma CollectKeeps(s: Epochs, r: nat)
    requires EpochInv(s) && IsLeast(Expired(s), r)
    ensures EpochInv(Collected(s, r)) && s.expired <= r
  {
    hide ThreadOk;
    var u :| u in Expired(s) && Expired(s)[u].bound == r;
    CollectThread(s, r, u);
    forall t | t in s.locals ensures ThreadOk(Expired(s)[t], s.active[t], s.current, r) {
      CollectThread(s, r, t);
    }
    RebuildInv(s, Collected(s, r), r);
  }

  lemma RebuildInv(s: Epochs, s': Epochs, r: nat)
    requires 0 < s.current < EPOCH_UNIT && s.locals.Keys == s.active.Keys && s.snapshot == s.expired + 1
    requires s.expired <= r < s.current
    requires s'.locals.Keys == s.locals.Keys && s'.active == s.active && s'.current == s.current
    requires s'.expired == r && s'.snapshot == if r >= s.snapshot then r + 1 else s.snapshot
    requires forall t | t in s.locals :: ThreadOk(s'.locals[t], s.active[t], s.current, r)
    ensures EpochInv(s')
  {
  }

  lemma NextKeepsEpochs(s: Epochs, step: EpochStep)
    requires EpochInv(s)
    ensures EpochInv(EpochNext(s, step)) && s.expired <= EpochNext(s, step).expired
  {
    if Allowed(s, step) {
      match step
      case Advance => AdvanceKeeps(s);
      case EnterRead(t, e) =>
        EnteredIsAbove(s, t, e);
        JoinKeeps(s, t, e, Reading);
        CountedKeeps(Joined(s, t, e, Reading), s.next + 1);
      case EnterSnapshot(t) => JoinKeeps(s, t, s.snapshot, Snapshot);
      case Leave(t, e) => LeaveKeeps(s, t, e);
      case Collect(r) => CollectKeeps(s, r);
    }
  }

  lemma AdvanceKeeps(s: Epochs)
    requires EpochInv(s) && s.current + 1 < EPOCH_UNIT
    ensures EpochInv(s.(current := s.current + 1))
  {
    forall t | t in s.locals ensures ThreadOk(s.locals[t], s.active[t], s.current + 1, s.expired) {
      assert ThreadOk(s.locals[t], s.active[t], s.current, s.expired);
    }
  }

  lemma CountedKeeps(s: Epochs, n: nat)
    requires EpochInv(s)
    ensures EpochInv(s.(next := n))
  {
  }

  lemma {:induction false} RunKeepsEpochs(s: Epochs, steps: seq<EpochStep>)
    requires EpochInv(s)
    ensures EpochInv(EpochRun(s, steps)) && s.expired <= EpochRun(s, steps).expired
  {
    if |steps| > 0 {
      var n := |steps| - 1;
      RunKeepsEpochs(s, steps[..n]);
      NextKeepsEpochs(EpochRun(s, steps[..n]), steps[n]);
    }
  }

  lemma StartOk(threads: set<nat>)
    ensures EpochInv(Start(threads))
  {
  }

  /** Nothing unfinished and nothing that may still begin is at or below `bound`. */
  ghost predicate AllAbove(s: Epochs, bound: nat) {
    && bound < s.snapshot
    && (forall t, e | t in s.active && e in s.active[t] :: bound < e)
    && (forall t, e | Allowed(s, EnterRead(t, e)) :: bound < e)
  }

  lemma InvAllAbove(s: Epochs, bound: nat)
    requires EpochInv(s) && bound <= s.expired
    ensures AllAbove(s, bound)
  {
    forall t, e | Allowed(s, EnterRead(t, e)) ensures bound < e {
      EnteredIsAbove(s, t, e);
    }
    forall t, e | t in s.active && e in s.active[t] ensures bound < e {
      ActiveIsAbove(s, t, e);
    }
  }

  /** EPOCH SAFETY. After any run of any threads, every expired epoch reported so far lies below
      every epoch with an unfinished transaction, no later entry, to read or to take a snapshot,
      joins an epoch at or below it, and later reports are no smaller. */
  lemma ExpiredIsFinished(threads: set<nat>, steps: seq<EpochStep>, more: seq<EpochStep>)
    ensures var s := EpochRun(Start(threads), steps);
            s.expired <= EpochRun(s, more).expired && AllAbove(EpochRun(s, more), s.expired)
  {
    hide EpochInv, EpochRun, AllAbove;
    var s := EpochRun(Start(threads), steps);
    StartOk(threads);
    RunKeepsEpochs(Start(threads), steps);
    RunKeepsEpochs(s, more);
    InvAllAbove(EpochRun(s, more), s.expired);
  }

  // ----- What is reported -----

  /** The epochs of all unfinished transactions. */
  ghost function Unfinished(s: Epochs): set<nat> {
    set t, e | t in s.active && e in s.active[t] :: e
  }

  /** `r` is just below the least unfinished epoch of all threads, or below the current epoch when
      nothing is unfinished. */
  ghost predicate ExactReport(s: Epochs, r: nat) {
    if Unfinished(s) == {} then r + 1 == s.current
    else r + 1 in Unfinished(s) && forall e | e in Unfinished(s) :: r + 1 <= e
  }

  lemma ThreadReport(s: Epochs, t: nat)
    requires EpochInv(s) && t in s.locals
    ensures t in s.active && JustBelow(Expired(s)[t].bound, s.active[t], s.current)
    ensures forall e | e in s.active[t] :: e in Unfinished(s) && e <= s.current
  {
    assert ThreadOk(s.locals[t], s.active[t], s.current, s.expired);
    ExpireIsExact(s.locals[t], s.current, s.active[t]);
  }

  lemma LeastIsExact(s: Epochs, r: nat)
    requires EpochInv(s) && IsLeast(Expired(s), r)
    ensures ExactReport(s, r)
  {
    hide EpochInv, Expire;
    var u :| u in Expired(s) && Expired(s)[u].bound == r;
    ThreadReport(s, u);
    forall e | e in Unfinished(s) ensures r + 1 <= e {
      var t :| t in s.active && e in s.active[t];
      InvThreads(s);
      ThreadReport(s, t);
      assert r <= Expired(s)[t].bound;
    }
    if s.active[u] == multiset{} && Unfinished(s) != {} {
      IdleReport(s, r);
    }
  }

  lemma InvThreads(s: Epochs)
    requires EpochInv(s)
    ensures s.locals.Keys == s.active.Keys
  {
  }

  /** When the least report comes from an idle thread, all unfinished epochs are the current one. */
  lemma IdleReport(s: Epochs, r: nat)
    requires EpochInv(s) && r + 1 == s.current && Unfinished(s) != {} && forall e | e in Unfinished(s) :: r + 1 <= e
    ensures r + 1 in Unfinished(s)
  {
    hide EpochInv;
    var e :| e in Unfinished(s);
    var t :| t in s.active && e in s.active[t];
    InvThreads(s);
    ThreadReport(s, t);
  }

  /** THE REPORT IS EXACT. In every reachable state of any set of threads, what GetExpiredEpochId
      may report is one number, and the unfinished transactions and the current epoch fix it: the
      least unfinished epoch less one, or the current epoch less one when nothing is unfinished.
      The next snapshot epoch is the one above it. */
  lemma ReportIsExact(threads: set<nat>, steps: seq<EpochStep>, r: nat)
    ensures var s := EpochRun(Start(threads), steps);
            && (Allowed(s, Collect(r)) <==> threads != {} && ExactReport(s, r))
            && (Allowed(s, Collect(r)) ==> EpochNext(s, Collect(r)).snapshot == r + 1)
  {
    hide EpochInv, EpochRun, ExactReport, Expired;
    var s := EpochRun(Start(threads), steps);
    StartOk(threads);
    RunKeepsEpochs(Start(threads), steps);
    RunKeepsThreads(Start(threads), steps);
    OnlyReport(s, r);
  }

  lemma OnlyReport(s: Epochs, r: nat)
    requires EpochInv(s)
    ensures IsLeast(Expired(s), r) <==> s.locals.Keys != {} && ExactReport(s, r)
    ensures IsLeast(Expired(s), r) ==> Collected(s, r).snapshot == r + 1
  {
    hide EpochInv;
    if IsLeast(Expired(s), r) {
      LeastIsExact(s, r);
      CollectKeeps(s, r);
      InvSnapshot(Collected(s, r));
    }
    if s.locals.Keys != {} {
      assert Expired(s).Keys == s.locals.Keys;
      var least := LeastExists(Expired(s));
      LeastIsExact(s, least);
    }
  }

  lemma InvSnapshot(s: Epochs)
    requires EpochInv(s)
    ensures s.snapshot == s.expired + 1
  {
  }

  lemma {:induction false} RunKeepsThreads(s: Epochs, steps: seq<EpochStep>)
    ensures EpochRun(s, steps).locals.Keys == s.locals.Keys
  {
    if |steps| > 0 {
      RunKeepsThreads(s, steps[..|steps| - 1]);
    }
  }

  // ----- Commit ids -----

  /** Step `i` of the run enters an epoch to read. */
  ghost predicate EntersAt(s: Epochs, steps: seq<EpochStep>, i: nat) {
    i < |steps| && steps[i].EnterRead? && Allowed(EpochRun(s, steps[..i]), steps[i])
  }

  /** The commit id that step `i` hands out. */
  ghost function IdAt(s: Epochs, steps: seq<EpochStep>, i: nat): nat
    requires EntersAt(s, steps, i)
  {
    Stamp(steps[i].epoch, EpochRun(s, steps[..i]).next)
  }

  lemma {:induction false} NumbersGrow(s: Epochs, steps: seq<EpochStep>, i: nat, j: nat)
    requires i <= j <= |steps|
    ensures EpochRun(s, steps[..i]).next <= EpochRun(s, steps[..j]).next
    decreases j
  {
    if i < j {
      NumbersGrow(s, steps, i, j - 1);
      assert steps[..j][..j - 1] == steps[..j - 1];
    }
  }

  /** COMMIT IDS ARE UNIQUE. In any run of any threads, two entries get the same id only if they
      join the same epoch and 2^32 entries or more lie between them. */
  lemma IdsAreUnique(s: Epochs, steps: seq<EpochStep>, i: nat, j: nat)
    requires i < j && EntersAt(s, steps, i) && EntersAt(s, steps, j)
    ensures IdAt(s, steps, i) == IdAt(s, steps, j) ==>
              && steps[i].epoch == steps[j].epoch
              && EpochRun(s, steps[..i]).next + EPOCH_UNIT <= EpochRun(s, steps[..j]).next
  {
    var a, b := EpochRun(s, steps[..i]).next, EpochRun(s, steps[..j]).next;
    assert steps[..i + 1][..i] == steps[..i];
    NumbersGrow(s, steps, i + 1, j);
    StampsAgree(steps[i].epoch, a, steps[j].epoch, b);
    if a % EPOCH_UNIT == b % EPOCH_UNIT {
      Apart(a, b);
    }
  }

  lemma Apart(a: nat, b: nat)
    requires a < b && a % EPOCH_UNIT == b % EPOCH_UNIT
    ensures a + EPOCH_UNIT <= b
  {
  }

  /** The report is never empty: with a thread registered there is a least bound, and it is an
      ordinary epoch id. */
  lemma {:induction false} LeastExists(locals: map<nat, Local>) returns (r: nat)
    requires |locals| > 0
    ensures IsLeast(locals, r)
    decreases |locals|
  {
    var t :| t in locals;
    var rest := locals - {t};
    r := locals[t].bound;
    if |rest| > 0 {
      var least := LeastExists(rest);
      var u :| u in rest && rest[u].bound == least;
      assert forall x | x in locals && x != t :: x in rest && rest[x] == locals[x];
      if least < r {
        r := least;
        assert locals[u].bound == r;
      }
    } else {
      assert forall x | x in locals && x != t :: x in rest;
    }
  }
}
