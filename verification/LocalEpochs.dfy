/** Per-thread epoch bookkeeping: which epochs still have transactions, and the bound below
    which every epoch is finished. */
module LocalEpochs {

  /** The bound of a thread that was never used; also the answer when there are no threads. */
  const MAX_EID: nat := 0xFFFF_FFFF_FFFF_FFFF

  datatype Purpose = Reading | Snapshot | Committing

  /** `queue` is the content of the min-heap in the order it would be popped, `counts` the
      number of transactions in each queued epoch. */
  datatype Local = Local(bound: nat, queue: seq<nat>, counts: map<nat, nat>)

  const Unused := Local(MAX_EID, [], map[])

  predicate Sorted(queue: seq<nat>) {
    forall i, j | 0 <= i < j < |queue| :: queue[i] < queue[j]
  }

  function Push(queue: seq<nat>, e: nat): seq<nat> {
    if |queue| == 0 || queue[|queue| - 1] < e then queue + [e]
    else Push(queue[..|queue| - 1], e) + [queue[|queue| - 1]]
  }

  // ----- The three operations, as functions of the local state -----

  /** Only a snapshot reader may enter an epoch at or below the bound. */
  predicate Refuses(l: Local, e: nat, purpose: Purpose) {
    l.bound != MAX_EID && l.bound >= e && !purpose.Snapshot?
  }

  function Enter(l: Local, e: nat, purpose: Purpose): Local {
    if Refuses(l, e, purpose) then l
    else
      var bound := if (l.bound == MAX_EID || l.bound >= e) && e > 0 then e - 1 else l.bound;
      if purpose.Committing? then l.(bound := bound)
      else if e in l.counts then Local(bound, l.queue, l.counts[e := l.counts[e] + 1])
      else Local(bound, Push(l.queue, e), l.counts[e := 1])
  }

  /** Pop finished epochs; the first unfinished one fixes the bound. */
  function Prune(l: Local): Local
    decreases |l.queue|
  {
    if |l.queue| == 0 then l
    else if l.queue[0] in l.counts && l.counts[l.queue[0]] == 0 then
      Prune(Local(l.bound, l.queue[1..], l.counts - {l.queue[0]}))
    else if l.queue[0] > 0 then l.(bound := l.queue[0] - 1)
    else l
  }

  function Exit(l: Local, e: nat): Local {
    if e in l.counts && l.counts[e] > 0 then Prune(l.(counts := l.counts[e := l.counts[e] - 1])) else l
  }

  function Expire(l: Local, current: nat): Local {
    if |l.queue| == 0 && current > 0 then l.(bound := current - 1) else Prune(l)
  }

  // ----- What they keep -----

  /** The queue is the heap order of the counted epochs, all above the bound, and the counts
      are those of the transactions in `active`. */
  ghost predicate LocalOk(l: Local, active: multiset<nat>) {
    && Sorted(l.queue)
    && (forall e :: e in l.queue <==> e in l.counts)
    && (forall e | e in l.queue :: 0 < e && l.bound < e)
    && (forall e | e in l.counts :: l.counts[e] == active[e])
    && (forall e | e in active :: e in l.counts)
  }

  /** Between two operations the first queued epoch has a transaction. */
  predicate Settled(l: Local) {
    |l.queue| > 0 ==> l.queue[0] in l.counts && l.counts[l.queue[0]] > 0
  }

  lemma {:induction false} PushMembers(queue: seq<nat>, e: nat, x: nat)
    ensures x in Push(queue, e) <==> x in queue || x == e
  {
    if |queue| > 0 && queue[|queue| - 1] >= e {
      var n := |queue| - 1;
      PushMembers(queue[..n], e, x);
      assert queue == queue[..n] + [queue[n]];
    }
  }

  lemma {:induction false} PushSorted(queue: seq<nat>, e: nat)
    requires Sorted(queue) && e !in queue
    ensures Sorted(Push(queue, e))
  {
    if |queue| > 0 && queue[|queue| - 1] >= e {
      var n := |queue| - 1;
      PushSorted(queue[..n], e);
      var pushed := Push(queue[..n], e);
      assert queue[n] in queue;
      forall i | 0 <= i < |pushed| ensures pushed[i] < queue[n] {
        PushMembers(queue[..n], e, pushed[i]);
        assert pushed[i] in pushed;
      }
    }
  }

  lemma PushKeeps(l: Local, e: nat, bound: nat, active: multiset<nat>)
    requires LocalOk(l, active) && e !in l.counts && bound < e && bound <= l.bound
    ensures LocalOk(Local(bound, Push(l.queue, e), l.counts[e := 1]), active + multiset{e})
  {
    hide Push, Sorted;
    PushSorted(l.queue, e);
    forall x ensures x in Push(l.queue, e) <==> x in l.queue || x == e {
      PushMembers(l.queue, e, x);
    }
    assert forall x :: x in l.queue <==> x in l.counts;
    assert e !in active;
  }

  lemma EnterKeeps(l: Local, e: nat, purpose: Purpose, active: multiset<nat>)
    requires LocalOk(l, active) && 0 < e <= MAX_EID && !Refuses(l, e, purpose) && (l.bound == MAX_EID ==> l.queue == [])
    ensures LocalOk(Enter(l, e, purpose), if purpose.Committing? then active else active + multiset{e})
    ensures Enter(l, e, purpose).bound == if l.bound < e then l.bound else e - 1
  {
    var bound := if l.bound < e then l.bound else e - 1;
    if e in l.counts {
      Recount(l, e, l.counts[e] + 1, active);
    } else {
      PushKeeps(l, e, bound, active);
    }
  }

  /** A pushed epoch comes first, or the epoch that was first stays first. */
  lemma PushFirst(queue: seq<nat>, e: nat)
    requires Sorted(queue) && e !in queue
    ensures |Push(queue, e)| > 0 && (Push(queue, e)[0] == e || (|queue| > 0 && Push(queue, e)[0] == queue[0]))
  {
    var pushed := Push(queue, e);
    PushSorted(queue, e);
    PushMembers(queue, e, e);
    assert pushed[0] in pushed;
    PushMembers(queue, e, pushed[0]);
    if |queue| > 0 {
      assert queue[0] in queue;
      PushMembers(queue, e, queue[0]);
    }
  }

  lemma EnterSettles(l: Local, e: nat, purpose: Purpose, active: multiset<nat>)
    requires LocalOk(l, active) && Settled(l)
    ensures Settled(Enter(l, e, purpose))
  {
    if e !in l.counts {
      PushFirst(l.queue, e);
    }
  }

  lemma Recount(l: Local, e: nat, n: nat, active: multiset<nat>)
    requires LocalOk(l, active) && e in l.counts
    ensures LocalOk(l.(counts := l.counts[e := n]), active[e := n])
  {
  }

  lemma TailOf(queue: seq<nat>)
    requires Sorted(queue) && |queue| > 0
    ensures Sorted(queue[1..])
    ensures forall e :: e in queue[1..] <==> e in queue && e != queue[0]
  {
    var tail := queue[1..];
    assert queue == [queue[0]] + tail;
    forall i | 0 <= i < |tail| ensures tail[i] > queue[0] {
      assert tail[i] == queue[i + 1];
    }
  }

  lemma DropTop(l: Local, active: multiset<nat>)
    requires LocalOk(l, active) && |l.queue| > 0 && l.queue[0] in l.counts && l.counts[l.queue[0]] == 0
    ensures LocalOk(Local(l.bound, l.queue[1..], l.counts - {l.queue[0]}), active)
  {
    TailOf(l.queue);
  }

  /** Pruning drops only finished epochs and never lowers the bound. */
  lemma {:induction false} PruneKeeps(l: Local, active: multiset<nat>)
    requires LocalOk(l, active)
    ensures LocalOk(Prune(l), active) && l.bound <= Prune(l).bound
    ensures Prune(l).queue != [] ==> Prune(l).bound + 1 == Prune(l).queue[0] && active[Prune(l).queue[0]] > 0
    ensures Prune(l).queue == [] ==> Prune(l).bound == l.bound && active == multiset{}
    ensures Settled(Prune(l))
    decreases |l.queue|
  {
    if |l.queue| == 0 {
      assert forall e :: e !in active;
      assert active == multiset{};
    } else {
      var top := l.queue[0];
      assert top in l.queue;
      if l.counts[top] == 0 {
        DropTop(l, active);
        PruneKeeps(Local(l.bound, l.queue[1..], l.counts - {top}), active);
      }
    }
  }

  lemma ExitKeeps(l: Local, e: nat, active: multiset<nat>)
    requires LocalOk(l, active) && active[e] > 0
    ensures LocalOk(Exit(l, e), active - multiset{e}) && l.bound <= Exit(l, e).bound && Settled(Exit(l, e))
  {
    assert e in active;
    PruneKeeps(l.(counts := l.counts[e := l.counts[e] - 1]), active - multiset{e});
  }

  /** `r` is just below the first of the unfinished epochs, or below `current` if there is none. */
  ghost predicate JustBelow(r: nat, active: multiset<nat>, current: nat) {
    if active == multiset{} then r + 1 == current else r + 1 in active && forall e | e in active :: r + 1 <= e
  }

  /** WHAT ONE THREAD REPORTS, from its unfinished transactions and the current epoch alone. */
  lemma ExpireIsExact(l: Local, current: nat, active: multiset<nat>)
    requires LocalOk(l, active) && Settled(l) && 0 < current
    ensures JustBelow(Expire(l, current).bound, active, current) && Settled(Expire(l, current))
  {
    PruneKeeps(l, active);
    if |l.queue| == 0 {
      assert forall e :: e !in active;
      assert active == multiset{};
    } else {
      var p := Prune(l);
      assert l.queue[0] in active;
      forall e | e in active ensures p.queue[0] <= e {
        assert e in p.queue;
      }
    }
  }

  /** The reported bound lies below the current epoch and below every unfinished one. */
  lemma ExpireKeeps(l: Local, current: nat, active: multiset<nat>)
    requires LocalOk(l, active) && 0 < current && (l.queue != [] ==> l.bound < current)
    requires forall e | e in active :: e <= current
    ensures LocalOk(Expire(l, current), active) && Expire(l, current).bound < current
    ensures forall e | e in active :: Expire(l, current).bound < e
    ensures l.bound < current ==> l.bound <= Expire(l, current).bound
  {
    if |l.queue| == 0 {
      assert forall e :: e !in active;
    } else {
      PruneKeeps(l, active);
      var p := Prune(l);
      if p.queue != [] {
        assert p.queue[0] in p.queue && p.queue[0] in active;
      }
    }
  }
}
