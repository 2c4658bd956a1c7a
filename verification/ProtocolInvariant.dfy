/** Every step of every transaction keeps the protocol invariant. */
module ProtocolInvariant {
  import opened Types
  import opened VersionChain
  import opened ChainActions
  import opened Replay
  import opened Protocol

  /** How an operation relates what its transaction saw of the chain before and after it. */
  predicate Fits(op: Op, before: Option<Value>, after: Option<Value>) {
    match op
    case ReadOp(_, v) => before == after == Some(v)
    case GoneOp(_) => before == after == None
    case InsertOp(_, v) => before == None && after == Some(v)
    case UpdateOp(_, v) => before.Some? && after == Some(v)
    case DeleteOp(_) => before.Some? && after == None
  }

  predicate AllFit(ops: Log, before: Option<Value>, after: Option<Value>) {
    if |ops| == 0 then before == after else |ops| == 1 && Fits(ops[0], before, after)
  }

  // ----- Views -----

  lemma ViewSame(a: map<Key, Chain>, b: map<Key, Chain>, ts: nat, ts': nat)
    requires forall k: Key :: Look(a, k, ts) == Look(b, k, ts')
    ensures View(a, ts) == View(b, ts')
  {
    assert forall k: Key :: k in View(a, ts) <==> Look(a, k, ts).Some?;
    assert forall k: Key :: k in View(b, ts') <==> Look(b, k, ts').Some?;
  }

  lemma OwnViewSame(a: map<Key, Chain>, b: map<Key, Chain>, c: nat)
    requires forall k: Key :: LookOwn(a, k, c) == LookOwn(b, k, c)
    ensures OwnView(a, c) == OwnView(b, c)
  {
    assert forall k: Key :: k in OwnView(a, c) <==> LookOwn(a, k, c).Some?;
    assert forall k: Key :: k in OwnView(b, c) <==> LookOwn(b, k, c).Some?;
  }

  /** Chain `key` of `s` becomes `ch'` by an action of `c` that installs nothing. */
  ghost predicate QuietAt(s: State, c: nat, key: Key, ch': Chain) {
    && IsActive(s, c)
    && if key in s.chains then Quiet(s.chains[key], ch', c)
       else exists v :: ch' == Install([], c, MAX_CID, v)
  }

  lemma QuietLook(s: State, c: nat, key: Key, ch': Chain, ts: nat)
    requires QuietAt(s, c, key, ch') && ts <= MAX_CID
    ensures View(s.chains[key := ch'], ts) == View(s.chains, ts)
  {
    var chains' := s.chains[key := ch'];
    if key !in s.chains {
      var v :| ch' == Install([], c, MAX_CID, v);
      ValueAtAppend([], ch'[0], ts);
    }
    ViewSame(chains', s.chains, ts, ts);
  }

  lemma QuietLookOwn(s: State, c: nat, key: Key, ch': Chain, d: nat)
    requires QuietAt(s, c, key, ch') && IsIssued(d) && d != c
    ensures OwnView(s.chains[key := ch'], d) == OwnView(s.chains, d)
  {
    var chains' := s.chains[key := ch'];
    if key !in s.chains {
      var v :| ch' == Install([], c, MAX_CID, v);
      ValueAtAppend([], ch'[0], d);
    }
    OwnViewSame(chains', s.chains, d);
  }

  // ----- One step on one chain -----

  lemma OthersOk(s: State, c: nat, key: Key, ch': Chain, ops: Log, d: nat)
    requires QuietAt(s, c, key, ch') && d in s.txns && d != c && TxnOk(s, d)
    ensures TxnOk(Record(s, c, key, ch', ops), d)
  {
    var s' := Record(s, c, key, ch', ops);
    assert s'.txns[d] == s.txns[d];
    QuietLook(s, c, key, ch', d);
    QuietLook(s, c, key, ch', d + 1);
    QuietLookOwn(s, c, key, ch', d);
  }

  lemma ActorViews(s: State, c: nat, key: Key, ch': Chain, ops: Log)
    requires AllFit(ops, LookOwn(s.chains, key, c), OwnValue(ch', c))
    requires forall i | 0 <= i < |ops| :: ops[i].key == key
    ensures |ops| == 0 ==> OwnView(s.chains[key := ch'], c) == OwnView(s.chains, c)
    ensures |ops| == 1 ==> Perform(OwnView(s.chains, c), ops[0]) == Some(OwnView(s.chains[key := ch'], c))
  {
    var a, b := s.chains, s.chains[key := ch'];
    assert forall k: Key :: k in OwnView(a, c) <==> LookOwn(a, k, c).Some?;
    assert forall k: Key :: k in OwnView(b, c) <==> LookOwn(b, k, c).Some?;
    assert forall k: Key | k != key :: LookOwn(a, k, c) == LookOwn(b, k, c);
    if |ops| == 1 {
      assert Perform(OwnView(a, c), ops[0]).Some?;
      assert Perform(OwnView(a, c), ops[0]).value == OwnView(b, c);
    }
  }

  lemma ActorOk(s: State, c: nat, key: Key, ch': Chain, ops: Log)
    requires QuietAt(s, c, key, ch') && TxnOk(s, c)
    requires forall i | 0 <= i < |ops| :: ops[i].key == key
    requires AllFit(ops, LookOwn(s.chains, key, c), OwnValue(ch', c))
    requires |ops| > 0 ==> Stable(ch', c)
    ensures TxnOk(Record(s, c, key, ch', ops), c)
  {
    var log := s.txns[c].log;
    QuietLook(s, c, key, ch', c);
    ActorViews(s, c, key, ch', ops);
    if |ops| == 0 {
      assert log + ops == log;
    } else {
      assert ops == [ops[0]];
      KeysAppend(log, ops[0]);
      ReplayAppend(View(s.chains, c), log, ops[0]);
    }
  }

  lemma KeysGrow(log: Log, ops: Log)
    ensures Keys(log) <= Keys(log + ops)
    ensures forall i | 0 <= i < |ops| :: ops[i].key in Keys(log + ops)
  {
    forall i | 0 <= i < |log| ensures log[i].key in Keys(log + ops) {
      assert (log + ops)[i] == log[i];
    }
    forall i | 0 <= i < |ops| ensures ops[i].key in Keys(log + ops) {
      assert (log + ops)[|log| + i] == ops[i];
    }
  }

  /** The other chains keep their owners, installers and readers. */
  lemma OtherChainOk(s: State, c: nat, key: Key, ch': Chain, ops: Log, k: Key)
    requires IsActive(s, c) && k in s.chains && k != key && ChainOk(s, k)
    ensures ChainOk(Record(s, c, key, ch', ops), k)
  {
    KeysGrow(s.txns[c].log, ops);
  }

  lemma ActorChainOk(s: State, c: nat, key: Key, ch': Chain, ops: Log)
    requires QuietAt(s, c, key, ch') && IsIssued(c) && (key in s.chains ==> ChainOk(s, key))
    requires key in Keys(s.txns[c].log + ops)
    ensures ChainOk(Record(s, c, key, ch', ops), key)
  {
    KeysGrow(s.txns[c].log, ops);
  }

  lemma RecordKeepsInv(s: State, c: nat, key: Key, ch': Chain, ops: Log)
    requires Inv(s) && QuietAt(s, c, key, ch')
    requires forall i | 0 <= i < |ops| :: ops[i].key == key
    requires AllFit(ops, LookOwn(s.chains, key, c), OwnValue(ch', c))
    requires |ops| > 0 ==> Stable(ch', c)
    requires key in Keys(s.txns[c].log + ops)
    ensures Inv(Record(s, c, key, ch', ops))
  {
    var s' := Record(s, c, key, ch', ops);
    forall k | k in s'.chains ensures ChainOk(s', k) {
      assert TxnOk(s, c);
      if k == key {
        assert key in s.chains ==> ChainOk(s, key);
        ActorChainOk(s, c, key, ch', ops);
      } else {
        assert ChainOk(s, k);
        OtherChainOk(s, c, key, ch', ops, k);
      }
    }
    forall d | d in s'.txns ensures TxnOk(s', d) {
      assert TxnOk(s, d);
      if d == c {
        ActorOk(s, c, key, ch', ops);
      } else {
        OthersOk(s, c, key, ch', ops, d);
      }
    }
  }

  // ----- The steps -----

  /** What a step needs to know about the chain it works on. */
  ghost predicate StepFits(ch: Chain, step: Step)
    requires OnChain(ch, step)
  {
    var ch' := NewChain(ch, step);
    && Quiet(ch, ch', step.c)
    && AllFit(NewOps(ch, step), OwnValue(ch, step.c), OwnValue(ch', step.c))
    && (step.c in Owners(ch) || Stable(ch', step.c) || |NewOps(ch, step)| == 0)
  }

  ghost predicate Ready(ch: Chain, step: Step) {
    WellFormed(ch) && OnChain(ch, step) && IsIssued(step.c) && step.c !in Begins(ch)
  }

  lemma SameQuiet(ch: Chain, c: nat)
    requires WellFormed(ch)
    ensures Quiet(ch, ch, c)
  {
  }

  lemma OwnReadFits(ch: Chain, c: nat, i: nat)
    requires WellFormed(ch) && i < |ch| && IsIssued(c) && ch[i].txn == c && Sees(ch, i, c).OK?
    ensures OwnValue(ch, c) == Some(ch[i].value) && c in Owners(ch)
  {
    OlderVersions(ch);
    assert i == |ch| - 1;
    if !Pending(ch[i]) {
      ValueAtInterval(ch, i, c);
    }
  }

  /** A transaction that is writing a chain sees no older version of it. */
  lemma ReaderNotWriting(ch: Chain, i: nat, c: nat)
    requires WellFormed(ch) && i < |ch| && IsIssued(c)
    requires ch[i].txn == INITIAL_TXN_ID && ch[i].begin < c < ch[i].end
    ensures !PendingOf(ch, c)
  {
    if PendingOf(ch, c) {
      var n := |ch| - 2;
      assert Superseded(ch[n], ch[n + 1]);
      if i < n {
        BeginsIncrease(ch, i, n);
      }
      assert false;
    }
  }

  lemma ReadFits(ch: Chain, step: Step)
    requires Ready(ch, step) && step.Read?
    ensures StepFits(ch, step)
  {
    var c, i := step.c, step.i;
    if ch[i].txn == c {
      OwnReadFits(ch, c, i);
      SameQuiet(ch, c);
    } else {
      assert !Pending(ch[i]) && ch[i].begin in Begins(ch);
      MarkReadQuiet(ch, i, c);
      ReaderNotWriting(ch, i, c);
      ReaderNotWriting(MarkRead(ch, i, c), i, c);
    }
  }

  lemma SeesGone(ch: Chain, c: nat, i: nat)
    requires WellFormed(ch) && i < |ch| && IsIssued(c) && c !in Begins(ch) && Sees(ch, i, c).DELETED?
    ensures OwnValue(ch, c) == None && (c in Owners(ch) || Stable(ch, c))
  {
    OlderVersions(ch);
    assert i == |ch| - 1;
    if ch[i].txn != c {
      assert ch[i].begin in Begins(ch);
      assert Shields(ch[i], c);
      ValueAtInterval(ch, i, c);
    }
  }

  lemma ReadGoneFits(ch: Chain, step: Step)
    requires Ready(ch, step) && step.ReadGone?
    ensures StepFits(ch, step)
  {
    SameQuiet(ch, step.c);
    SeesGone(ch, step.c, step.i);
  }

  lemma ReadForUpdateFits(ch: Chain, step: Step)
    requires Ready(ch, step) && step.ReadForUpdate?
    ensures StepFits(ch, step)
  {
    var c, i := step.c, step.i;
    assert ch[i].begin in Begins(ch);
    EndIsNewest(ch, i);
    ClaimQuiet(ch, i, c);
    ValueAtInterval(Claim(ch, i, c), i, c);
  }

  /** An unowned version without an end stamp is the newest one. */
  lemma EndIsNewest(ch: Chain, i: nat)
    requires WellFormed(ch) && i < |ch| && ch[i].txn == INITIAL_TXN_ID && ch[i].end == MAX_CID
    ensures i == |ch| - 1
  {
    OlderVersions(ch);
  }

  lemma AcquireFits(ch: Chain, step: Step)
    requires Ready(ch, step) && step.Acquire?
    ensures StepFits(ch, step)
  {
    var c, i := step.c, step.i;
    StampedIsNewest(ch, i, c);
    ClaimQuiet(ch, i, c);
    ValueAtInterval(Claim(ch, i, c), i, c);
  }

  lemma OwnStepFits(ch: Chain, step: Step)
    requires Ready(ch, step)
    requires step.Yield? || step.Update? || step.Delete? || step.UpdateOwn? || step.DeleteOwn?
    ensures StepFits(ch, step)
  {
    var c := step.c;
    assert Last(ch).txn in Owners(ch);
    if !Pending(Last(ch)) {
      ValueAtInterval(ch, |ch| - 1, c);
    }
    match step
    case Yield(_, _) =>
      ReleaseQuiet(ch, c);
      ValueAtInterval(Release(ch), |ch| - 1, c);
    case Update(_, _, v) => InstallQuiet(ch, c, MAX_CID, v);
    case Delete(_, _) => InstallQuiet(ch, c, INVALID_CID, Last(ch).value);
    case UpdateOwn(_, _, v) => RewriteQuiet(ch, c, MAX_CID, v);
    case DeleteOwn(_, _) => RewriteQuiet(ch, c, INVALID_CID, Last(ch).value);
  }

  lemma AnyStepFits(ch: Chain, step: Step)
    requires Ready(ch, step)
    ensures StepFits(ch, step)
  {
    match step
    case Read(_, _, _) => ReadFits(ch, step);
    case ReadGone(_, _, _) => ReadGoneFits(ch, step);
    case ReadForUpdate(_, _, _) => ReadForUpdateFits(ch, step);
    case Acquire(_, _, _) => AcquireFits(ch, step);
    case _ => OwnStepFits(ch, step);
  }

  lemma ChainStepKeepsInv(s: State, step: Step)
    requires Inv(s) && Enabled(s, step)
    requires !step.Begin? && !step.Insert? && !step.Commit? && !step.Abort?
    ensures Inv(Next(s, step))
  {
    var c, k := step.c, step.key;
    var ch := s.chains[k];
    assert TxnOk(s, c) && ChainOk(s, k);
    AnyStepFits(ch, step);
    var ops := NewOps(ch, step);
    KeysGrow(s.txns[c].log, ops);
    AcquireIsRead(s, step);
    RecordKeepsInv(s, c, k, NewChain(ch, step), ops);
  }

  /** Whoever takes a lock has read the chain before, so its log mentions the chain. */
  lemma AcquireIsRead(s: State, step: Step)
    requires Inv(s) && Enabled(s, step)
    requires !step.Begin? && !step.Insert? && !step.Commit? && !step.Abort?
    ensures |NewOps(s.chains[step.key], step)| == 0 ==> step.key in Keys(s.txns[step.c].log)
  {
    var c, ch := step.c, s.chains[step.key];
    assert ChainOk(s, step.key) && TxnOk(s, c);
    if step.Acquire? {
      assert ch[step.i].reader in Stamps(ch);
    } else if step.Yield? {
      assert Last(ch).txn in Owners(ch);
    }
  }

  lemma InsertKeepsInv(s: State, c: nat, k: Key, v: Value)
    requires Inv(s) && Enabled(s, Insert(c, k, v))
    ensures Inv(Next(s, Insert(c, k, v)))
  {
    var ch' := Install([], c, MAX_CID, v);
    var ops := [InsertOp(k, v)];
    assert TxnOk(s, c);
    KeysGrow(s.txns[c].log, ops);
    assert InsertedBy(ch'[0], c);
    RecordKeepsInv(s, c, k, ch', ops);
  }
}
