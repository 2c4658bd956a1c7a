/** The header-by-header machine refines the machine whose commits and aborts are atomic. */
module FineSimulation {
  import opened Types
  import opened VersionChain
  import opened Replay
  import opened Protocol
  import opened ProtocolCommit
  import opened FineGrained

  // ----- A header write -----

  /** Two transactions never cover the same version. */
  lemma StageApart(raw: Chain, done: Chain, c: nat, e: Entry, d: nat, g: Entry, raw': Chain)
    requires Stage(raw, done, c, e) && Stage(raw, done, d, g) && c != d
    requires |raw'| == |raw| && forall i | 0 <= i < |raw| :: raw'[i] == raw[i] || raw[i].txn == c
    ensures Stage(raw', done, d, g)
  {
  }

  /** A write that unlinks nothing moves its entry to the next stage, or finishes its versions. */
  lemma HeaderStage(raw: Chain, done: Chain, c: nat, e: Entry)
    requires Stage(raw, done, c, e) && !(Unlinking(e) && e.pc == 3)
    ensures InRange(raw, e) && |AfterWrite(raw, c, e)| == |raw|
    ensures forall i | 0 <= i < |raw| :: AfterWrite(raw, c, e)[i] == raw[i] || (raw[i].txn == c && Covers(e, i))
    ensures e.pc + 1 < Total(e) ==> Stage(AfterWrite(raw, c, e), done, c, e.(pc := e.pc + 1))
    ensures forall i | 0 <= i < |done| && Covers(e, i) && !Covers(e.(pc := e.pc + 1), i) ::
              AfterWrite(raw, c, e)[i] == done[i]
    ensures e.pc + 1 < Total(e) ==> forall i | 0 <= i < |done| && Covers(e.(pc := e.pc + 1), i) ::
                                      AfterWrite(raw, c, e)[i].txn == c
    ensures e.pc + 1 == Total(e) ==> forall i | 0 <= i < |done| && Covers(e, i) :: AfterWrite(raw, c, e)[i] == done[i]
  {
  }

  lemma HeaderTracks(raw: Chain, done: Chain, todo: map<nat, Entry>, c: nat)
    requires Tracks(raw, done, todo) && c in todo && !(Unlinking(todo[c]) && todo[c].pc == 3)
    ensures InRange(raw, todo[c]) && Tracks(AfterWrite(raw, c, todo[c]), done, Advance(todo, c))
  {
    var e := todo[c];
    HeaderStage(raw, done, c, e);
    var raw', todo' := AfterWrite(raw, c, e), Advance(todo, c);
    forall d | d in todo' ensures Stage(raw', done, d, todo'[d]) {
      if d != c {
        StageApart(raw, done, c, e, d, todo[d], raw');
      }
    }
    if |raw| != |done| {
      var d :| d in todo && Unlinking(todo[d]);
      assert d in todo' && Unlinking(todo'[d]);
    }
    forall i | 0 <= i < |done|
      ensures raw'[i] == done[i] || (raw'[i].txn in todo' && Covers(todo'[raw'[i].txn], i))
    {
      assert raw[i] == done[i] || (raw[i].txn in todo && Covers(todo[raw[i].txn], i));
      assert Covers(e, i) ==> raw[i].txn == c;
    }
  }

  /** Unlinking removes the one version that the finished chain does not have. */
  lemma UnlinkTracks(raw: Chain, done: Chain, todo: map<nat, Entry>, c: nat)
    requires Tracks(raw, done, todo) && c in todo && Unlinking(todo[c]) && todo[c].pc == 3
    ensures InRange(raw, todo[c]) && Tracks(AfterWrite(raw, c, todo[c]), done, Advance(todo, c))
  {
    var e := todo[c];
    assert Stage(raw, done, c, e);
    var raw', todo' := AfterWrite(raw, c, e), Advance(todo, c);
    forall d | d in todo' ensures Stage(raw', done, d, todo'[d]) {
      assert Stage(raw, done, d, todo[d]);
    }
  }

  lemma WriteTracks(raw: Chain, done: Chain, todo: map<nat, Entry>, c: nat)
    requires Tracks(raw, done, todo) && c in todo
    ensures InRange(raw, todo[c]) && Tracks(AfterWrite(raw, c, todo[c]), done, Advance(todo, c))
  {
    if Unlinking(todo[c]) && todo[c].pc == 3 {
      UnlinkTracks(raw, done, todo, c);
    } else {
      HeaderTracks(raw, done, todo, c);
    }
  }

  // ----- The decision to commit or abort -----

  /** An undecided transaction holds the same newest version in both chains. */
  lemma SameNewest(raw: Chain, done: Chain, todo: map<nat, Entry>, c: nat)
    requires Tracks(raw, done, todo) && IsIssued(c) && c !in todo
    ensures Last(raw).txn == c <==> Last(done).txn == c
    ensures Last(raw).txn == c ==> |raw| == |done| && Last(raw) == Last(done)
  {
    var n := |done| - 1;
    assert raw[n] == done[n] || raw[n].txn in todo;
    if |raw| != |done| {
      var d :| d in todo && Unlinking(todo[d]);
      assert Stage(raw, done, d, todo[d]);
    } else if raw[n] != done[n] {
      assert Stage(raw, done, raw[n].txn, todo[raw[n].txn]);
    }
  }

  lemma SamePlan(raw: Chain, done: Chain, todo: map<nat, Entry>, c: nat)
    requires Tracks(raw, done, todo) && WellFormed(done) && IsIssued(c) && c !in todo
    ensures Last(raw).txn == c <==> Last(done).txn == c
    ensures Last(raw).txn == c ==> |raw| == |done| && Last(raw) == Last(done)
    ensures PendingOf(raw, c) && |raw| >= 2 ==>
              raw[|raw| - 2] == done[|raw| - 2] && Superseded(done[|raw| - 2], Last(done))
  {
    SameNewest(raw, done, todo, c);
    if PendingOf(raw, c) && |raw| >= 2 {
      var n := |done| - 2;
      assert Superseded(done[n], done[n + 1]);
      assert raw[n] == done[n] || (raw[n].txn in todo && Stage(raw, done, raw[n].txn, todo[raw[n].txn]));
    }
  }

  lemma CommitTracks(raw: Chain, done: Chain, todo: map<nat, Entry>, c: nat)
    requires Tracks(raw, done, todo) && WellFormed(done) && IsIssued(c) && c !in todo
    ensures Tracks(raw, CommitChain(done, c), Enlist(todo, c, Plan(raw, c, true)))
  {
    SamePlan(raw, done, todo, c);
    var done', todo' := CommitChain(done, c), Enlist(todo, c, Plan(raw, c, true));
    if Last(raw).txn == c {
      assert Stage(raw, done', c, todo'[c]);
      forall d | d in todo ensures Stage(raw, done', d, todo[d]) {
        assert Stage(raw, done, d, todo[d]);
      }
      forall i | 0 <= i < |done'|
        ensures raw[i] == done'[i] || (raw[i].txn in todo' && Covers(todo'[raw[i].txn], i))
      {
        assert raw[i] == done[i] || (raw[i].txn in todo && Covers(todo[raw[i].txn], i));
      }
    }
  }

  lemma AbortTracks(raw: Chain, done: Chain, todo: map<nat, Entry>, c: nat)
    requires Tracks(raw, done, todo) && WellFormed(done) && IsIssued(c) && c !in todo
    ensures Tracks(raw, AbortChain(done, c), Enlist(todo, c, Plan(raw, c, false)))
  {
    SamePlan(raw, done, todo, c);
    var done', todo' := AbortChain(done, c), Enlist(todo, c, Plan(raw, c, false));
    if Last(raw).txn == c {
      assert Stage(raw, done', c, todo'[c]);
      forall d | d in todo ensures Stage(raw, done', d, todo[d]) {
        assert Stage(raw, done, d, todo[d]);
      }
      forall i | 0 <= i < |done'|
        ensures raw[i] == done'[i] || (raw[i].txn in todo' && Covers(todo'[raw[i].txn], i))
      {
        assert raw[i] == done[i] || (raw[i].txn in todo && Covers(todo[raw[i].txn], i));
      }
      assert |raw| != |done'| ==> Unlinking(todo'[c]);
    }
  }

  // ----- A protocol step between two header writes -----

  /** Only finished versions can be read or locked, so a step that succeeds in memory also
      succeeds on the finished chain. */
  lemma StepIndex(raw: Chain, done: Chain, todo: map<nat, Entry>, step: Step)
    requires Tracks(raw, done, todo) && OnChain(raw, step) && IsIssued(step.c) && step.c !in todo
    requires (forall d | d in todo :: IsIssued(d)) &&
             (step.Read? || step.ReadGone? || step.ReadForUpdate? || step.Acquire?)
    ensures step.i < |done| && raw[step.i] == done[step.i]
    ensures raw[step.i].txn == step.c && step.i == |raw| - 1 ==> |raw| == |done|
  {
    if |raw| != |done| {
      var d :| d in todo && Unlinking(todo[d]);
      assert Stage(raw, done, d, todo[d]);
    }
    var i := step.i;
    assert i < |done|;
    assert raw[i] == done[i];
  }

  lemma ReplaceTracks(raw: Chain, done: Chain, todo: map<nat, Entry>, i: nat, v: Version)
    requires Tracks(raw, done, todo) && i < |done| && raw[i] == done[i] && raw[i].txn !in todo &&
             raw[i].txn != INVALID_TXN_ID
    ensures Tracks(raw[i := v], done[i := v], todo)
  {
    forall d | d in todo ensures Stage(raw[i := v], done[i := v], d, todo[d]) {
      assert Stage(raw, done, d, todo[d]);
    }
  }

  lemma AppendTracks(raw: Chain, done: Chain, todo: map<nat, Entry>, v: Version)
    requires Tracks(raw, done, todo) && |raw| == |done| && Last(raw).txn !in todo
    ensures Tracks(raw + [v], done + [v], todo)
  {
    forall d | d in todo ensures Stage(raw + [v], done + [v], d, todo[d]) {
      assert Stage(raw, done, d, todo[d]);
    }
  }

  ghost predicate StepMatches(raw: Chain, done: Chain, todo: map<nat, Entry>, step: Step)
    requires OnChain(raw, step)
  {
    && OnChain(done, step)
    && NewOps(raw, step) == NewOps(done, step)
    && Tracks(NewChain(raw, step), NewChain(done, step), todo)
  }

  lemma StepTracks(raw: Chain, done: Chain, todo: map<nat, Entry>, step: Step)
    requires Tracks(raw, done, todo) && OnChain(raw, step) && IsIssued(step.c) && step.c !in todo
    requires forall d | d in todo :: IsIssued(d)
    ensures StepMatches(raw, done, todo, step)
  {
    if step.Read? || step.ReadGone? || step.ReadForUpdate? || step.Acquire? {
      StepIndex(raw, done, todo, step);
      IndexTracks(raw, done, todo, step);
    } else {
      SameNewest(raw, done, todo, step.c);
      NewestTracks(raw, done, todo, step);
    }
  }

  lemma IndexTracks(raw: Chain, done: Chain, todo: map<nat, Entry>, step: Step)
    requires Tracks(raw, done, todo) && OnChain(raw, step) && IsIssued(step.c) && step.c !in todo
    requires (forall d | d in todo :: IsIssued(d)) &&
             (step.Read? || step.ReadGone? || step.ReadForUpdate? || step.Acquire?)
    requires step.i < |done| && raw[step.i] == done[step.i]
    requires raw[step.i].txn == step.c && step.i == |raw| - 1 ==> |raw| == |done|
    ensures StepMatches(raw, done, todo, step)
  {
    var i := step.i;
    if !step.ReadGone? && NewChain(raw, step) != raw {
      ReplaceTracks(raw, done, todo, i, NewChain(raw, step)[i]);
      assert NewChain(raw, step) == raw[i := NewChain(raw, step)[i]];
      assert NewChain(done, step) == done[i := NewChain(raw, step)[i]];
    }
  }

  lemma NewestTracks(raw: Chain, done: Chain, todo: map<nat, Entry>, step: Step)
    requires Tracks(raw, done, todo) && OnChain(raw, step) && IsIssued(step.c) && step.c !in todo
    requires step.Yield? || step.Update? || step.Delete? || step.UpdateOwn? || step.DeleteOwn?
    requires |raw| == |done| && Last(raw) == Last(done)
    ensures StepMatches(raw, done, todo, step)
  {
    var n := |raw| - 1;
    if step.Update? || step.Delete? {
      AppendTracks(raw, done, todo, Last(NewChain(raw, step)));
    } else {
      ReplaceTracks(raw, done, todo, n, Last(NewChain(raw, step)));
    }
  }

  // ----- Whole states -----

  /** The atomic step that a fine step stands for, if it stands for one. */
  function Coarse(f: Fine, step: FineStep): seq<Step> {
    if step.Do? && Enabled(f.raw, step.step) then [step.step] else []
  }

  lemma SameTracked(f: Fine, s: State, f': Fine, s': State, k: Key)
    requires TrackedAt(f, s, k) && k in f'.raw.chains && k in s'.chains && k in f'.todo
    requires f'.raw.chains[k] == f.raw.chains[k] && s'.chains[k] == s.chains[k] && f'.todo[k] == f.todo[k]
    ensures TrackedAt(f', s', k)
  {
  }

  lemma WriteRefines(f: Fine, s: State, c: nat, k: Key)
    requires Refines(f, s)
    ensures Refines(FineNext(f, WriteHeader(c, k)), s)
  {
    if CanWrite(f, c, k) {
      var f' := FineNext(f, WriteHeader(c, k));
      forall j | j in s.chains ensures TrackedAt(f', s, j) {
        assert TrackedAt(f, s, j);
        if j == k {
          WriteTracks(f.raw.chains[k], s.chains[k], f.todo[k], c);
        } else {
          SameTracked(f, s, f', s, j);
        }
      }
      forall j | j in f'.todo ensures DecidedAt(f', s, j) {
        assert DecidedAt(f, s, j);
      }
    }
  }

  lemma DecideTracked(f: Fine, s: State, c: nat, commit: bool, k: Key)
    requires TrackedAt(f, s, k) && DecidedAt(f, s, k) && WellFormed(s.chains[k]) && IsIssued(c)
    requires IsActive(s, c) && f.raw.txns == s.txns
    ensures TrackedAt(Decide(f, c, commit), Next(s, Decision(c, commit)), k)
    ensures DecidedAt(Decide(f, c, commit), Next(s, Decision(c, commit)), k)
  {
    hide WellFormed, Tracks;
    if commit {
      CommitTracks(f.raw.chains[k], s.chains[k], f.todo[k], c);
    } else {
      AbortTracks(f.raw.chains[k], s.chains[k], f.todo[k], c);
    }
  }

  function Decision(c: nat, commit: bool): Step {
    if commit then Commit(c) else Abort(c)
  }

  lemma DecideFrame(f: Fine, s: State, c: nat, commit: bool)
    requires f.raw.txns == s.txns && f.raw.chains.Keys == s.chains.Keys == f.todo.Keys && IsActive(s, c)
    ensures Decide(f, c, commit).raw.txns == Next(s, Decision(c, commit)).txns
    ensures Decide(f, c, commit).raw.chains.Keys == Next(s, Decision(c, commit)).chains.Keys
            == Decide(f, c, commit).todo.Keys == s.chains.Keys
  {
  }

  lemma DecideAll(f: Fine, s: State, f': Fine, s': State)
    requires f'.raw.txns == s'.txns && f'.raw.chains.Keys == s'.chains.Keys == f'.todo.Keys == s.chains.Keys
    requires forall k | k in s.chains :: TrackedAt(f', s', k) && DecidedAt(f', s', k)
    ensures Refines(f', s')
  {
  }

  lemma DecideRefines(f: Fine, s: State, c: nat, commit: bool)
    requires Refines(f, s) && AllWellFormed(s.chains) && IsIssued(c) && IsActive(s, c)
    ensures Refines(Decide(f, c, commit), Next(s, Decision(c, commit)))
  {
    DecideFrame(f, s, c, commit);
    forall k | k in s.chains
      ensures TrackedAt(Decide(f, c, commit), Next(s, Decision(c, commit)), k)
      ensures DecidedAt(Decide(f, c, commit), Next(s, Decision(c, commit)), k)
    {
      assert TrackedAt(f, s, k) && DecidedAt(f, s, k);
      DecideTracked(f, s, c, commit, k);
    }
    DecideAll(f, s, Decide(f, c, commit), Next(s, Decision(c, commit)));
  }

  /** States that differ in one chain only, and decide nothing new. */
  ghost predicate DiffersAt(f: Fine, s: State, f': Fine, s': State, key: Key) {
    && f.raw.chains.Keys == s.chains.Keys == f.todo.Keys
    && f'.raw.txns == s'.txns
    && f'.raw.chains.Keys == s'.chains.Keys == f'.todo.Keys == s.chains.Keys + {key}
    && (forall k | k in s.chains && k != key ::
          f'.raw.chains[k] == f.raw.chains[k] && s'.chains[k] == s.chains[k] && f'.todo[k] == f.todo[k])
    && (forall c | c in s.txns && !IsActive(s, c) :: c in s'.txns && !IsActive(s', c))
  }

  lemma GlueRefines(f: Fine, s: State, f': Fine, s': State, key: Key)
    requires Refines(f, s) && DiffersAt(f, s, f', s', key)
    requires TrackedAt(f', s', key) && DecidedAt(f', s', key)
    ensures Refines(f', s')
  {
    forall k | k in s'.chains ensures TrackedAt(f', s', k) && DecidedAt(f', s', k) {
      if k != key {
        assert TrackedAt(f, s, k) && DecidedAt(f, s, k);
        SameTracked(f, s, f', s', k);
      }
    }
  }

  lemma ChainStepTracked(f: Fine, s: State, step: Step)
    requires Enabled(f.raw, step) && !step.Begin? && !step.Insert? && !step.Commit? && !step.Abort?
    requires TrackedAt(f, s, step.key) && DecidedAt(f, s, step.key) && IsIssued(step.c)
    requires f.raw.txns == s.txns && f.raw.chains.Keys == s.chains.Keys == f.todo.Keys
    ensures Enabled(s, step) && TrackedAt(FineNext(f, Do(step)), Next(s, step), step.key)
    ensures DiffersAt(f, s, FineNext(f, Do(step)), Next(s, step), step.key)
    ensures DecidedAt(FineNext(f, Do(step)), Next(s, step), step.key)
  {
    var k := step.key;
    StepTracks(f.raw.chains[k], s.chains[k], f.todo[k], step);
  }

  lemma ChainStepRefines(f: Fine, s: State, step: Step)
    requires Refines(f, s) && Enabled(f.raw, step) && IsIssued(step.c)
    requires !step.Begin? && !step.Insert? && !step.Commit? && !step.Abort?
    ensures Refines(FineNext(f, Do(step)), Next(s, step))
  {
    assert TrackedAt(f, s, step.key) && DecidedAt(f, s, step.key);
    ChainStepTracked(f, s, step);
    GlueRefines(f, s, FineNext(f, Do(step)), Next(s, step), step.key);
  }

  lemma InsertTracked(f: Fine, s: State, c: nat, k: Key, v: Value)
    requires Enabled(f.raw, Insert(c, k, v))
    requires f.raw.txns == s.txns && f.raw.chains.Keys == s.chains.Keys == f.todo.Keys
    ensures DiffersAt(f, s, FineNext(f, Do(Insert(c, k, v))), Next(s, Insert(c, k, v)), k)
    ensures TrackedAt(FineNext(f, Do(Insert(c, k, v))), Next(s, Insert(c, k, v)), k)
    ensures DecidedAt(FineNext(f, Do(Insert(c, k, v))), Next(s, Insert(c, k, v)), k)
  {
  }

  lemma InsertRefines(f: Fine, s: State, c: nat, k: Key, v: Value)
    requires Refines(f, s) && Enabled(f.raw, Insert(c, k, v))
    ensures Refines(FineNext(f, Do(Insert(c, k, v))), Next(s, Insert(c, k, v)))
  {
    InsertTracked(f, s, c, k, v);
    GlueRefines(f, s, FineNext(f, Do(Insert(c, k, v))), Next(s, Insert(c, k, v)), k);
  }

  lemma BeginRefines(f: Fine, s: State, c: nat)
    requires Refines(f, s) && Enabled(f.raw, Begin(c))
    ensures Refines(FineNext(f, Do(Begin(c))), Next(s, Begin(c)))
  {
    var f', s' := FineNext(f, Do(Begin(c))), Next(s, Begin(c));
    forall k | k in s.chains ensures TrackedAt(f', s', k) && DecidedAt(f', s', k) {
      assert TrackedAt(f, s, k) && DecidedAt(f, s, k);
      SameTracked(f, s, f', s', k);
    }
  }

  /** Each fine step is one atomic step or none. */
  lemma FineNextRefines(f: Fine, s: State, step: FineStep)
    requires Refines(f, s) && Inv(s)
    ensures Refines(FineNext(f, step), Run(s, Coarse(f, step)))
  {
    match step
    case WriteHeader(c, k) => WriteRefines(f, s, c, k);
    case Do(st) =>
      if Enabled(f.raw, st) {
        assert [st][..0] == [];
        InvWellFormed(s);
        assert !st.Begin? ==> TxnOk(s, st.c);
        DoRefines(f, s, st);
      }
  }

  lemma DoRefines(f: Fine, s: State, st: Step)
    requires Refines(f, s) && AllWellFormed(s.chains) && Enabled(f.raw, st) && IsIssued(st.c)
    ensures Refines(FineNext(f, Do(st)), Next(s, st))
  {
    match st
    case Commit(c) => DecideRefines(f, s, c, true);
    case Abort(c) => DecideRefines(f, s, c, false);
    case Begin(c) => BeginRefines(f, s, c);
    case Insert(c, k, v) => InsertRefines(f, s, c, k, v);
    case _ => ChainStepRefines(f, s, st);
  }

  /** The atomic steps behind a run of the header-by-header machine. */
  function Abstraction(steps: seq<FineStep>): seq<Step> {
    if |steps| == 0 then []
    else
      var before := steps[..|steps| - 1];
      Abstraction(before) + Coarse(FineRun(Start, before), steps[|steps| - 1])
  }

  lemma {:induction false} RunAppend(s: State, a: seq<Step>, b: seq<Step>)
    ensures Run(s, a + b) == Run(Run(s, a), b)
  {
    if |b| == 0 {
      assert a + b == a;
    } else {
      assert (a + b)[..|a + b| - 1] == a + b[..|b| - 1];
      RunAppend(s, a, b[..|b| - 1]);
    }
  }

  /** REFINEMENT. Whatever the interleaving of header writes and protocol steps, memory is the
      state of an atomic run plus header writes that are still outstanding. */
  lemma {:induction false} FineRunRefines(steps: seq<FineStep>)
    ensures Refines(FineRun(Start, steps), Run(Empty, Abstraction(steps)))
  {
    if |steps| > 0 {
      var n := |steps| - 1;
      var f := FineRun(Start, steps[..n]);
      FineRunRefines(steps[..n]);
      RunKeepsInv(Empty, Abstraction(steps[..n]));
      FineNextRefines(f, Run(Empty, Abstraction(steps[..n])), steps[n]);
      RunAppend(Empty, Abstraction(steps[..n]), Coarse(f, steps[n]));
    }
  }
}
