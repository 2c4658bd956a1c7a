/** What the protocol guarantees in every reachable state and along every run. */
module ProtocolSafety {
  import opened Types
  import opened VersionChain
  import opened ChainActions
  import opened Replay
  import opened Protocol
  import opened ProtocolInvariant
  import opened ProtocolCommit

  ghost predicate Reachable(s: State) {
    exists steps :: s == Run(Empty, steps)
  }

  lemma ReachableInv(s: State)
    requires Reachable(s)
    ensures Inv(s)
  {
    var steps :| s == Run(Empty, steps);
    RunKeepsInv(Empty, steps);
  }

  // ----- Visibility -----

  function SeenBy(ch: Chain, i: nat, id: nat, ts: nat): Visibility
    requires i < |ch|
  {
    IsVisible(id, ts, ch[i].txn, ch[i].begin, ch[i].end, false)
  }

  predicate Answers(ch: Chain, i: nat, id: nat, ts: nat)
    requires i < |ch|
  {
    SeenBy(ch, i, id, ts) != INVISIBLE
  }

  /** A viewer that owns nothing in the chain is answered by the version whose interval covers it. */
  lemma AnswersCovers(ch: Chain, i: nat, id: nat, ts: nat)
    requires WellFormed(ch) && i < |ch| && IsIssued(id) && ts < MAX_CID && id !in Owners(ch)
    ensures Answers(ch, i, id, ts) <==> ch[i].begin <= ts < ch[i].end
  {
    assert IsIssued(ch[i].txn) ==> ch[i].txn in Owners(ch);
  }

  /** At every timestamp from the oldest version on, one version answers and only one. */
  lemma {:induction false} CoveringExists(ch: Chain, ts: nat, n: nat) returns (i: nat)
    requires WellFormed(ch) && n < |ch| && ch[0].begin <= ts < ch[n].end
    ensures i <= n && ch[i].begin <= ts < ch[i].end
  {
    if ch[n].begin <= ts {
      i := n;
    } else {
      assert Superseded(ch[n - 1], ch[n]);
      i := CoveringExists(ch, ts, n - 1);
    }
  }

  lemma OneVersionAnswers(s: State, k: Key, id: nat, ts: nat)
    requires Reachable(s) && k in s.chains && IsIssued(id) && id !in Owners(s.chains[k])
    requires |s.chains[k]| > 0 && s.chains[k][0].begin <= ts < MAX_CID
    ensures exists i :: 0 <= i < |s.chains[k]| && Answers(s.chains[k], i, id, ts)
                        && forall j | 0 <= j < |s.chains[k]| && j != i :: !Answers(s.chains[k], j, id, ts)
  {
    var ch := s.chains[k];
    ReachableInv(s);
    assert ChainOk(s, k);
    var i := NewestCommitted(ch, ts);
    AnswersCovers(ch, i, id, ts);
    forall j | 0 <= j < |ch| && j != i ensures !Answers(ch, j, id, ts) {
      AnswersCovers(ch, j, id, ts);
      if j < i {
        BeginsIncrease(ch, j, i);
      } else {
        BeginsIncrease(ch, i, j);
      }
    }
  }

  lemma NewestCommitted(ch: Chain, ts: nat) returns (i: nat)
    requires WellFormed(ch) && ch[0].begin <= ts < MAX_CID
    ensures i < |ch| && ch[i].begin <= ts < ch[i].end
  {
    var n := |ch| - 1;
    if Pending(ch[n]) {
      assert Superseded(ch[n - 1], ch[n]);
      i := CoveringExists(ch, ts, n - 1);
    } else {
      i := CoveringExists(ch, ts, n);
    }
  }

  // ----- Ownership -----

  /** A transaction that has read a version and now gets its lock holds the newest version, so
      at commit the old end stamp is still unset and the assertion `cid > end_commit_id` holds. */
  lemma AcquireHitsNewest(s: State, c: nat, k: Key, i: nat)
    requires Reachable(s) && Enabled(s, Acquire(c, k, i))
    ensures i == |s.chains[k]| - 1 && s.chains[k][i].end == MAX_CID > c && s.chains[k][i].begin < c
  {
    ReachableInv(s);
    assert ChainOk(s, k) && TxnOk(s, c);
    StampedIsNewest(s.chains[k], i, c);
  }

  /** Whatever a committing transaction overwrites has no end stamp yet and began before it. */
  lemma CommitOverwritesNewest(s: State, c: nat, k: Key)
    requires Reachable(s) && IsActive(s, c) && k in s.chains && |s.chains[k]| >= 2 && PendingOf(s.chains[k], c)
    ensures var old' := s.chains[k][|s.chains[k]| - 2];
            old'.txn == c && old'.end == MAX_CID > c && old'.begin < c && old'.reader == c
  {
    ReachableInv(s);
    assert ChainOk(s, k) && TxnOk(s, c);
    var n := |s.chains[k]| - 2;
    assert Superseded(s.chains[k][n], s.chains[k][n + 1]);
  }

  // ----- Read stability -----

  /** Installed versions keep their place, contents and begin stamp; reader stamps only grow. */
  ghost predicate Persists(ch: Chain, ch': Chain) {
    forall i | 0 <= i < |ch| && !Pending(ch[i]) ::
      i < |ch'| && SameContents(ch[i], ch'[i]) && ch[i].reader <= ch'[i].reader
  }

  lemma ChainStepPersists(ch: Chain, step: Step)
    requires Ready(ch, step)
    ensures Persists(ch, NewChain(ch, step))
  {
    if step.Acquire? {
      StampedIsNewest(ch, step.i, step.c);
    }
  }

  lemma CommitPersists(ch: Chain, c: nat)
    requires WellFormed(ch) && IsIssued(c)
    ensures Persists(ch, CommitChain(ch, c)) && Persists(ch, AbortChain(ch, c))
  {
    if PendingOf(ch, c) && |ch| >= 2 {
      assert Superseded(ch[|ch| - 2], ch[|ch| - 1]);
    }
  }

  lemma PersistsSame(ch: Chain)
    ensures Persists(ch, ch)
  {
  }

  lemma StepIsReady(s: State, step: Step, k: Key)
    requires Inv(s) && Enabled(s, step) && !step.Begin? && k in s.chains
    ensures IsIssued(step.c)
    ensures !step.Insert? && !step.Commit? && !step.Abort? && step.key == k ==> Ready(s.chains[k], step)
  {
    assert TxnOk(s, step.c) && ChainOk(s, k);
  }

  lemma NextPersists(s: State, step: Step, k: Key)
    requires Inv(s) && k in s.chains
    ensures k in Next(s, step).chains && Persists(s.chains[k], Next(s, step).chains[k])
  {
    hide Inv, Persists, NewChain, CommitChain, AbortChain, WellFormed, Ready;
    InvWellFormed(s);
    if Enabled(s, step) && !step.Begin? {
      StepIsReady(s, step, k);
      if step.Commit? || step.Abort? {
        CommitPersists(s.chains[k], step.c);
      } else if !step.Insert? && step.key == k {
        ChainStepPersists(s.chains[k], step);
      } else {
        PersistsSame(s.chains[k]);
      }
    } else {
      PersistsSame(s.chains[k]);
    }
  }

  lemma {:induction false} RunPersists(s: State, steps: seq<Step>, k: Key)
    requires Inv(s) && k in s.chains
    ensures k in Run(s, steps).chains && Persists(s.chains[k], Run(s, steps).chains[k])
  {
    if |steps| > 0 {
      var n := |steps| - 1;
      RunPersists(s, steps[..n], k);
      RunKeepsInv(s, steps[..n]);
      NextPersists(Run(s, steps[..n]), steps[n], k);
    }
  }

  /** Version `i` covers `c`, and later versions of other transactions begin after `c`. */
  ghost predicate Holds(ch: Chain, i: nat, c: nat) {
    && i < |ch|
    && ch[i].begin < c <= ch[i].end
    && forall j | i < j < |ch| && ch[j].begin != c :: c < ch[j].begin
  }

  lemma StampHolds(ch: Chain, ch': Chain, i: nat, c: nat)
    requires WellFormed(ch') && Persists(ch, ch') && i < |ch| && !Pending(ch[i])
    requires ch[i].begin < c <= ch[i].reader && c < MAX_CID
    ensures Holds(ch', i, c) && ch'[i].value == ch[i].value
  {
    if i < |ch'| - 1 {
      assert Superseded(ch'[i], ch'[i + 1]);
    }
    forall j | i < j < |ch'| && ch'[j].begin != c ensures c < ch'[j].begin {
      BeginsIncrease(ch', i, j);
    }
  }

  /** A version that a transaction owns carries the owner as its last reader. */
  lemma OwnedIsStamped(ch: Chain, i: nat)
    requires WellFormed(ch) && i < |ch| && IsIssued(ch[i].txn) && !Pending(ch[i])
    ensures ch[i].begin < ch[i].reader == ch[i].txn
  {
    if i < |ch| - 1 {
      assert Superseded(ch[i], ch[i + 1]);
    }
  }

  /** A successful read, plain or for update, of a version that has been committed. */
  predicate ReadsCommitted(s: State, step: Step) {
    Enabled(s, step) && (step.Read? || step.ReadForUpdate?) && !Pending(s.chains[step.key][step.i])
  }

  /** Version `i` is committed, has value `value`, and is stamped by `c` or a later reader. */
  predicate Stamped(ch: Chain, i: nat, c: nat, value: Value) {
    i < |ch| && !Pending(ch[i]) && ch[i].begin < c <= ch[i].reader && ch[i].value == value
  }

  lemma ReadMarks(ch: Chain, step: Step)
    requires Ready(ch, step) && (step.Read? || step.ReadForUpdate?) && !Pending(ch[step.i])
    ensures Stamped(NewChain(ch, step), step.i, step.c, ch[step.i].value)
  {
    assert ch[step.i].begin in Begins(ch);
    if ch[step.i].txn == step.c {
      OwnedIsStamped(ch, step.i);
    }
  }

  lemma ReadStamps(s: State, step: Step)
    requires Inv(s) && ReadsCommitted(s, step)
    ensures var s' := Next(s, step);
            step.key in s'.chains && Stamped(s'.chains[step.key], step.i, step.c, s.chains[step.key][step.i].value)
    ensures IsIssued(step.c)
  {
    hide Inv, NewChain, Ready, Stamped;
    StepIsReady(s, step, step.key);
    ReadMarks(s.chains[step.key], step);
  }

  /** READ STABILITY. Once a transaction has successfully read a committed version, whether
      unowned, owned by itself, or locked by the read, then after any further steps of anyone
      that version still covers the reader, and every newer version that a different transaction
      installs begins strictly after the reader. */
  lemma ReadIsStable(s: State, step: Step, more: seq<Step>)
    requires Reachable(s) && ReadsCommitted(s, step)
    ensures var now := Run(Next(s, step), more);
            && step.key in now.chains && Holds(now.chains[step.key], step.i, step.c)
            && now.chains[step.key][step.i].value == s.chains[step.key][step.i].value
  {
    hide Inv, Holds, Persists, Next, Run;
    ReachableInv(s);
    ReadStamps(s, step);
    var s1 := Next(s, step);
    NextKeepsInv(s, step);
    RunPersists(s1, more, step.key);
    RunKeepsInv(s1, more);
    InvWellFormed(Run(s1, more));
    StampHolds(s1.chains[step.key], Run(s1, more).chains[step.key], step.i, step.c);
  }
}
