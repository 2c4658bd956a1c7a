/** Begin, commit and abort keep the protocol invariant; so does every run. */
module ProtocolCommit {
  import opened Types
  import opened VersionChain
  import opened ChainActions
  import opened Replay
  import opened Protocol
  import opened ProtocolInvariant

  lemma BeginKeepsInv(s: State, c: nat)
    requires Inv(s) && Enabled(s, Begin(c))
    ensures Inv(Next(s, Begin(c)))
  {
    hide View, OwnView, KeysStable, WellFormed, Owners, Begins, Stamps, Keys;
    var s' := Next(s, Begin(c));
    forall k | k in s'.chains ensures ChainOk(s', k) {
      assert ChainOk(s, k);
    }
    forall d | d in s'.txns ensures TxnOk(s', d) {
      if d == c {
        BeginTxnOk(s, c);
      } else {
        assert TxnOk(s, d);
      }
    }
  }

  lemma BeginTxnOk(s: State, c: nat)
    requires Inv(s) && Enabled(s, Begin(c))
    ensures TxnOk(Next(s, Begin(c)), c)
  {
    forall k: Key ensures LookOwn(s.chains, k, c) == Look(s.chains, k, c) {
      if k in s.chains {
        assert ChainOk(s, k);
        NotWriting(s, k, c);
      }
    }
    OwnViewIsView(s.chains, c, s.chains, c);
  }

  lemma NotWriting(s: State, k: Key, c: nat)
    requires k in s.chains && ChainOk(s, k) && IsIssued(c)
    requires c in s.txns ==> k !in Keys(s.txns[c].log)
    ensures !PendingOf(s.chains[k], c)
  {
    var ch := s.chains[k];
    assert PendingOf(ch, c) ==> Last(ch).txn in Owners(ch);
  }

  lemma OwnViewIsView(a: map<Key, Chain>, c: nat, b: map<Key, Chain>, ts: nat)
    requires forall k: Key :: LookOwn(a, k, c) == Look(b, k, ts)
    ensures OwnView(a, c) == View(b, ts)
  {
    assert forall k: Key :: k in OwnView(a, c) <==> LookOwn(a, k, c).Some?;
    assert forall k: Key :: k in View(b, ts) <==> Look(b, k, ts).Some?;
  }

  // ----- Abort -----

  ghost predicate AllWellFormed(chains: map<Key, Chain>) {
    forall k | k in chains :: WellFormed(chains[k])
  }

  lemma InvWellFormed(s: State)
    requires Inv(s)
    ensures AllWellFormed(s.chains)
  {
    forall k | k in s.chains ensures WellFormed(s.chains[k]) {
      assert ChainOk(s, k);
    }
  }

  lemma AbortView(chains: map<Key, Chain>, c: nat, ts: nat)
    requires AllWellFormed(chains) && IsIssued(c) && ts <= MAX_CID
    ensures View(AbortAll(chains, c), ts) == View(chains, ts)
  {
    forall k: Key ensures Look(AbortAll(chains, c), k, ts) == Look(chains, k, ts) {
      if k in chains {
        AbortQuiet(chains[k], c);
      }
    }
    ViewSame(AbortAll(chains, c), chains, ts, ts);
  }

  lemma AbortOwnView(chains: map<Key, Chain>, c: nat, d: nat)
    requires AllWellFormed(chains) && IsIssued(c) && IsIssued(d) && d != c
    ensures OwnView(AbortAll(chains, c), d) == OwnView(chains, d)
  {
    forall k: Key ensures LookOwn(AbortAll(chains, c), k, d) == LookOwn(chains, k, d) {
      if k in chains {
        AbortQuiet(chains[k], c);
      }
    }
    OwnViewSame(AbortAll(chains, c), chains, d);
  }

  lemma AbortKeysStable(chains: map<Key, Chain>, log: Log, c: nat, d: nat)
    requires AllWellFormed(chains) && IsIssued(c) && IsIssued(d) && KeysStable(chains, log, d)
    ensures KeysStable(AbortAll(chains, c), log, d)
  {
    forall k | k in Keys(log) ensures k in chains && Stable(AbortChain(chains[k], c), d) {
      AbortQuiet(chains[k], c);
    }
  }

  lemma AbortTxnOk(s: State, c: nat, d: nat)
    requires AllWellFormed(s.chains) && IsActive(s, c) && IsIssued(c)
    requires d in s.txns && d != c && TxnOk(s, d)
    ensures TxnOk(Next(s, Abort(c)), d)
  {
    hide View, OwnView, KeysStable, AbortAll, AllWellFormed;
    AbortView(s.chains, c, d);
    AbortView(s.chains, c, d + 1);
    AbortOwnView(s.chains, c, d);
    if !s.txns[d].phase.Aborted? {
      AbortKeysStable(s.chains, s.txns[d].log, c, d);
    }
  }

  lemma AbortMarks(ch: Chain, c: nat)
    requires WellFormed(ch) && IsIssued(c)
    ensures WellFormed(AbortChain(ch, c))
    ensures Owners(AbortChain(ch, c)) <= Owners(ch) - {c} && Begins(AbortChain(ch, c)) <= Begins(ch)
    ensures Stamps(AbortChain(ch, c)) <= Stamps(ch) + {0, c}
  {
    hide WellFormed, AbortChain, Owners, Begins, Stamps, Stable, ValueAt;
    AbortQuiet(ch, c);
  }

  lemma AbortChainOk(s: State, c: nat, k: Key)
    requires IsActive(s, c) && IsIssued(c) && k in s.chains && ChainOk(s, k)
    ensures ChainOk(Next(s, Abort(c)), k)
  {
    hide WellFormed, AbortChain, Owners, Begins, Stamps, Keys;
    AbortMarks(s.chains[k], c);
  }

  lemma AbortKeepsInv(s: State, c: nat)
    requires Inv(s) && IsActive(s, c)
    ensures Inv(Next(s, Abort(c)))
  {
    var s' := Next(s, Abort(c));
    InvWellFormed(s);
    forall k | k in s'.chains ensures ChainOk(s', k) {
      assert TxnOk(s, c) && ChainOk(s, k);
      AbortChainOk(s, c, k);
    }
    forall d | d in s'.txns ensures TxnOk(s', d) {
      assert TxnOk(s, d) && TxnOk(s, c);
      if d != c {
        AbortTxnOk(s, c, d);
      }
    }
  }

  // ----- Commit -----

  /** Which ids a commit leaves in a chain. */
  lemma CommitMarks(ch: Chain, c: nat)
    requires WellFormed(ch) && IsIssued(c)
    ensures WellFormed(CommitChain(ch, c))
    ensures Owners(CommitChain(ch, c)) <= Owners(ch) - {c}
    ensures Begins(CommitChain(ch, c)) <= Begins(ch) + (if c in Owners(ch) then {c} else {})
    ensures Stamps(CommitChain(ch, c)) <= Stamps(ch) + {0, c}
  {
    hide WellFormed, CommitChain, Begins, Stamps, Stable, ValueAt;
    CommitPublishes(ch, c);
    if PendingOf(ch, c) {
      assert Last(ch).txn in Owners(ch);
    }
  }

  lemma CommitChainOk(s: State, c: nat, k: Key)
    requires IsActive(s, c) && IsIssued(c) && k in s.chains && ChainOk(s, k)
    ensures ChainOk(Next(s, Commit(c)), k)
  {
    hide WellFormed, CommitChain, Owners, Begins, Stamps, Keys;
    CommitMarks(s.chains[k], c);
  }

  lemma CommitOwnLook(ch: Chain, c: nat)
    requires WellFormed(ch) && IsIssued(c) && c !in Begins(ch)
    ensures ValueAt(CommitChain(ch, c), c) == ValueAt(ch, c)
    ensures ValueAt(CommitChain(ch, c), c + 1) == OwnValue(ch, c)
  {
    CommitPublishes(ch, c);
    forall i | 0 <= i < |ch| ensures ch[i].begin != c {
      assert !Pending(ch[i]) ==> ch[i].begin in Begins(ch);
    }
    ValueAtGap(ch, c, c + 1);
  }

  ghost predicate Uninstalled(chains: map<Key, Chain>, c: nat) {
    forall k | k in chains :: WellFormed(chains[k]) && c !in Begins(chains[k])
  }

  lemma CommitOwnView(chains: map<Key, Chain>, c: nat)
    requires IsIssued(c) && Uninstalled(chains, c)
    ensures View(CommitAll(chains, c), c) == View(chains, c)
  {
    forall k: Key ensures Look(CommitAll(chains, c), k, c) == Look(chains, k, c) {
      if k in chains {
        CommitOwnLook(chains[k], c);
      }
    }
    ViewSame(CommitAll(chains, c), chains, c, c);
  }

  /** The committing transaction's own view becomes the database right after it. */
  lemma CommitOwnResult(chains: map<Key, Chain>, c: nat)
    requires IsIssued(c) && Uninstalled(chains, c)
    ensures OwnView(chains, c) == View(CommitAll(chains, c), c + 1)
  {
    var after := c + 1;
    forall k: Key ensures LookOwn(chains, k, c) == Look(CommitAll(chains, c), k, after) {
      if k in chains {
        CommitOwnLook(chains[k], c);
      }
    }
    OwnViewIsView(chains, c, CommitAll(chains, c), after);
  }

  lemma CommitKeysStable(chains: map<Key, Chain>, log: Log, c: nat, d: nat)
    requires AllWellFormed(chains) && IsIssued(c) && IsIssued(d) && KeysStable(chains, log, d)
    ensures KeysStable(CommitAll(chains, c), log, d)
  {
    forall k | k in Keys(log) ensures k in chains && Stable(CommitChain(chains[k], c), d) {
      CommitPublishes(chains[k], c);
    }
  }

  lemma CommitActorOk(s: State, c: nat)
    requires Inv(s) && IsActive(s, c)
    ensures TxnOk(Next(s, Commit(c)), c)
  {
    assert TxnOk(s, c);
    InvWellFormed(s);
    forall k | k in s.chains ensures WellFormed(s.chains[k]) && c !in Begins(s.chains[k]) {
      assert ChainOk(s, k);
    }
    CommitOwnView(s.chains, c);
    CommitOwnResult(s.chains, c);
    CommitKeysStable(s.chains, s.txns[c].log, c, c);
  }

  /** What a commit of `c` does to the way another transaction `d` sees a chain. */
  lemma CommitOtherLook(ch: Chain, c: nat, d: nat)
    requires WellFormed(ch) && IsIssued(c) && IsIssued(d) && d != c
    ensures Stable(ch, d) ==>
              && ValueAt(CommitChain(ch, c), d) == ValueAt(ch, d)
              && ValueAt(CommitChain(ch, c), d + 1) == ValueAt(ch, d + 1)
              && OwnValue(CommitChain(ch, c), d) == OwnValue(ch, d)
    ensures ValueAt(ch, d) == ValueAt(ch, d + 1) ==>
              ValueAt(CommitChain(ch, c), d) == ValueAt(CommitChain(ch, c), d + 1)
    ensures !PendingOf(ch, d) ==> OwnValue(CommitChain(ch, c), d) == ValueAt(CommitChain(ch, c), d)
  {
    CommitPublishes(ch, c);
  }

  lemma LookAgree(a: map<Key, Chain>, ts: nat, b: map<Key, Chain>, ts': nat, k: Key)
    requires Look(a, k, ts) == Look(b, k, ts')
    ensures Agree(View(a, ts), View(b, ts'), k)
  {
  }

  lemma AgreeAll(a: Database, b: Database)
    requires forall k: Key :: Agree(a, b, k)
    ensures a == b
  {
    forall k: Key ensures k in a <==> k in b {
      assert Agree(a, b, k);
    }
    forall k: Key | k in a ensures a[k] == b[k] {
      assert Agree(a, b, k);
    }
  }

  lemma CommitReplays(chains: map<Key, Chain>, log: Log, c: nat, d: nat)
    requires AllWellFormed(chains) && IsIssued(c) && IsIssued(d) && d != c
    requires KeysStable(chains, log, d) && Replay.Replay(View(chains, d), log).Some?
    ensures var was, now := Replay.Replay(View(chains, d), log), Replay.Replay(View(CommitAll(chains, c), d), log);
            && now.Some?
            && (forall k | k in Keys(log) :: Agree(was.value, now.value, k))
            && (forall k | k !in Keys(log) :: Agree(was.value, View(chains, d), k))
            && (forall k | k !in Keys(log) :: Agree(now.value, View(CommitAll(chains, c), d), k))
  {
    forall k | k in Keys(log) ensures Agree(View(chains, d), View(CommitAll(chains, c), d), k) {
      CommitOtherLook(chains[k], c, d);
      LookAgree(chains, d, CommitAll(chains, c), d, k);
    }
    ReplayFrame(View(chains, d), View(CommitAll(chains, c), d), log);
  }

  lemma CommitActiveKey(chains: map<Key, Chain>, c: nat, d: nat, k: Key, was: Database, now: Database, key: bool)
    requires AllWellFormed(chains) && IsIssued(c) && IsIssued(d) && d != c && was == OwnView(chains, d)
    requires key ==> k in chains && Stable(chains[k], d) && Agree(was, now, k)
    requires !key ==> Agree(now, View(CommitAll(chains, c), d), k)
    requires !key && k in chains ==> !PendingOf(chains[k], d)
    ensures Agree(now, OwnView(CommitAll(chains, c), d), k)
  {
    if k in chains {
      CommitOtherLook(chains[k], c, d);
      assert LookOwn(CommitAll(chains, c), k, d) == OwnValue(CommitChain(chains[k], c), d);
    }
  }

  lemma CommitDoneKey(chains: map<Key, Chain>, c: nat, d: nat, k: Key, was: Database, now: Database, key: bool)
    requires AllWellFormed(chains) && IsIssued(c) && IsIssued(d) && d != c && was == View(chains, d + 1)
    requires key ==> k in chains && Stable(chains[k], d) && Agree(was, now, k)
    requires !key ==> Agree(now, View(CommitAll(chains, c), d), k) && Agree(was, View(chains, d), k)
    ensures Agree(now, View(CommitAll(chains, c), d + 1), k)
  {
    if k in chains {
      CommitOtherLook(chains[k], c, d);
      assert Look(CommitAll(chains, c), k, d + 1) == ValueAt(CommitChain(chains[k], c), d + 1);
      assert !key ==> Look(chains, k, d) == Look(chains, k, d + 1);
    }
  }

  lemma CommitOtherOk(s: State, c: nat, d: nat)
    requires AllWellFormed(s.chains) && IsActive(s, c) && IsIssued(c)
    requires d in s.txns && d != c && TxnOk(s, d) && !s.txns[d].phase.Aborted?
    requires forall k | k in s.chains && k !in Keys(s.txns[d].log) :: !PendingOf(s.chains[k], d)
    ensures TxnOk(Next(s, Commit(c)), d)
  {
    var log, chains' := s.txns[d].log, CommitAll(s.chains, c);
    CommitKeysStable(s.chains, log, c, d);
    CommitReplays(s.chains, log, c, d);
    var was, now := Replay.Replay(View(s.chains, d), log).value, Replay.Replay(View(chains', d), log).value;
    if IsActive(s, d) {
      forall k: Key ensures Agree(now, OwnView(chains', d), k) {
        CommitActiveKey(s.chains, c, d, k, was, now, k in Keys(log));
      }
      AgreeAll(now, OwnView(chains', d));
    } else {
      var result := View(chains', d + 1);
      forall k: Key ensures Agree(now, result, k) {
        CommitDoneKey(s.chains, c, d, k, was, now, k in Keys(log));
      }
      AgreeAll(now, result);
    }
  }

  lemma CommitKeepsInv(s: State, c: nat)
    requires Inv(s) && IsActive(s, c)
    ensures Inv(Next(s, Commit(c)))
  {
    var s' := Next(s, Commit(c));
    InvWellFormed(s);
    forall k | k in s'.chains ensures ChainOk(s', k) {
      assert TxnOk(s, c) && ChainOk(s, k);
      CommitChainOk(s, c, k);
    }
    forall d | d in s'.txns ensures TxnOk(s', d) {
      assert TxnOk(s, d) && TxnOk(s, c);
      if d == c {
        CommitActorOk(s, c);
      } else if !s.txns[d].phase.Aborted? {
        forall k | k in s.chains && k !in Keys(s.txns[d].log) ensures !PendingOf(s.chains[k], d) {
          assert ChainOk(s, k);
          NotWriting(s, k, d);
        }
        CommitOtherOk(s, c, d);
      }
    }
  }

  // ----- Every run -----

  lemma NextKeepsInv(s: State, step: Step)
    requires Inv(s)
    ensures Inv(Next(s, step))
  {
    if Enabled(s, step) {
      match step
      case Begin(c) => BeginKeepsInv(s, c);
      case Insert(c, k, v) => InsertKeepsInv(s, c, k, v);
      case Commit(c) => CommitKeepsInv(s, c);
      case Abort(c) => AbortKeepsInv(s, c);
      case _ => ChainStepKeepsInv(s, step);
    }
  }

  /** The invariant holds after any interleaving of any steps. */
  lemma {:induction false} RunKeepsInv(s: State, steps: seq<Step>)
    requires Inv(s)
    ensures Inv(Run(s, steps))
  {
    if |steps| > 0 {
      RunKeepsInv(s, steps[..|steps| - 1]);
      NextKeepsInv(Run(s, steps[..|steps| - 1]), steps[|steps| - 1]);
    }
  }
}
