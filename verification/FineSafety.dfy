/** What concurrent readers can observe between two header writes of a commit or abort. */
module FineSafety {
  import opened Types
  import opened VersionChain
  import opened ChainActions
  import opened Replay
  import opened Protocol
  import opened ProtocolInvariant
  import opened ProtocolCommit
  import opened ProtocolSafety
  import opened Serializability
  import opened FineGrained
  import opened FineSimulation

  /** IsVisible answers OK and PerformRead returns true. */
  predicate Readable(ch: Chain, i: nat, c: nat) {
    i < |ch| && Sees(ch, i, c).OK? && (ch[i].txn == c || ch[i].txn == INITIAL_TXN_ID)
  }

  lemma ReadableOnce(ch: Chain, i: nat, j: nat, c: nat)
    requires WellFormed(ch) && IsIssued(c) && c !in Begins(ch) && i < j && Readable(ch, j, c)
    ensures !Readable(ch, i, c)
  {
    if Readable(ch, i, c) {
      OlderVersions(ch);
      BeginsIncrease(ch, i, j);
      assert !Pending(ch[i]) ==> ch[i].begin in Begins(ch);
      if ch[j].txn == c {
        assert j == |ch| - 1;
        if Pending(ch[j]) {
          ReaderNotWriting(ch, i, c);
        }
      }
      assert false;
    }
  }

  /** A readable version is the reader's own, or was installed by a committed transaction. */
  lemma ReadableCommitted(s: State, k: Key, i: nat, c: nat)
    requires k in s.chains && ChainOk(s, k) && IsIssued(c) && Readable(s.chains[k], i, c)
    ensures Pending(s.chains[k][i]) ==> s.chains[k][i].txn == c
    ensures !Pending(s.chains[k][i]) ==> IsCommitted(s, s.chains[k][i].begin)
  {
    assert !Pending(s.chains[k][i]) ==> s.chains[k][i].begin in Begins(s.chains[k]);
  }

  lemma ReadableFinished(f: Fine, s: State, k: Key, i: nat, c: nat)
    requires Refines(f, s) && IsActive(s, c) && IsIssued(c) && k in s.chains && Readable(f.raw.chains[k], i, c)
    ensures Readable(s.chains[k], i, c) && s.chains[k][i] == f.raw.chains[k][i]
  {
    assert TrackedAt(f, s, k) && DecidedAt(f, s, k);
    var step := Read(c, k, i);
    StepIndex(f.raw.chains[k], s.chains[k], f.todo[k], step);
    StepTracks(f.raw.chains[k], s.chains[k], f.todo[k], step);
  }

  /** FINE-GRAINED SAFETY. After any interleaving of header writes and protocol steps, a running
      transaction can successfully read at most one version of a chain, and never one that
      another transaction has not yet decided to commit. */
  lemma OneReadableVersion(steps: seq<FineStep>, k: Key, i: nat, c: nat)
    requires var f := FineRun(Start, steps);
             k in f.raw.chains && IsActive(f.raw, c) && Readable(f.raw.chains[k], i, c)
    ensures var f := FineRun(Start, steps); var v := f.raw.chains[k][i];
            && (forall j | 0 <= j < |f.raw.chains[k]| && j != i :: !Readable(f.raw.chains[k], j, c))
            && (if Pending(v) then v.txn == c else IsCommitted(f.raw, v.begin))
  {
    hide FineRun, Run, Inv, Readable, Pending;
    var f, s := FineRun(Start, steps), Run(Empty, Abstraction(steps));
    FineRunRefines(steps);
    RunKeepsInv(Empty, Abstraction(steps));
    assert TxnOk(s, c) && ChainOk(s, k);
    ReadableFinished(f, s, k, i, c);
    ReadableCommitted(s, k, i, c);
    forall j | 0 <= j < |f.raw.chains[k]| && j != i ensures !Readable(f.raw.chains[k], j, c) {
      if Readable(f.raw.chains[k], j, c) {
        ReadableFinished(f, s, k, j, c);
        if i < j {
          ReadableOnce(s.chains[k], i, j, c);
        } else {
          ReadableOnce(s.chains[k], j, i, c);
        }
        assert false;
      }
    }
  }

  predicate Quiescent(f: Fine) {
    forall k | k in f.todo :: f.todo[k] == map[]
  }

  lemma QuiescentIsFinished(f: Fine, s: State)
    requires Refines(f, s) && Quiescent(f)
    ensures f.raw == s
  {
    forall k | k in s.chains ensures f.raw.chains[k] == s.chains[k] {
      assert TrackedAt(f, s, k);
      assert f.todo[k] == map[];
    }
  }

  /** Serializability also holds when commits install one header field at a time: the order is
      that of the transactions that have decided to commit, the serial result is what memory
      holds once every decision is carried out, and so what it holds now if nothing is
      half-installed. */
  lemma FineSerializable(steps: seq<FineStep>, order: seq<nat>)
    requires CommitOrder(FineRun(Start, steps).raw, order)
    ensures var f := FineRun(Start, steps);
            && (forall c | c in order :: c in f.raw.txns)
            && ReplayAll(map[], f.raw.txns, order) == Some(Latest(Run(Empty, Abstraction(steps))))
            && (Quiescent(f) ==> ReplayAll(map[], f.raw.txns, order) == Some(Latest(f.raw)))
  {
    var f, s := FineRun(Start, steps), Run(Empty, Abstraction(steps));
    FineRunRefines(steps);
    forall c ensures IsCommitted(s, c) <==> IsCommitted(f.raw, c) {
    }
    Serializable(Abstraction(steps), order);
    if Quiescent(f) {
      QuiescentIsFinished(f, s);
    }
  }

  // ----- Visibility alone is weaker -----

  /** The entry is between the begin stamp of the new version `j` and the end stamp of the old
      version `i`. An empty version starts with end stamp INVALID_CID, so a delete opens this
      window one write later than an update. */
  predicate BothOpen(e: Entry, i: nat, j: nat) {
    && e.commit && e.kind.Written? && i == e.at && j == e.at + 1
    && (if e.end0 == INVALID_CID then e.pc == 2 else 1 <= e.pc <= 2)
  }

  predicate IsOpen(ch: Chain, i: nat, id: nat, ts: nat) {
    i < |ch| && SeenBy(ch, i, id, ts).OK?
  }

  /** An unfinished version that answers OK although its finished form has ended is one that a
      commit has overwritten but not yet closed. */
  lemma StaysOpen(raw: Chain, done: Chain, todo: map<nat, Entry>, i: nat, id: nat, ts: nat)
    requires Tracks(raw, done, todo) && i < |done| && ts < MAX_CID
    requires raw[i].txn != id && IsOpen(raw, i, id, ts) && done[i].end <= ts
    ensures raw[i].txn in todo
    ensures var e := todo[raw[i].txn]; e.commit && e.kind.Written? && e.at == i && e.pc < 3 && done[i].end == raw[i].txn
  {
    assert raw[i] == done[i] || (raw[i].txn in todo && Covers(todo[raw[i].txn], i));
    assert raw[i].txn in todo && Stage(raw, done, raw[i].txn, todo[raw[i].txn]);
  }

  /** A version beyond the finished chain is being unlinked. */
  lemma ExtraIsPending(raw: Chain, done: Chain, todo: map<nat, Entry>, j: nat)
    requires Tracks(raw, done, todo) && j < |raw|
    ensures j >= |done| ==> Pending(raw[j])
  {
    if j >= |done| {
      var d :| d in todo && Unlinking(todo[d]);
      assert Stage(raw, done, d, todo[d]);
    }
  }

  lemma OpenHasBegun(raw: Chain, done: Chain, todo: map<nat, Entry>, j: nat, id: nat, ts: nat)
    requires Tracks(raw, done, todo) && ts < MAX_CID && IsOpen(raw, j, id, ts) && raw[j].txn != id
    ensures j < |done| && done[j].begin == raw[j].begin <= ts
  {
    ExtraIsPending(raw, done, todo, j);
    assert raw[j] == done[j] || (raw[j].txn in todo && Stage(raw, done, raw[j].txn, todo[raw[j].txn]));
  }

  lemma TwoOpen(raw: Chain, done: Chain, todo: map<nat, Entry>, i: nat, j: nat, id: nat, ts: nat)
    requires Tracks(raw, done, todo) && WellFormed(done) && i < j < |raw| && ts < MAX_CID
    requires raw[i].txn != id && raw[j].txn != id && IsOpen(raw, i, id, ts) && IsOpen(raw, j, id, ts)
    ensures raw[i].txn in todo && BothOpen(todo[raw[i].txn], i, j) && raw[i].txn <= ts
  {
    OpenHasBegun(raw, done, todo, j, id, ts);
    BeginsIncrease(done, i, j);
    assert Superseded(done[i], done[i + 1]);
    if i + 1 < j {
      BeginsIncrease(done, i + 1, j);
    }
    StaysOpen(raw, done, todo, i, id, ts);
    assert Stage(raw, done, raw[i].txn, todo[raw[i].txn]);
  }

  lemma WindowOpen(raw: Chain, done: Chain, todo: map<nat, Entry>, c: nat, i: nat, j: nat, id: nat, ts: nat)
    requires Tracks(raw, done, todo) && WellFormed(done) && c in todo && BothOpen(todo[c], i, j) && c <= ts < MAX_CID
    requires j < |raw| && raw[i].txn != id && raw[j].txn != id
    ensures IsOpen(raw, i, id, ts) && IsOpen(raw, j, id, ts)
  {
    assert Stage(raw, done, c, todo[c]);
    assert Superseded(done[i], done[i + 1]);
  }

  /** "At any time point, only one version is visible" fails for IsVisible alone, and exactly
      so: after any interleaving, two versions of a chain both answer OK to a viewer that owns
      neither, if and only if they are the old and the new version of an update or delete whose
      commit is inside its window and whose id does not exceed the viewer's timestamp. */
  lemma TwoVisibleWindow(steps: seq<FineStep>, k: Key, i: nat, j: nat, id: nat, ts: nat)
    requires var f := FineRun(Start, steps);
             && k in f.raw.chains && i < j < |f.raw.chains[k]| && ts < MAX_CID
             && f.raw.chains[k][i].txn != id && f.raw.chains[k][j].txn != id
    ensures var f := FineRun(Start, steps);
            && k in f.todo
            && (IsOpen(f.raw.chains[k], i, id, ts) && IsOpen(f.raw.chains[k], j, id, ts) <==>
                exists c :: c in f.todo[k] && BothOpen(f.todo[k][c], i, j) && c <= ts)
  {
    hide FineRun, Run, Tracks, WellFormed, IsOpen, BothOpen;
    var f, s := FineRun(Start, steps), Run(Empty, Abstraction(steps));
    FineTracks(steps, k);
    var raw, done, todo := f.raw.chains[k], s.chains[k], f.todo[k];
    if IsOpen(raw, i, id, ts) && IsOpen(raw, j, id, ts) {
      TwoOpen(raw, done, todo, i, j, id, ts);
    }
    forall c | c in todo && BothOpen(todo[c], i, j) && c <= ts
      ensures IsOpen(raw, i, id, ts) && IsOpen(raw, j, id, ts)
    {
      WindowOpen(raw, done, todo, c, i, j, id, ts);
    }
  }

  lemma FineTracks(steps: seq<FineStep>, k: Key)
    requires k in FineRun(Start, steps).raw.chains
    ensures var f, s := FineRun(Start, steps), Run(Empty, Abstraction(steps));
            k in f.todo && k in s.chains && Tracks(f.raw.chains[k], s.chains[k], f.todo[k]) && WellFormed(s.chains[k])
  {
    FineRunRefines(steps);
    RunKeepsInv(Empty, Abstraction(steps));
    assert TrackedAt(FineRun(Start, steps), Run(Empty, Abstraction(steps)), k);
    assert ChainOk(Run(Empty, Abstraction(steps)), k);
  }

  /** A deleted tuple's empty version answers OK, instead of DELETED, to every outsider from the
      commit id on, exactly between its end stamp and its final lock word. */
  lemma TombstoneWindow(steps: seq<FineStep>, k: Key, c: nat, id: nat, ts: nat)
    requires var f := FineRun(Start, steps);
             && k in f.raw.chains && k in f.todo && c in f.todo[k] && ts < MAX_CID && id != c
             && f.todo[k][c].commit && f.todo[k][c].kind.Written? && f.todo[k][c].end0 == INVALID_CID
    ensures var f := FineRun(Start, steps); var e := f.todo[k][c];
            && e.at + 1 < |f.raw.chains[k]|
            && (IsOpen(f.raw.chains[k], e.at + 1, id, ts) <==> 2 <= e.pc <= 3 && c <= ts)
  {
    hide FineRun, Run, Tracks, WellFormed, IsOpen;
    var f, s := FineRun(Start, steps), Run(Empty, Abstraction(steps));
    FineTracks(steps, k);
    TombstoneOpen(f.raw.chains[k], s.chains[k], f.todo[k], c, id, ts);
  }

  lemma TombstoneOpen(raw: Chain, done: Chain, todo: map<nat, Entry>, c: nat, id: nat, ts: nat)
    requires Tracks(raw, done, todo) && c in todo && ts < MAX_CID && id != c
    requires todo[c].commit && todo[c].kind.Written? && todo[c].end0 == INVALID_CID
    ensures var e := todo[c];
            e.at + 1 < |raw| && (IsOpen(raw, e.at + 1, id, ts) <==> 2 <= e.pc <= 3 && c <= ts)
  {
    var e := todo[c];
    assert Stage(raw, done, c, e);
    var n := e.at + 1;
    assert raw[n] == done[n] ||
           (raw[n].txn in todo && Covers(todo[raw[n].txn], n) && Stage(raw, done, raw[n].txn, todo[raw[n].txn]));
  }
}
