/** What each protocol action does to the chain it touches. */
module ChainActions {
  import opened Types
  import opened VersionChain

  /** The transactions that own some version of the chain. */
  ghost function Owners(ch: Chain): set<nat> {
    set i | 0 <= i < |ch| && IsIssued(ch[i].txn) :: ch[i].txn
  }

  /** The commit ids at which some version of the chain was installed. */
  ghost function Begins(ch: Chain): set<nat> {
    set i | 0 <= i < |ch| && !Pending(ch[i]) :: ch[i].begin
  }

  /** The last-reader stamps found in the chain. */
  ghost function Stamps(ch: Chain): set<nat> {
    set i | 0 <= i < |ch| :: ch[i].reader
  }

  /** An action of `c` that installs nothing: every reader at every timestamp still finds what
      it found before, and other transactions' own versions are untouched. */
  ghost predicate Quiet(ch: Chain, ch': Chain, c: nat) {
    && WellFormed(ch')
    && (forall ts: nat | ts <= MAX_CID :: ValueAt(ch', ts) == ValueAt(ch, ts))
    && (forall d: nat | IsIssued(d) && Stable(ch, d) :: Stable(ch', d))
    && OthersPending(ch, ch', c)
    && Owners(ch') <= Owners(ch) + {c}
    && Begins(ch') <= Begins(ch)
    && Stamps(ch') <= Stamps(ch) + {0, c}
  }

  /** Pending versions of transactions other than `c` are the same in both chains. */
  ghost predicate OthersPending(ch: Chain, ch': Chain, c: nat) {
    forall d: nat | d != c && IsIssued(d) ::
      PendingOf(ch', d) == PendingOf(ch, d) && (PendingOf(ch, d) ==> Last(ch') == Last(ch))
  }

  /** A version that differs only in lock word, reader stamp and, when pending, payload. */
  predicate Touched(v: Version, w: Version) {
    && w.begin == v.begin
    && w.reader >= v.reader
    && (Pending(v) || (w.end == v.end && SameContents(v, w)))
    && (Pending(v) ==> w.txn == v.txn)
  }

  lemma ReplaceWellFormed(ch: Chain, i: nat, v: Version)
    requires WellFormed(ch) && i < |ch| && Touched(ch[i], v)
    requires i < |ch| - 1 ==> Superseded(v, ch[i + 1])
    requires i == |ch| - 1 ==> Newest(v, |ch| == 1)
    ensures WellFormed(ch[i := v])
  {
    var ch' := ch[i := v];
    forall j | 0 <= j < |ch| - 1 ensures Superseded(ch'[j], ch'[j + 1]) {
      assert Superseded(ch[j], ch[j + 1]);
    }
  }

  lemma ReplaceViews(ch: Chain, i: nat, v: Version)
    requires WellFormed(ch) && i < |ch| && Touched(ch[i], v)
    ensures forall ts: nat | ts <= MAX_CID :: ValueAt(ch[i := v], ts) == ValueAt(ch, ts)
    ensures forall d: nat | IsIssued(d) && Stable(ch, d) :: Stable(ch[i := v], d)
  {
    var ch' := ch[i := v];
    forall ts: nat | ts <= MAX_CID ensures ValueAt(ch', ts) == ValueAt(ch, ts) {
      ValueAtSame(ch, ch', ts);
    }
    forall d: nat | IsIssued(d) && Stable(ch, d) ensures Stable(ch', d) {
      if InsertedBy(ch[0], d) {
        assert InsertedBy(ch'[0], d);
      } else {
        var j :| 0 <= j < |ch| && Shields(ch[j], d);
        assert Shields(ch'[j], d);
      }
    }
  }

  lemma ReplaceQuiet(ch: Chain, i: nat, v: Version, c: nat)
    requires WellFormed(ch) && i < |ch| && Touched(ch[i], v) && IsIssued(c)
    requires i < |ch| - 1 ==> Superseded(v, ch[i + 1])
    requires i == |ch| - 1 ==> Newest(v, |ch| == 1)
    requires v.txn == ch[i].txn || v.txn == c || !IsIssued(v.txn)
    requires v.reader == ch[i].reader || v.reader == c
    requires Pending(ch[i]) ==> i == |ch| - 1 && ch[i].txn == c
    ensures Quiet(ch, ch[i := v], c)
  {
    ReplaceWellFormed(ch, i, v);
    ReplaceViews(ch, i, v);
  }

  /** A successful PerformRead of a version the reader does not own. */
  lemma MarkReadQuiet(ch: Chain, i: nat, c: nat)
    requires WellFormed(ch) && i < |ch| && IsIssued(c)
    requires ch[i].txn == INITIAL_TXN_ID && ch[i].begin < c < ch[i].end
    ensures Quiet(ch, MarkRead(ch, i, c), c) && Stable(MarkRead(ch, i, c), c)
    ensures ValueAt(ch, c) == Some(ch[i].value)
  {
    assert i < |ch| - 1 ==> Superseded(ch[i], ch[i + 1]);
    ReplaceQuiet(ch, i, ch[i].(reader := Max(ch[i].reader, c)), c);
    assert Shields(MarkRead(ch, i, c)[i], c);
    ValueAtInterval(ch, i, c);
  }

  /** Only the newest version can still carry the stamp of a running transaction. */
  lemma StampedIsNewest(ch: Chain, i: nat, c: nat)
    requires WellFormed(ch) && i < |ch| && c !in Begins(ch)
    requires ch[i].txn == INITIAL_TXN_ID && ch[i].reader == c
    ensures i == |ch| - 1
  {
    assert forall j | 0 <= j < |ch| - 1 :: ch[j].txn == INITIAL_TXN_ID ==> ch[j].reader in Begins(ch) by {
      forall j | 0 <= j < |ch| - 1 && ch[j].txn == INITIAL_TXN_ID ensures ch[j].reader in Begins(ch) {
        assert Superseded(ch[j], ch[j + 1]);
        assert ch[j + 1].begin in Begins(ch);
      }
    }
  }

  lemma ClaimQuiet(ch: Chain, i: nat, c: nat)
    requires WellFormed(ch) && i == |ch| - 1 && IsIssued(c)
    requires ch[i].txn == INITIAL_TXN_ID && ch[i].begin < c && ch[i].reader <= c
    ensures Quiet(ch, Claim(ch, i, c), c) && Stable(Claim(ch, i, c), c)
    ensures ValueAt(ch, c) == Some(ch[i].value)
  {
    ReplaceQuiet(ch, i, ch[i].(txn := c, reader := c), c);
    assert Shields(Claim(ch, i, c)[i], c);
    ValueAtInterval(ch, i, c);
  }

  lemma ReleaseQuiet(ch: Chain, c: nat)
    requires WellFormed(ch) && !Pending(Last(ch)) && Last(ch).txn == c && IsIssued(c)
    ensures Quiet(ch, Release(ch), c)
  {
    ReplaceQuiet(ch, |ch| - 1, Last(ch).(txn := INITIAL_TXN_ID), c);
  }

  lemma RewriteQuiet(ch: Chain, c: nat, end: nat, value: Value)
    requires WellFormed(ch) && PendingOf(ch, c) && IsIssued(c)
    requires end == MAX_CID || end == INVALID_CID
    ensures Quiet(ch, Rewrite(ch, end, value), c)
  {
    ReplaceQuiet(ch, |ch| - 1, Last(ch).(end := end, value := value), c);
  }

  lemma InstallQuiet(ch: Chain, c: nat, end: nat, value: Value)
    requires WellFormed(ch) && !Pending(Last(ch)) && Last(ch).txn == c && IsIssued(c)
    requires end == MAX_CID || end == INVALID_CID
    ensures Quiet(ch, Install(ch, c, end, value), c)
  {
    var ch' := Install(ch, c, end, value);
    forall j | 0 <= j < |ch| ensures Superseded(ch'[j], ch'[j + 1]) {
      assert j < |ch| - 1 ==> Superseded(ch[j], ch[j + 1]);
    }
    forall ts: nat | ts <= MAX_CID ensures ValueAt(ch', ts) == ValueAt(ch, ts) {
      ValueAtAppend(ch, Last(ch'), ts);
    }
    forall d: nat | IsIssued(d) && Stable(ch, d) ensures Stable(ch', d) {
      if InsertedBy(ch[0], d) {
        assert InsertedBy(ch'[0], d);
      } else {
        var i :| 0 <= i < |ch| && Shields(ch[i], d);
        assert Shields(ch'[i], d);
      }
    }
  }

  /** A transaction owns the newest version, and the one below it only while it is writing. */
  lemma OnlyNewestOwned(ch: Chain, c: nat)
    requires WellFormed(ch) && IsIssued(c)
    ensures forall i | 0 <= i < |ch| - 2 :: ch[i].txn == INITIAL_TXN_ID
    ensures |ch| >= 2 && ch[|ch| - 2].txn == c ==> PendingOf(ch, c)
  {
    assert |ch| >= 2 ==> Superseded(ch[|ch| - 2], Last(ch));
    forall i | 0 <= i < |ch| - 2 ensures ch[i].txn == INITIAL_TXN_ID {
      assert Superseded(ch[i], ch[i + 1]);
      assert Superseded(ch[i + 1], ch[i + 2]);
    }
  }

  // ----- Abort -----

  /** Dropping the pending version leaves the old one as it was, unowned. */
  lemma AbortWriteQuiet(ch: Chain, c: nat)
    requires WellFormed(ch) && IsIssued(c) && PendingOf(ch, c) && |ch| >= 2
    ensures Quiet(ch, AbortChain(ch, c), c)
  {
    var n := |ch| - 2;
    var old' := ch[..n + 1];
    assert Superseded(ch[n], ch[n + 1]);
    assert ch == old' + [ch[n + 1]];
    assert AbortChain(ch, c) == old'[n := ch[n].(txn := INITIAL_TXN_ID)] == Release(old');
    forall j | 0 <= j < n ensures Superseded(old'[j], old'[j + 1]) {
      assert Superseded(ch[j], ch[j + 1]);
    }
    AbortDrop(ch, c);
    ReleaseQuiet(old', c);
  }

  lemma AbortDrop(ch: Chain, c: nat)
    requires WellFormed(ch) && IsIssued(c) && PendingOf(ch, c) && |ch| >= 2
    ensures forall ts: nat | ts <= MAX_CID :: ValueAt(ch[..|ch| - 1], ts) == ValueAt(ch, ts)
    ensures forall d: nat | IsIssued(d) && Stable(ch, d) :: Stable(ch[..|ch| - 1], d)
    ensures Owners(ch[..|ch| - 1]) <= Owners(ch) && Begins(ch[..|ch| - 1]) <= Begins(ch)
    ensures Stamps(ch[..|ch| - 1]) <= Stamps(ch)
  {
    var old' := ch[..|ch| - 1];
    forall d: nat | IsIssued(d) && Stable(ch, d) ensures Stable(old', d) {
      if InsertedBy(ch[0], d) {
        assert InsertedBy(old'[0], d);
      } else {
        var i :| 0 <= i < |ch| && Shields(ch[i], d);
        assert Shields(old'[i], d);
      }
    }
  }

  lemma AbortInsertQuiet(ch: Chain, c: nat)
    requires WellFormed(ch) && IsIssued(c) && PendingOf(ch, c) && |ch| == 1
    ensures Quiet(ch, AbortChain(ch, c), c)
  {
    var ch' := AbortChain(ch, c);
    assert ch == [] + [ch[0]] && ch' == [] + [ch'[0]];
    forall ts: nat | ts <= MAX_CID ensures ValueAt(ch', ts) == ValueAt(ch, ts) {
      ValueAtAppend([], ch[0], ts);
      ValueAtAppend([], ch'[0], ts);
    }
  }

  lemma AbortQuiet(ch: Chain, c: nat)
    requires WellFormed(ch) && IsIssued(c)
    ensures Quiet(ch, AbortChain(ch, c), c)
    ensures c !in Owners(AbortChain(ch, c))
  {
    OnlyNewestOwned(ch, c);
    if PendingOf(ch, c) && |ch| == 1 {
      AbortInsertQuiet(ch, c);
    } else if PendingOf(ch, c) {
      AbortWriteQuiet(ch, c);
    } else if Last(ch).txn == c {
      ReleaseQuiet(ch, c);
    }
  }

  // ----- Commit -----

  /** After `c` commits, timestamps up to `c` see the old contents and later ones `c`'s own. */
  ghost predicate Publishes(ch: Chain, ch': Chain, c: nat) {
    && WellFormed(ch')
    && (forall ts: nat | ts <= c :: ValueAt(ch', ts) == ValueAt(ch, ts))
    && (forall ts: nat | c < ts <= MAX_CID ::
          ValueAt(ch', ts) == if PendingOf(ch, c) then OwnValue(ch, c) else ValueAt(ch, ts))
    && (forall d: nat | IsIssued(d) && Stable(ch, d) :: Stable(ch', d))
    && (PendingOf(ch, c) ==> forall d: nat | IsIssued(d) && Stable(ch, d) :: d <= c)
    && OthersPending(ch, ch', c)
    && c !in Owners(ch')
    && Owners(ch') <= Owners(ch)
    && Begins(ch') <= (if PendingOf(ch, c) then Begins(ch) + {c} else Begins(ch))
    && Stamps(ch') <= Stamps(ch) + {0, c}
  }

  lemma CommitPublishes(ch: Chain, c: nat)
    requires WellFormed(ch) && IsIssued(c)
    ensures Publishes(ch, CommitChain(ch, c), c)
  {
    OnlyNewestOwned(ch, c);
    if PendingOf(ch, c) && |ch| == 1 {
      CommitInsert(ch, c);
    } else if PendingOf(ch, c) {
      CommitWrite(ch, c);
    } else if Last(ch).txn == c {
      ReleaseQuiet(ch, c);
    }
  }

  lemma CommitInsert(ch: Chain, c: nat)
    requires WellFormed(ch) && IsIssued(c) && PendingOf(ch, c) && |ch| == 1
    ensures Publishes(ch, CommitChain(ch, c), c)
  {
    var ch' := CommitChain(ch, c);
    assert ch == [] + [ch[0]] && ch' == [] + [ch'[0]];
    forall ts: nat ensures ValueAt(ch', ts) == if ch'[0].begin < ts then OwnValue(ch, c) else None {
      ValueAtAppend([], ch'[0], ts);
    }
    forall ts: nat | ts <= MAX_CID ensures ValueAt(ch, ts) == None {
      ValueAtAppend([], ch[0], ts);
    }
  }

  lemma CommitWrite(ch: Chain, c: nat)
    requires WellFormed(ch) && IsIssued(c) && PendingOf(ch, c) && |ch| >= 2
    ensures Publishes(ch, CommitChain(ch, c), c)
  {
    CommitWriteWellFormed(ch, c);
    OnlyNewestOwned(ch, c);
    CommitWriteValues(ch, c);
    forall d: nat | IsIssued(d) && Stable(ch, d) ensures Stable(CommitChain(ch, c), d) && d <= c {
      CommitWriteStable(ch, c, d);
    }
  }

  lemma CommitWriteWellFormed(ch: Chain, c: nat)
    requires WellFormed(ch) && IsIssued(c) && PendingOf(ch, c) && |ch| >= 2
    ensures WellFormed(CommitChain(ch, c))
    ensures Owners(CommitChain(ch, c)) <= Owners(ch) - {c}
    ensures Begins(CommitChain(ch, c)) <= Begins(ch) + {c} && Stamps(CommitChain(ch, c)) <= Stamps(ch)
  {
    var ch' := CommitChain(ch, c);
    OnlyNewestOwned(ch, c);
    forall j | 0 <= j < |ch| - 1 ensures Superseded(ch'[j], ch'[j + 1]) {
      assert Superseded(ch[j], ch[j + 1]);
    }
  }

  lemma CommitWriteValues(ch: Chain, c: nat)
    requires WellFormed(ch) && IsIssued(c) && PendingOf(ch, c) && |ch| >= 2
    ensures forall ts: nat | ts <= c :: ValueAt(CommitChain(ch, c), ts) == ValueAt(ch, ts)
    ensures forall ts: nat | c < ts <= MAX_CID :: ValueAt(CommitChain(ch, c), ts) == OwnValue(ch, c)
  {
    var ch' := CommitChain(ch, c);
    var n := |ch| - 2;
    assert Superseded(ch[n], ch[n + 1]);
    forall ts: nat | ts <= c ensures ValueAt(ch', ts) == ValueAt(ch, ts) {
      ValueAtSame(ch, ch', ts);
    }
  }

  /** No transaction after the writer has looked at the chain it is about to change. */
  lemma CommitWriteStable(ch: Chain, c: nat, d: nat)
    requires WellFormed(ch) && IsIssued(c) && PendingOf(ch, c) && |ch| >= 2 && IsIssued(d) && Stable(ch, d)
    ensures Stable(CommitChain(ch, c), d) && d <= c
  {
    var ch' := CommitChain(ch, c);
    var n := |ch| - 2;
    assert Superseded(ch[n], ch[n + 1]);
    if InsertedBy(ch[0], d) {
      if n > 0 {
        BeginsIncrease(ch, 0, n);
      }
      assert InsertedBy(ch'[0], d);
    } else {
      var i :| 0 <= i < |ch| && Shields(ch[i], d);
      if i < n {
        BeginsIncrease(ch, i, n);
      }
      assert Shields(ch'[i], d);
    }
  }
}
