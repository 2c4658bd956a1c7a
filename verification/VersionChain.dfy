/** One version chain, oldest version first, and what every protocol action keeps of it. */
module VersionChain {
  import opened Types

  type Value = int

  /** The header fields of a tuple version that decide visibility, and its payload. */
  datatype Version = Version(txn: nat, begin: nat, end: nat, reader: nat, value: Value)

  type Chain = seq<Version>

  predicate Pending(v: Version) {
    v.begin == MAX_CID
  }

  function Last(ch: Chain): Version
    requires |ch| > 0
  {
    ch[|ch| - 1]
  }

  /** A version that has a newer neighbour `w`. Its interval ends where `w` begins. Once `w` is
      committed, the last reader of `v` is exactly the transaction that installed `w`. */
  predicate Superseded(v: Version, w: Version) {
    && IsIssued(v.begin)
    && v.begin < v.end == w.begin
    && v.begin < v.reader
    && if Pending(w) then IsIssued(w.txn) && v.txn == w.txn && v.reader == v.txn
       else v.txn == INITIAL_TXN_ID && v.reader == v.end
  }

  /** The newest version: being written, left behind by an aborted insert, or committed. */
  predicate Newest(v: Version, only: bool) {
    if Pending(v) then
      if IsIssued(v.txn) then v.reader == 0 && (v.end == MAX_CID || v.end == INVALID_CID)
      else only && v.txn == INVALID_TXN_ID && v.end == MAX_CID
    else
      && IsIssued(v.begin)
      && v.end == MAX_CID
      && (v.reader == 0 || v.begin < v.reader)
      && (v.txn == INITIAL_TXN_ID || v.txn == INVALID_TXN_ID || (IsIssued(v.txn) && v.reader == v.txn))
  }

  ghost predicate WellFormed(ch: Chain) {
    && |ch| > 0
    && (forall i | 0 <= i < |ch| - 1 :: Superseded(ch[i], ch[i + 1]))
    && Newest(Last(ch), |ch| == 1)
  }

  /** What the chain holds just before timestamp `ts`: the newest version begun before it. */
  function ValueAt(ch: Chain, ts: nat): Option<Value> {
    if |ch| == 0 then None
    else if Last(ch).begin < ts then
      if Last(ch).txn == INVALID_TXN_ID then None else Some(Last(ch).value)
    else ValueAt(ch[..|ch| - 1], ts)
  }

  predicate PendingOf(ch: Chain, c: nat) {
    |ch| > 0 && Pending(Last(ch)) && Last(ch).txn == c
  }

  /** What transaction `c` itself sees: its own pending version, or the chain before `c`. */
  function OwnValue(ch: Chain, c: nat): Option<Value> {
    if PendingOf(ch, c) then
      if Last(ch).end == INVALID_CID then None else Some(Last(ch).value)
    else ValueAt(ch, c)
  }

  /** The chain cannot change before `c` any more: `c` inserted it, or the version that covers
      `c` is stamped by `c` or a later reader, or it is a tombstone. */
  ghost predicate Stable(ch: Chain, c: nat) {
    || (|ch| > 0 && InsertedBy(ch[0], c))
    || exists i :: 0 <= i < |ch| && Shields(ch[i], c)
  }

  /** The oldest version is an insert of `c`, or one that was dropped for good. */
  predicate InsertedBy(v: Version, c: nat) {
    v.begin == c || (Pending(v) && (v.txn == c || v.txn == INVALID_TXN_ID))
  }

  predicate Shields(v: Version, c: nat) {
    v.begin < c <= v.end && (c <= v.reader || v.txn == INVALID_TXN_ID)
  }

  // ----- Actions on one chain -----

  function Max(a: nat, b: nat): nat {
    if a < b then b else a
  }

  /** SetLastReaderCommitId on an unowned version. */
  function MarkRead(ch: Chain, i: nat, c: nat): Chain
    requires i < |ch|
  {
    ch[i := ch[i].(reader := Max(ch[i].reader, c))]
  }

  /** AcquireOwnership followed, for select-for-update, by stamping the last reader. */
  function Claim(ch: Chain, i: nat, c: nat): Chain
    requires i < |ch|
  {
    ch[i := ch[i].(txn := c, reader := c)]
  }

  function Release(ch: Chain): Chain
    requires |ch| > 0
  {
    ch[|ch| - 1 := Last(ch).(txn := INITIAL_TXN_ID)]
  }

  function Install(ch: Chain, c: nat, end: nat, value: Value): Chain {
    ch + [Version(c, MAX_CID, end, 0, value)]
  }

  function Rewrite(ch: Chain, end: nat, value: Value): Chain
    requires |ch| > 0
  {
    ch[|ch| - 1 := Last(ch).(end := end, value := value)]
  }

  /** The newest version of a chain once its owner's commit has been installed. */
  function Installed(v: Version, c: nat, inserted: bool): Version {
    if v.end != INVALID_CID then v.(txn := INITIAL_TXN_ID, begin := c, end := MAX_CID)
    else if inserted then v.(txn := INVALID_TXN_ID, begin := MAX_CID, end := MAX_CID)
    else v.(txn := INVALID_TXN_ID, begin := c, end := MAX_CID)
  }

  function CommitChain(ch: Chain, c: nat): Chain {
    if PendingOf(ch, c) then
      if |ch| == 1 then [Installed(ch[0], c, true)]
      else
        var n := |ch| - 2;
        ch[..n] + [ch[n].(txn := INITIAL_TXN_ID, end := c), Installed(ch[n + 1], c, false)]
    else if |ch| > 0 && Last(ch).txn == c then Release(ch)
    else ch
  }

  function AbortChain(ch: Chain, c: nat): Chain {
    if PendingOf(ch, c) then
      if |ch| == 1 then [ch[0].(txn := INVALID_TXN_ID, end := MAX_CID)]
      else
        var n := |ch| - 2;
        ch[..n] + [ch[n].(txn := INITIAL_TXN_ID)]
    else if |ch| > 0 && Last(ch).txn == c then Release(ch)
    else ch
  }

  // ----- Order of versions -----

  /** Versions with a newer neighbour are committed tuples, and unowned once that is committed. */
  lemma OlderVersions(ch: Chain)
    requires WellFormed(ch)
    ensures forall i | 0 <= i < |ch| - 1 ::
              && IsIssued(ch[i].begin) && ch[i].begin < ch[i].end
              && (ch[i].txn == INITIAL_TXN_ID ==> IsIssued(ch[i].end))
              && (ch[i].txn == INITIAL_TXN_ID || IsIssued(ch[i].txn))
  {
    forall i | 0 <= i < |ch| - 1
      ensures && IsIssued(ch[i].begin) && ch[i].begin < ch[i].end
              && (ch[i].txn == INITIAL_TXN_ID ==> IsIssued(ch[i].end))
              && (ch[i].txn == INITIAL_TXN_ID || IsIssued(ch[i].txn))
    {
      assert Superseded(ch[i], ch[i + 1]);
      if i + 1 < |ch| - 1 {
        assert Superseded(ch[i + 1], ch[i + 2]);
      }
    }
  }

  lemma {:induction false} BeginsIncrease(ch: Chain, i: nat, j: nat)
    requires WellFormed(ch) && i < j < |ch|
    ensures ch[i].begin < ch[i].end <= ch[j].begin
    decreases j - i
  {
    assert Superseded(ch[i], ch[i + 1]);
    if i + 1 < j {
      BeginsIncrease(ch, i + 1, j);
    }
  }

  /** The version whose interval covers `ts` is the one ValueAt finds. */
  lemma {:induction false} ValueAtCovering(ch: Chain, i: nat, ts: nat)
    requires i < |ch| && ch[i].begin < ts
    requires forall j | i < j < |ch| :: ts <= ch[j].begin
    ensures ValueAt(ch, ts) == if ch[i].txn == INVALID_TXN_ID then None else Some(ch[i].value)
  {
    if i < |ch| - 1 {
      assert ts <= ch[|ch| - 1].begin;
      ValueAtCovering(ch[..|ch| - 1], i, ts);
    }
  }

  lemma ValueAtInterval(ch: Chain, i: nat, ts: nat)
    requires WellFormed(ch) && i < |ch| && ch[i].begin < ts <= ch[i].end
    ensures ValueAt(ch, ts) == if ch[i].txn == INVALID_TXN_ID then None else Some(ch[i].value)
  {
    forall j | i < j < |ch| ensures ts <= ch[j].begin {
      BeginsIncrease(ch, i, j);
    }
    ValueAtCovering(ch, i, ts);
  }

  lemma {:induction false} ValueAtBefore(ch: Chain, ts: nat)
    requires forall j | 0 <= j < |ch| :: ts <= ch[j].begin
    ensures ValueAt(ch, ts) == None
  {
    if |ch| > 0 {
      assert ts <= ch[|ch| - 1].begin;
      ValueAtBefore(ch[..|ch| - 1], ts);
    }
  }

  /** ValueAt looks at begin stamps, payloads and tombstones only. */
  predicate SameContents(v: Version, w: Version) {
    v.begin == w.begin && v.value == w.value && (v.txn == INVALID_TXN_ID <==> w.txn == INVALID_TXN_ID)
  }

  lemma {:induction false} ValueAtSame(ch: Chain, ch': Chain, ts: nat)
    requires |ch| == |ch'| && forall i | 0 <= i < |ch| :: ch[i].begin < ts ==> SameContents(ch[i], ch'[i])
    requires forall i | 0 <= i < |ch| :: ch'[i].begin < ts ==> ch[i].begin < ts
    ensures ValueAt(ch, ts) == ValueAt(ch', ts)
  {
    if |ch| > 0 {
      var n := |ch| - 1;
      assert ch[n].begin < ts ==> SameContents(ch[n], ch'[n]);
      ValueAtSame(ch[..n], ch'[..n], ts);
    }
  }

  lemma ValueAtAppend(ch: Chain, v: Version, ts: nat)
    ensures ValueAt(ch + [v], ts) ==
            if v.begin < ts then (if v.txn == INVALID_TXN_ID then None else Some(v.value)) else ValueAt(ch, ts)
  {
    assert (ch + [v])[..|ch|] == ch;
  }

  /** Nothing changes between timestamps where no version was installed. */
  lemma {:induction false} ValueAtGap(ch: Chain, a: nat, b: nat)
    requires a <= b && forall i | 0 <= i < |ch| :: ch[i].begin < a || b <= ch[i].begin
    ensures ValueAt(ch, a) == ValueAt(ch, b)
  {
    if |ch| > 0 {
      assert ch[|ch| - 1].begin < a || b <= ch[|ch| - 1].begin;
      ValueAtGap(ch[..|ch| - 1], a, b);
    }
  }
}
