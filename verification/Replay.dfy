/** Serial execution of recorded operations: the reference the protocol is compared with. */
module Replay {
  import opened Types
  import opened VersionChain

  /** A version chain is named by the index entry (indirection slot) that points to its head. */
  type Key = nat

  type Database = map<Key, Value>

  /** What a transaction observed and did, in program order. */
  datatype Op =
    | ReadOp(key: Key, value: Value)
    | GoneOp(key: Key)
    | InsertOp(key: Key, value: Value)
    | UpdateOp(key: Key, value: Value)
    | DeleteOp(key: Key)

  type Log = seq<Op>

  /** One operation on a single-version database; None when the database does not show what
      the operation observed. */
  function Perform(db: Database, op: Op): Option<Database> {
    match op
    case ReadOp(k, v) => if k in db && db[k] == v then Some(db) else None
    case GoneOp(k) => if k in db then None else Some(db)
    case InsertOp(k, v) => if k in db then None else Some(db[k := v])
    case UpdateOp(k, v) => if k in db then Some(db[k := v]) else None
    case DeleteOp(k) => if k in db then Some(db - {k}) else None
  }

  function Replay(db: Database, log: Log): Option<Database> {
    if |log| == 0 then Some(db)
    else match Replay(db, log[..|log| - 1])
      case None => None
      case Some(before) => Perform(before, log[|log| - 1])
  }

  function Keys(log: Log): set<Key> {
    set i | 0 <= i < |log| :: log[i].key
  }

  predicate Agree(a: Database, b: Database, k: Key) {
    (k in a <==> k in b) && (k in a ==> a[k] == b[k])
  }

  lemma ReplayAppend(db: Database, log: Log, op: Op)
    requires Replay(db, log).Some?
    ensures Replay(db, log + [op]) == Perform(Replay(db, log).value, op)
  {
    assert (log + [op])[..|log|] == log;
  }

  lemma KeysSplit(log: Log)
    requires |log| > 0
    ensures Keys(log) == Keys(log[..|log| - 1]) + {log[|log| - 1].key}
  {
    var n := |log| - 1;
    forall k | k in Keys(log) ensures k in Keys(log[..n]) + {log[n].key} {
      var i :| 0 <= i < |log| && log[i].key == k;
      assert i < n ==> log[..n][i].key == k;
    }
  }

  lemma KeysAppend(log: Log, op: Op)
    ensures Keys(log + [op]) == Keys(log) + {op.key}
  {
    KeysSplit(log + [op]);
    assert (log + [op])[..|log|] == log;
  }

  lemma PerformFrame(a: Database, b: Database, op: Op)
    requires Perform(a, op).Some? && Agree(a, b, op.key)
    ensures Perform(b, op).Some? && Agree(Perform(a, op).value, Perform(b, op).value, op.key)
    ensures forall k | k != op.key :: Agree(Perform(a, op).value, a, k) && Agree(Perform(b, op).value, b, k)
  {
  }

  /** Replay reads and writes only the keys its log mentions. */
  lemma {:induction false} ReplayFrame(a: Database, b: Database, log: Log)
    requires Replay(a, log).Some?
    requires forall k | k in Keys(log) :: Agree(a, b, k)
    ensures Replay(b, log).Some?
    ensures forall k | k in Keys(log) :: Agree(Replay(a, log).value, Replay(b, log).value, k)
    ensures forall k | k !in Keys(log) :: Agree(Replay(a, log).value, a, k) && Agree(Replay(b, log).value, b, k)
  {
    if |log| > 0 {
      var n := |log| - 1;
      KeysSplit(log);
      ReplayFrame(a, b, log[..n]);
      PerformFrame(Replay(a, log[..n]).value, Replay(b, log[..n]).value, log[n]);
    }
  }
}
