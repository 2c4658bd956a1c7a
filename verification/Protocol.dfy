/** The timestamp-ordering protocol as a state machine over all interleavings of its steps. */
module Protocol {
  import opened Types
  import opened VersionChain
  import opened ChainActions
  import opened Replay

  datatype Phase = Active | Committed | Aborted

  datatype Txn = Txn(phase: Phase, log: Log)

  /** Transactions are named by their commit id, which is also their read and transaction id. */
  datatype State = State(chains: map<Key, Chain>, txns: map<nat, Txn>)

  const Empty := State(map[], map[])

  datatype Step =
    | Begin(c: nat)
    | Read(c: nat, key: Key, i: nat)
    | ReadGone(c: nat, key: Key, i: nat)
    | ReadForUpdate(c: nat, key: Key, i: nat)
    | Acquire(c: nat, key: Key, i: nat)
    | Yield(c: nat, key: Key)
    | Update(c: nat, key: Key, value: Value)
    | Delete(c: nat, key: Key)
    | UpdateOwn(c: nat, key: Key, value: Value)
    | DeleteOwn(c: nat, key: Key)
    | Insert(c: nat, key: Key, value: Value)
    | Commit(c: nat)
    | Abort(c: nat)

  predicate IsActive(s: State, c: nat) {
    c in s.txns && s.txns[c].phase.Active?
  }

  predicate IsCommitted(s: State, c: nat) {
    c in s.txns && s.txns[c].phase.Committed?
  }

  /** IsVisible for a serializable transaction looking at version `i` of a chain. A committed
      version that the viewer owns counts as READ_OWN while nothing newer is linked to it. */
  function Sees(ch: Chain, i: nat, c: nat): Visibility
    requires i < |ch|
  {
    IsVisible(c, c, ch[i].txn, ch[i].begin, ch[i].end, i == |ch| - 1 && !Pending(ch[i]))
  }

  predicate Enabled(s: State, step: Step) {
    match step
    case Begin(c) => IsIssued(c) && c !in s.txns
    case Insert(c, k, _) => IsActive(s, c) && k !in s.chains
    case Commit(c) => IsActive(s, c)
    case Abort(c) => IsActive(s, c)
    case _ => IsActive(s, step.c) && step.key in s.chains && OnChain(s.chains[step.key], step)
  }

  /** When a step of an active transaction on an existing chain succeeds. A step that is not
      enabled is a failed call: it changes nothing and its transaction will abort. */
  predicate OnChain(ch: Chain, step: Step) {
    match step
    case Read(c, _, i) => i < |ch| && Sees(ch, i, c).OK? && (ch[i].txn == c || ch[i].txn == INITIAL_TXN_ID)
    case ReadGone(c, _, i) => i < |ch| && Sees(ch, i, c).DELETED?
    case ReadForUpdate(c, _, i) =>
      && i < |ch| && Sees(ch, i, c).OK?
      && ch[i].txn == INITIAL_TXN_ID && ch[i].end == MAX_CID && ch[i].reader <= c
    case Acquire(c, _, i) => i < |ch| && ch[i].txn == INITIAL_TXN_ID && ch[i].reader == c
    case Yield(c, _) => |ch| > 0 && !Pending(Last(ch)) && Last(ch).txn == c
    case Update(c, _, _) => |ch| > 0 && !Pending(Last(ch)) && Last(ch).txn == c
    case Delete(c, _) => |ch| > 0 && !Pending(Last(ch)) && Last(ch).txn == c
    case UpdateOwn(c, _, _) => PendingOf(ch, c) && Last(ch).end != INVALID_CID
    case DeleteOwn(c, _) => PendingOf(ch, c) && Last(ch).end != INVALID_CID
    case _ => false
  }

  function NewChain(ch: Chain, step: Step): Chain
    requires OnChain(ch, step)
  {
    match step
    case Read(c, _, i) => if ch[i].txn == c then ch else MarkRead(ch, i, c)
    case ReadGone(_, _, _) => ch
    case ReadForUpdate(c, _, i) => Claim(ch, i, c)
    case Acquire(c, _, i) => Claim(ch, i, c)
    case Yield(_, _) => Release(ch)
    case Update(c, _, v) => Install(ch, c, MAX_CID, v)
    case Delete(c, _) => Install(ch, c, INVALID_CID, Last(ch).value)
    case UpdateOwn(_, _, v) => Rewrite(ch, MAX_CID, v)
    case DeleteOwn(_, _) => Rewrite(ch, INVALID_CID, Last(ch).value)
  }

  function NewOps(ch: Chain, step: Step): Log
    requires OnChain(ch, step)
  {
    match step
    case Read(_, k, i) => [ReadOp(k, ch[i].value)]
    case ReadGone(_, k, _) => [GoneOp(k)]
    case ReadForUpdate(_, k, i) => [ReadOp(k, ch[i].value)]
    case Acquire(_, _, _) => []
    case Yield(_, _) => []
    case Update(_, k, v) => [UpdateOp(k, v)]
    case Delete(_, k) => [DeleteOp(k)]
    case UpdateOwn(_, k, v) => [UpdateOp(k, v)]
    case DeleteOwn(_, k) => [DeleteOp(k)]
  }

  function Record(s: State, c: nat, key: Key, ch: Chain, ops: Log): State
    requires c in s.txns
  {
    State(s.chains[key := ch], s.txns[c := s.txns[c].(log := s.txns[c].log + ops)])
  }

  function Finish(s: State, c: nat, phase: Phase): map<nat, Txn>
    requires c in s.txns
  {
    s.txns[c := s.txns[c].(phase := phase)]
  }

  function CommitAll(chains: map<Key, Chain>, c: nat): map<Key, Chain> {
    map k | k in chains :: CommitChain(chains[k], c)
  }

  function AbortAll(chains: map<Key, Chain>, c: nat): map<Key, Chain> {
    map k | k in chains :: AbortChain(chains[k], c)
  }

  function Apply(s: State, step: Step): State
    requires Enabled(s, step)
  {
    match step
    case Begin(c) => s.(txns := s.txns[c := Txn(Active, [])])
    case Insert(c, k, v) => Record(s, c, k, Install([], c, MAX_CID, v), [InsertOp(k, v)])
    case Commit(c) => State(CommitAll(s.chains, c), Finish(s, c, Committed))
    case Abort(c) => State(AbortAll(s.chains, c), Finish(s, c, Aborted))
    case _ =>
      var ch := s.chains[step.key];
      Record(s, step.c, step.key, NewChain(ch, step), NewOps(ch, step))
  }

  function Next(s: State, step: Step): State {
    if Enabled(s, step) then Apply(s, step) else s
  }

  /** The state after a sequence of steps of any transactions in any order. */
  function Run(s: State, steps: seq<Step>): State {
    if |steps| == 0 then s else Next(Run(s, steps[..|steps| - 1]), steps[|steps| - 1])
  }

  // ----- The invariant -----

  ghost function Look(chains: map<Key, Chain>, k: Key, ts: nat): Option<Value> {
    if k in chains then ValueAt(chains[k], ts) else None
  }

  ghost function LookOwn(chains: map<Key, Chain>, k: Key, c: nat): Option<Value> {
    if k in chains then OwnValue(chains[k], c) else None
  }

  /** The single-version database just before timestamp `ts`. */
  ghost function View(chains: map<Key, Chain>, ts: nat): Database {
    map k | k in chains && Look(chains, k, ts).Some? :: Look(chains, k, ts).value
  }

  /** The database as transaction `c` sees it, its own writes included. */
  ghost function OwnView(chains: map<Key, Chain>, c: nat): Database {
    map k | k in chains && LookOwn(chains, k, c).Some? :: LookOwn(chains, k, c).value
  }

  ghost predicate ChainOk(s: State, k: Key)
    requires k in s.chains
  {
    && WellFormed(s.chains[k])
    && (forall c | c in Owners(s.chains[k]) :: IsActive(s, c) && k in Keys(s.txns[c].log))
    && (forall c | c in Begins(s.chains[k]) :: IsCommitted(s, c) && k in Keys(s.txns[c].log))
    && (forall c | c in Stamps(s.chains[k]) && c != 0 :: c in s.txns && (IsActive(s, c) ==> k in Keys(s.txns[c].log)))
  }

  ghost predicate KeysStable(chains: map<Key, Chain>, log: Log, c: nat) {
    forall k | k in Keys(log) :: k in chains && Stable(chains[k], c)
  }

  /** A running transaction's log replays, from the database before it, to what it now sees;
      a committed one's replays to the database just after it. */
  ghost predicate TxnOk(s: State, c: nat)
    requires c in s.txns
  {
    && IsIssued(c)
    && (!s.txns[c].phase.Aborted? ==>
          && KeysStable(s.chains, s.txns[c].log, c)
          && Replay.Replay(View(s.chains, c), s.txns[c].log) ==
             Some(if IsActive(s, c) then OwnView(s.chains, c) else View(s.chains, c + 1)))
  }

  ghost predicate Inv(s: State) {
    && (forall k | k in s.chains :: ChainOk(s, k))
    && (forall c | c in s.txns :: TxnOk(s, c))
  }
}
