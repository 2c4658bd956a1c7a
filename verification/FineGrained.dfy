/** Commit and abort one header write at a time, with every other step allowed in between. */
module FineGrained {
  import opened Types
  import opened VersionChain
  import opened Replay
  import opened Protocol

  /** The three ways a finishing transaction can hold versions of a chain: locked by
      select-for-update, overwritten by an update or delete, or inserted. */
  datatype Kind = Locked | Written | Inserted

  /** An unfinished read/write-set entry: `at` is the locked, overwritten or inserted version,
      `end0` the end stamp its pending version had, and `pc` counts the writes already done. */
  datatype Entry = Entry(commit: bool, kind: Kind, at: nat, end0: nat, pc: nat)

  /** `raw` is what memory holds; `todo` lists, per chain, the entries still being finished. */
  datatype Fine = Fine(raw: State, todo: map<Key, map<nat, Entry>>)

  datatype FineStep =
    | Do(step: Step)                 // one protocol step; Commit and Abort only take the decision
    | WriteHeader(c: nat, key: Key)  // the next header write of one entry

  const Start := Fine(Empty, map[])

  /** The entry a transaction has to finish on a chain, if any. */
  function Plan(ch: Chain, c: nat, commit: bool): Option<Entry> {
    if PendingOf(ch, c) then
      if |ch| == 1 then Some(Entry(commit, Inserted, 0, Last(ch).end, 0))
      else Some(Entry(commit, Written, |ch| - 2, Last(ch).end, 0))
    else if |ch| > 0 && Last(ch).txn == c then Some(Entry(commit, Locked, |ch| - 1, MAX_CID, 0))
    else None
  }

  function Total(e: Entry): nat {
    match e.kind
    case Locked => 1
    case Inserted => 3
    case Written => 5
  }

  predicate InRange(ch: Chain, e: Entry) {
    && e.at < |ch|
    && (e.kind.Written? && !(e.pc == 4 && !e.commit) ==> e.at + 1 < |ch|)
  }

  /** The lock word that ends an installed or dropped version. */
  function FinalTxn(e: Entry): nat {
    if e.commit && e.end0 != INVALID_CID then INITIAL_TXN_ID else INVALID_TXN_ID
  }

  /** The header writes of CommitTransaction, in program order. */
  function CommitHeader(ch: Chain, c: nat, e: Entry): Chain
    requires InRange(ch, e) && e.commit
  {
    match e.kind
    case Locked => ch[e.at := ch[e.at].(txn := INITIAL_TXN_ID)]
    case Inserted =>
      if e.pc == 0 then ch[e.at := ch[e.at].(begin := if e.end0 == INVALID_CID then MAX_CID else c)]
      else if e.pc == 1 then ch[e.at := ch[e.at].(end := MAX_CID)]
      else ch[e.at := ch[e.at].(txn := FinalTxn(e))]
    case Written =>
      var newer := e.at + 1;
      if e.pc == 0 then ch[newer := ch[newer].(begin := c)]
      else if e.pc == 1 then ch[newer := ch[newer].(end := ch[e.at].end)]
      else if e.pc == 2 then ch[e.at := ch[e.at].(end := c)]
      else if e.pc == 3 then ch[newer := ch[newer].(txn := FinalTxn(e))]
      else ch[e.at := ch[e.at].(txn := INITIAL_TXN_ID)]
  }

  /** The header writes of AbortTransaction; the fourth one unlinks the new version. */
  function AbortHeader(ch: Chain, c: nat, e: Entry): Chain
    requires InRange(ch, e) && !e.commit
  {
    match e.kind
    case Locked => ch[e.at := ch[e.at].(txn := INITIAL_TXN_ID)]
    case Inserted =>
      if e.pc == 0 then ch[e.at := ch[e.at].(begin := MAX_CID)]
      else if e.pc == 1 then ch[e.at := ch[e.at].(end := MAX_CID)]
      else ch[e.at := ch[e.at].(txn := INVALID_TXN_ID)]
    case Written =>
      var newer := e.at + 1;
      if e.pc == 0 then ch[newer := ch[newer].(begin := MAX_CID)]
      else if e.pc == 1 then ch[newer := ch[newer].(end := MAX_CID)]
      else if e.pc == 2 then ch[newer := ch[newer].(txn := INVALID_TXN_ID)]
      else if e.pc == 3 then ch[..e.at + 1]
      else ch[e.at := ch[e.at].(txn := INITIAL_TXN_ID)]
  }

  function Advance(todo: map<nat, Entry>, c: nat): map<nat, Entry>
    requires c in todo
  {
    var e := todo[c];
    if e.pc + 1 < Total(e) then todo[c := e.(pc := e.pc + 1)] else todo - {c}
  }

  predicate CanWrite(f: Fine, c: nat, k: Key) {
    k in f.raw.chains && k in f.todo && c in f.todo[k] && InRange(f.raw.chains[k], f.todo[k][c])
  }

  function AfterWrite(ch: Chain, c: nat, e: Entry): Chain
    requires InRange(ch, e)
  {
    if e.commit then CommitHeader(ch, c, e) else AbortHeader(ch, c, e)
  }

  function Enlist(todo: map<nat, Entry>, c: nat, plan: Option<Entry>): map<nat, Entry> {
    match plan
    case None => todo
    case Some(e) => todo[c := e]
  }

  /** Taking the decision: the outcome is fixed and every held chain gets an entry to finish. */
  function Decide(f: Fine, c: nat, commit: bool): Fine
    requires IsActive(f.raw, c)
  {
    Fine(f.raw.(txns := Finish(f.raw, c, if commit then Committed else Aborted)),
         map k | k in f.raw.chains ::
           Enlist(if k in f.todo then f.todo[k] else map[], c, Plan(f.raw.chains[k], c, commit)))
  }

  function FineNext(f: Fine, step: FineStep): Fine {
    match step
    case WriteHeader(c, k) =>
      if CanWrite(f, c, k) then
        Fine(f.raw.(chains := f.raw.chains[k := AfterWrite(f.raw.chains[k], c, f.todo[k][c])]),
             f.todo[k := Advance(f.todo[k], c)])
      else f
    case Do(s) =>
      if !Enabled(f.raw, s) then f
      else match s
        case Commit(c) => Decide(f, c, true)
        case Abort(c) => Decide(f, c, false)
        case Insert(_, k, _) => Fine(Apply(f.raw, s), f.todo[k := map[]])
        case _ => Fine(Apply(f.raw, s), f.todo)
  }

  function FineRun(f: Fine, steps: seq<FineStep>): Fine {
    if |steps| == 0 then f else FineNext(FineRun(f, steps[..|steps| - 1]), steps[|steps| - 1])
  }

  // ----- How a half-finished chain relates to the chain with all decisions carried out -----

  /** The form of the versions an entry covers after `pc` writes, given the finished chain. */
  ghost predicate Stage(raw: Chain, done: Chain, c: nat, e: Entry) {
    && IsIssued(c) && e.pc < Total(e) && e.at < |done| <= |raw|
    && (e.end0 == MAX_CID || e.end0 == INVALID_CID)
    && match e.kind
       case Locked =>
         raw[e.at] == done[e.at].(txn := c) && done[e.at].txn == INITIAL_TXN_ID
       case Inserted =>
         && done[e.at].txn == FinalTxn(e) && done[e.at].end == MAX_CID
         && done[e.at].begin == (if FinalTxn(e) == INVALID_TXN_ID then MAX_CID else c)
         && raw[e.at] == done[e.at].(txn := c, end := if e.pc >= 2 then MAX_CID else e.end0,
                                     begin := if e.pc >= 1 then done[e.at].begin else MAX_CID)
       case Written =>
         done[e.at].txn == INITIAL_TXN_ID
         && if e.commit then CommitStage(raw, done, c, e) else AbortStage(raw, done, c, e)
  }

  ghost predicate CommitStage(raw: Chain, done: Chain, c: nat, e: Entry)
    requires e.at < |done| <= |raw|
  {
    && e.at + 1 < |done| && done[e.at].end == c
    && raw[e.at] == done[e.at].(txn := c, end := if e.pc >= 3 then c else MAX_CID)
    && (e.pc < 4 ==>
          && done[e.at + 1].txn == FinalTxn(e) && done[e.at + 1].begin == c && done[e.at + 1].end == MAX_CID
          && raw[e.at + 1] == done[e.at + 1].(txn := c, begin := if e.pc >= 1 then c else MAX_CID,
                                              end := if e.pc >= 2 then MAX_CID else e.end0))
    && (e.pc == 4 && e.end0 == INVALID_CID ==> done[e.at + 1].txn == INVALID_TXN_ID && done[e.at + 1].begin == c)
  }

  ghost predicate AbortStage(raw: Chain, done: Chain, c: nat, e: Entry)
    requires e.at < |done| <= |raw|
  {
    && e.at == |done| - 1
    && raw[e.at] == done[e.at].(txn := c)
    && (e.pc == 4 ==> |raw| == |done|)
    && (e.pc < 4 ==> |raw| == |done| + 1 && Dropped(raw[e.at + 1], c, e))
  }

  predicate Dropped(v: Version, c: nat, e: Entry) {
    && Pending(v)
    && v.txn == (if e.pc >= 3 then INVALID_TXN_ID else c)
    && v.end == (if e.pc >= 2 then MAX_CID else e.end0)
  }

  predicate Unlinking(e: Entry) {
    !e.commit && e.kind.Written? && e.pc < 4
  }

  /** Versions not covered by an entry are finished; a chain longer than its finished form ends
      in a version that is being unlinked. */
  ghost predicate Tracks(raw: Chain, done: Chain, todo: map<nat, Entry>) {
    && |done| > 0
    && (forall c | c in todo :: Stage(raw, done, c, todo[c]))
    && (|raw| == |done| || exists c :: c in todo && Unlinking(todo[c]))
    && (forall i | 0 <= i < |done| ::
          i < |raw| && (raw[i] == done[i] || (raw[i].txn in todo && Covers(todo[raw[i].txn], i))))
  }

  /** The versions that the remaining writes of an entry can still change. */
  predicate Covers(e: Entry, i: nat) {
    i == e.at || (e.kind.Written? && e.pc < 4 && i == e.at + 1)
  }

  /** Chain `k` in memory is the finished chain of `s`, up to the header writes still to come. */
  ghost predicate TrackedAt(f: Fine, s: State, k: Key) {
    && k in f.raw.chains && k in s.chains && k in f.todo
    && Tracks(f.raw.chains[k], s.chains[k], f.todo[k])
  }

  ghost predicate DecidedAt(f: Fine, s: State, k: Key)
    requires k in f.todo
  {
    forall c | c in f.todo[k] :: IsIssued(c) && c in s.txns && !IsActive(s, c)
  }

  ghost predicate Refines(f: Fine, s: State) {
    && f.raw.txns == s.txns
    && f.raw.chains.Keys == s.chains.Keys == f.todo.Keys
    && (forall k | k in s.chains :: TrackedAt(f, s, k))
    && (forall k | k in f.todo :: DecidedAt(f, s, k))
  }
}
