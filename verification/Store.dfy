/** Tuple slots with their headers and links, and what each manager call does to them. */
module Store {
  import opened Types
  import opened VersionChain
  import opened Replay
  import opened Protocol
  import opened ReadWriteSet

  /** A tile-group header entry: the version fields, the neighbours in the version chain
      (`prev` is newer, `next` is older) and the index entry that holds the chain's head. */
  datatype Slot = Slot(v: Version, prev: Option<Loc>, next: Option<Loc>, entry: Option<Key>)

  datatype Memory = Memory(slots: map<Loc, Slot>, heads: map<Key, Loc>)

  /** `acquired` is the version an executor has locked but not yet put into the write set. */
  datatype Session = Session(phase: Phase, rw: RWSet, acquired: Option<Loc>)

  /** `order` lists the versions of each chain, oldest first. No call reads it. */
  datatype Store = Store(mem: Memory, txns: map<nat, Session>, order: map<Key, seq<Loc>>)

  const EmptyStore := Store(Memory(map[], map[]), map[], map[])

  // ----- Memory effects of the manager's calls -----

  function SetVersion(m: Memory, loc: Loc, v: Version): Memory
    requires loc in m.slots
  {
    m.(slots := m.slots[loc := m.slots[loc].(v := v)])
  }

  /** PerformUpdate and PerformDelete with a new location: link `new'` in front of `old'`. */
  function LinkNewer(m: Memory, c: nat, old': Loc, new': Loc, end: nat, value: Value): Memory
    requires old' in m.slots
  {
    var o := m.slots[old'];
    var entry := if o.prev.None? then o.entry else None;
    var linked := m.slots[old' := o.(prev := Some(new'))]
                         [new' := Slot(Version(c, MAX_CID, end, 0, value), o.prev, Some(old'), entry)];
    Memory(if o.prev.Some? && o.prev.value in linked
           then linked[o.prev.value := linked[o.prev.value].(next := Some(new'))] else linked,
           if entry.Some? then m.heads[entry.value := new'] else m.heads)
  }

  function InsertSlot(m: Memory, c: nat, loc: Loc, key: Key, value: Value): Memory {
    Memory(m.slots[loc := Slot(Version(c, MAX_CID, MAX_CID, 0, value), None, None, Some(key))], m.heads[key := loc])
  }

  predicate Writes(rw: RWSet, loc: Loc) {
    loc in rw && (rw[loc].UPDATE? || rw[loc].DELETE?)
  }

  /** `loc` is the new version of an overwritten version in the write set. */
  predicate IsNewOf(m: Memory, rw: RWSet, loc: Loc, old': Loc) {
    && loc in m.slots && old' in m.slots
    && m.slots[loc].next == Some(old') && m.slots[old'].prev == Some(loc) && Writes(rw, old')
  }

  /** CommitTransaction on one slot. */
  function CommitSlot(m: Memory, rw: RWSet, c: nat, loc: Loc): Slot
    requires loc in m.slots
  {
    var sl := m.slots[loc];
    if loc in rw then
      match rw[loc]
      case READ => sl
      case READ_OWN => sl.(v := sl.v.(txn := INITIAL_TXN_ID))
      case UPDATE => sl.(v := sl.v.(txn := INITIAL_TXN_ID, end := c))
      case DELETE => sl.(v := sl.v.(txn := INITIAL_TXN_ID, end := c))
      case INSERT => sl.(v := sl.v.(txn := INITIAL_TXN_ID, begin := c, end := MAX_CID))
      case INS_DEL => sl.(v := sl.v.(txn := INVALID_TXN_ID, begin := MAX_CID, end := MAX_CID))
    else if sl.next.Some? && IsNewOf(m, rw, loc, sl.next.value) then
      var old' := sl.next.value;
      sl.(v := sl.v.(txn := if rw[old'].UPDATE? then INITIAL_TXN_ID else INVALID_TXN_ID,
                     begin := c, end := m.slots[old'].v.end))
    else sl
  }

  function CommitMemory(m: Memory, rw: RWSet, c: nat): Memory {
    m.(slots := map loc | loc in m.slots :: CommitSlot(m, rw, c, loc))
  }

  /** AbortTransaction on one slot. */
  function AbortSlot(m: Memory, rw: RWSet, c: nat, loc: Loc): Slot
    requires loc in m.slots
  {
    var sl := m.slots[loc];
    var dead := sl.(v := sl.v.(txn := INVALID_TXN_ID, begin := MAX_CID, end := MAX_CID));
    if loc in rw then
      match rw[loc]
      case READ => sl
      case READ_OWN => sl.(v := sl.v.(txn := INITIAL_TXN_ID))
      case UPDATE => sl.(v := sl.v.(txn := INITIAL_TXN_ID), prev := NewerPrev(m, sl))
      case DELETE => sl.(v := sl.v.(txn := INITIAL_TXN_ID), prev := NewerPrev(m, sl))
      case INSERT => dead
      case INS_DEL => dead
    else if sl.next.Some? && IsNewOf(m, rw, loc, sl.next.value) then dead
    else sl
  }

  /** The version in front of the one being dropped. */
  function NewerPrev(m: Memory, sl: Slot): Option<Loc> {
    if sl.prev.Some? && sl.prev.value in m.slots then m.slots[sl.prev.value].prev else None
  }

  /** Index entries that pointed to a dropped version point to the old one again. */
  function AbortHead(m: Memory, rw: RWSet, k: Key): Loc
    requires k in m.heads
  {
    var head := m.heads[k];
    if head in m.slots && m.slots[head].prev.None? && m.slots[head].next.Some?
       && IsNewOf(m, rw, head, m.slots[head].next.value) && head !in rw
    then m.slots[head].next.value else head
  }

  function AbortMemory(m: Memory, rw: RWSet, c: nat): Memory {
    Memory(map loc | loc in m.slots :: AbortSlot(m, rw, c, loc),
           map k | k in m.heads :: AbortHead(m, rw, k))
  }

  // ----- Steps -----

  datatype Call =
    | BeginTxn(c: nat)
    | PerformRead(c: nat, loc: Loc)
    | SeeDeleted(c: nat, loc: Loc)
    | ReadToUpdate(c: nat, loc: Loc)
    | AcquireOwnership(c: nat, loc: Loc)
    | YieldOwnership(c: nat, loc: Loc)
    | PerformUpdate(c: nat, loc: Loc, new': Loc, value: Value)
    | PerformDelete(c: nat, loc: Loc, new': Loc)
    | UpdateInPlace(c: nat, loc: Loc, value: Value)
    | DeleteInPlace(c: nat, loc: Loc)
    | PerformInsert(c: nat, loc: Loc, key: Key, value: Value)
    | CommitTransaction(c: nat)
    | AbortTransaction(c: nat)

  predicate Running(st: Store, c: nat) {
    c in st.txns && st.txns[c].phase.Active?
  }

  /** IsVisible for transaction `c`, which has read id `c`. */
  function Visible(st: Store, c: nat, loc: Loc): Visibility
    requires loc in st.mem.slots && c in st.txns
  {
    var v := st.mem.slots[loc].v;
    var rw := st.txns[c].rw;
    IsVisible(c, c, v.txn, v.begin, v.end, loc in rw && rw[loc].READ_OWN?)
  }

  /** When a call succeeds. Between acquiring a version and installing or yielding it, an
      executor makes no other call. */
  predicate Succeeds(st: Store, call: Call) {
    match call
    case BeginTxn(c) => IsIssued(c) && c !in st.txns
    case PerformInsert(c, loc, key, _) =>
      Running(st, c) && st.txns[c].acquired.None? && loc !in st.mem.slots && key !in st.mem.heads
    case CommitTransaction(c) => Running(st, c) && st.txns[c].acquired.None?
    case AbortTransaction(c) => Running(st, c) && st.txns[c].acquired.None?
    case _ => Running(st, call.c) && call.loc in st.mem.slots && SucceedsAt(st, call, st.mem.slots[call.loc].v)
  }

  predicate SucceedsAt(st: Store, call: Call, v: Version)
    requires Running(st, call.c)
    requires !call.BeginTxn? && !call.PerformInsert? && !call.CommitTransaction? && !call.AbortTransaction?
    requires call.loc in st.mem.slots
  {
    var t := st.txns[call.c];
    match call
    case PerformRead(c, loc) =>
      t.acquired.None? && Visible(st, c, loc).OK? && (v.txn == c || v.txn == INITIAL_TXN_ID)
    case SeeDeleted(c, loc) => t.acquired.None? && Visible(st, c, loc).DELETED?
    case ReadToUpdate(c, loc) =>
      t.acquired.None? && Visible(st, c, loc).OK? && v.txn == INITIAL_TXN_ID && v.end == MAX_CID && v.reader <= c
    case AcquireOwnership(c, loc) =>
      t.acquired.None? && loc in t.rw && t.rw[loc].READ? && v.txn == INITIAL_TXN_ID && v.reader <= c
    case YieldOwnership(c, loc) => t.acquired == Some(loc) && v.txn == c
    case PerformUpdate(c, loc, new', _) => CanWrite(t, loc) && v.txn == c && !Pending(v) && new' !in st.mem.slots
    case PerformDelete(c, loc, new') => CanWrite(t, loc) && v.txn == c && !Pending(v) && new' !in st.mem.slots
    case UpdateInPlace(c, _, _) => t.acquired.None? && v.txn == c && Pending(v) && v.end != INVALID_CID
    case DeleteInPlace(c, _) => t.acquired.None? && v.txn == c && Pending(v) && v.end != INVALID_CID
  }

  /** The version is the one just acquired, or one locked by select-for-update. */
  predicate CanWrite(t: Session, loc: Loc) {
    t.acquired == Some(loc) || (t.acquired.None? && loc in t.rw && t.rw[loc].READ_OWN?)
  }

  function WithTxn(st: Store, mem: Memory, c: nat, t: Session): Store {
    Store(mem, st.txns[c := t], st.order)
  }

  function Append(order: map<Key, seq<Loc>>, entry: Option<Key>, loc: Loc): map<Key, seq<Loc>> {
    if entry.Some? && entry.value in order then order[entry.value := order[entry.value] + [loc]] else order
  }

  /** Chains lose the versions that an abort unlinks. */
  function DropNew(m: Memory, rw: RWSet, vs: seq<Loc>): seq<Loc> {
    if |vs| >= 2 && IsNewOf(m, rw, vs[|vs| - 1], vs[|vs| - 2]) && vs[|vs| - 1] !in rw then vs[..|vs| - 1] else vs
  }

  function Effect(st: Store, call: Call): Store
    requires Succeeds(st, call)
  {
    match call
    case BeginTxn(c) => st.(txns := st.txns[c := Session(Active, map[], None)])
    case PerformInsert(c, loc, key, value) =>
      WithTxn(st, InsertSlot(st.mem, c, loc, key, value), c, st.txns[c].(rw := RecordInsert(st.txns[c].rw, loc)))
      .(order := st.order[key := [loc]])
    case CommitTransaction(c) =>
      WithTxn(st, CommitMemory(st.mem, st.txns[c].rw, c), c, st.txns[c].(phase := Committed))
    case AbortTransaction(c) =>
      WithTxn(st, AbortMemory(st.mem, st.txns[c].rw, c), c, st.txns[c].(phase := Aborted))
      .(order := map k | k in st.order :: DropNew(st.mem, st.txns[c].rw, st.order[k]))
    case _ => EffectAt(st, call, st.txns[call.c], st.mem.slots[call.loc])
  }

  function EffectAt(st: Store, call: Call, t: Session, sl: Slot): Store
    requires !call.BeginTxn? && !call.PerformInsert? && !call.CommitTransaction? && !call.AbortTransaction?
    requires call.loc in st.mem.slots
  {
    var m, c, loc := st.mem, call.c, call.loc;
    match call
    case PerformRead(_, _) =>
      if sl.v.txn == c then st
      else WithTxn(st, SetVersion(m, loc, sl.v.(reader := Max(sl.v.reader, c))), c, t.(rw := RecordRead(t.rw, loc)))
    case SeeDeleted(_, _) => st
    case ReadToUpdate(_, _) =>
      WithTxn(st, SetVersion(m, loc, sl.v.(txn := c, reader := c)), c, t.(rw := RecordReadOwn(t.rw, loc)))
    case AcquireOwnership(_, _) =>
      WithTxn(st, SetVersion(m, loc, sl.v.(txn := c)), c, t.(acquired := Some(loc)))
    case YieldOwnership(_, _) =>
      WithTxn(st, SetVersion(m, loc, sl.v.(txn := INITIAL_TXN_ID)), c, t.(acquired := None))
    case PerformUpdate(_, _, new', value) =>
      WithTxn(st, LinkNewer(m, c, loc, new', MAX_CID, value), c, Session(t.phase, RecordUpdate(t.rw, loc), None))
      .(order := Append(st.order, sl.entry, new'))
    case PerformDelete(_, _, new') =>
      WithTxn(st, LinkNewer(m, c, loc, new', INVALID_CID, sl.v.value), c,
              Session(t.phase, RecordDelete(t.rw, loc), None))
      .(order := Append(st.order, sl.entry, new'))
    case UpdateInPlace(_, _, value) =>
      WithTxn(st, SetVersion(m, loc, sl.v.(value := value)), c,
              t.(rw := if sl.next.Some? then RecordUpdate(t.rw, sl.next.value) else t.rw))
    case DeleteInPlace(_, _) =>
      WithTxn(st, SetVersion(m, loc, sl.v.(end := INVALID_CID)), c,
              t.(rw := RecordDelete(t.rw, if sl.next.Some? then sl.next.value else loc)))
  }

  function StoreNext(st: Store, call: Call): Store {
    if Succeeds(st, call) then Effect(st, call) else st
  }

  function StoreRun(st: Store, calls: seq<Call>): Store {
    if |calls| == 0 then st else StoreNext(StoreRun(st, calls[..|calls| - 1]), calls[|calls| - 1])
  }
}
