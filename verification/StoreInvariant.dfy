/** The invariant of the linked store and its relation to the protocol's version chains. */
module StoreInvariant {
  import opened Types
  import opened VersionChain
  import opened Replay
  import opened Protocol
  import opened ReadWriteSet
  import opened Store

  // ----- Version lists -----

  ghost predicate Distinct(vs: seq<Loc>) {
    forall i, j | 0 <= i < j < |vs| :: vs[i] != vs[j]
  }

  /** `vs` is the doubly linked chain of index entry `k`: oldest first, head last, no cycles. */
  ghost predicate Linked(m: Memory, k: Key, vs: seq<Loc>) {
    && |vs| > 0 && Distinct(vs)
    && k in m.heads && m.heads[k] == vs[|vs| - 1]
    && (forall i | 0 <= i < |vs| :: vs[i] in m.slots && m.slots[vs[i]].entry == Some(k))
    && (forall i | 0 <= i < |vs| :: Neighbours(m, vs, i))
  }

  /** The links of the `i`-th version of a list. */
  predicate Neighbours(m: Memory, vs: seq<Loc>, i: nat)
    requires i < |vs|
  {
    && vs[i] in m.slots
    && m.slots[vs[i]].next == (if i == 0 then None else Some(vs[i - 1]))
    && m.slots[vs[i]].prev == (if i == |vs| - 1 then None else Some(vs[i + 1]))
  }

  predicate OnList(st: Store, loc: Loc) {
    && loc in st.mem.slots && st.mem.slots[loc].entry.Some?
    && st.mem.slots[loc].entry.value in st.order && loc in st.order[st.mem.slots[loc].entry.value]
  }

  /** A slot that an abort has unlinked: no transaction can see it. */
  predicate Dead(v: Version) {
    v.txn == INVALID_TXN_ID && v.begin == MAX_CID && v.end == MAX_CID
  }

  ghost predicate Links(st: Store) {
    && st.order.Keys == st.mem.heads.Keys
    && (forall k | k in st.order :: Linked(st.mem, k, st.order[k]))
    && (forall loc | loc in st.mem.slots :: OnList(st, loc) || Dead(st.mem.slots[loc].v))
  }

  function VersionIn(slots: map<Loc, Slot>, loc: Loc): Version {
    if loc in slots then slots[loc].v else Version(INVALID_TXN_ID, MAX_CID, MAX_CID, 0, 0)
  }

  function ChainOf(slots: map<Loc, Slot>, vs: seq<Loc>): Chain {
    seq(|vs|, i requires 0 <= i < |vs| => VersionIn(slots, vs[i]))
  }

  // ----- Read/write sets and locks -----

  predicate NewestOnList(st: Store, loc: Loc) {
    OnList(st, loc) && st.mem.slots[loc].prev.None?
  }

  /** What each kind of entry of a running transaction says about its version. */
  predicate EntryOk(st: Store, c: nat, loc: Loc)
    requires c in st.txns && loc in st.txns[c].rw
  {
    var rw := st.txns[c].rw;
    && OnList(st, loc)
    && var sl := st.mem.slots[loc];
       match rw[loc]
       case READ => !Pending(sl.v) && c <= sl.v.reader && (sl.v.txn == c ==> st.txns[c].acquired == Some(loc))
       case READ_OWN => !Pending(sl.v) && sl.v.txn == c && sl.prev.None?
       case UPDATE => !Pending(sl.v) && sl.v.txn == c && sl.prev.Some? &&
       PendingOver(st, c, sl.prev.value, loc, MAX_CID)
       case DELETE => !Pending(sl.v) && sl.v.txn == c && sl.prev.Some? &&
       PendingOver(st, c, sl.prev.value, loc, INVALID_CID)
       case INSERT => Pending(sl.v) && sl.v.txn == c && sl.next.None? && sl.v.end == MAX_CID
       case INS_DEL => Pending(sl.v) && sl.v.txn == c && sl.next.None? && sl.v.end == INVALID_CID
  }

  predicate PendingOver(st: Store, c: nat, new': Loc, old': Loc, end: nat) {
    && c in st.txns && NewestOnList(st, new') && new' !in st.txns[c].rw
    && var sl := st.mem.slots[new'];
       Pending(sl.v) && sl.v.txn == c && sl.next == Some(old') && sl.v.end == end
  }

  /** Every locked version is accounted for: it is the one just acquired, or it has an entry
      that commit and abort will release, or it is the new version of such an entry. */
  predicate Accounted(st: Store, c: nat, loc: Loc)
    requires c in st.txns && loc in st.mem.slots
  {
    var rw, sl := st.txns[c].rw, st.mem.slots[loc];
    || st.txns[c].acquired == Some(loc)
    || (loc in rw && !rw[loc].READ?)
    || (loc !in rw && Pending(sl.v) && sl.next.Some? && IsNewOf(st.mem, rw, loc, sl.next.value))
  }

  predicate SlotOk(st: Store, loc: Loc)
    requires loc in st.mem.slots
  {
    var c := st.mem.slots[loc].v.txn;
    IsIssued(c) ==> Running(st, c) && Accounted(st, c, loc)
  }

  /** A version that was acquired but not yet written: read before, and the newest. */
  predicate AcquiredOk(st: Store, c: nat, loc: Loc)
    requires c in st.txns
  {
    && loc in st.txns[c].rw && st.txns[c].rw[loc].READ?
    && NewestOnList(st, loc) && !Pending(st.mem.slots[loc].v) && st.mem.slots[loc].v.txn == c
  }

  predicate SessionOk(st: Store, c: nat)
    requires c in st.txns
  {
    && IsIssued(c)
    && (Running(st, c) ==> forall loc | loc in st.txns[c].rw :: EntryOk(st, c, loc))
    && (Running(st, c) && st.txns[c].acquired.Some? ==> AcquiredOk(st, c, st.txns[c].acquired.value))
  }

  ghost predicate StoreInv(st: Store) {
    && Links(st)
    && (forall c | c in st.txns :: SessionOk(st, c))
    && (forall loc | loc in st.mem.slots :: SlotOk(st, loc))
  }

  ghost predicate RepresentsAt(st: Store, s: State, k: Key) {
    k in st.order && k in s.chains && s.chains[k] == ChainOf(st.mem.slots, st.order[k])
  }

  ghost predicate SamePhases(st: Store, s: State) {
    && st.txns.Keys == s.txns.Keys
    && (forall c | c in s.txns :: st.txns[c].phase == s.txns[c].phase)
  }

  /** The store represents the protocol state `s`. */
  ghost predicate Represents(st: Store, s: State) {
    && st.order.Keys == s.chains.Keys
    && (forall k | k in st.order :: RepresentsAt(st, s, k))
    && SamePhases(st, s)
  }

  // ----- Finding a version on its list -----

  function IndexOf(vs: seq<Loc>, loc: Loc): (i: nat)
    requires loc in vs
    ensures i < |vs| && vs[i] == loc
  {
    if vs[|vs| - 1] == loc then |vs| - 1 else
      assert loc in vs[..|vs| - 1]; IndexOf(vs[..|vs| - 1], loc)
  }

  lemma KeyOf(st: Store, k: Key, i: nat)
    requires Links(st) && k in st.order && i < |st.order[k]|
    ensures st.order[k][i] in st.mem.slots && st.mem.slots[st.order[k][i]].entry == Some(k) &&
            OnList(st, st.order[k][i])
  {
    assert Linked(st.mem, k, st.order[k]);
  }

  // ----- Updates of one slot -----

  lemma SetVersionLinked(m: Memory, loc: Loc, v: Version, k: Key, vs: seq<Loc>)
    requires Linked(m, k, vs) && loc in m.slots
    ensures Linked(SetVersion(m, loc, v), k, vs)
  {
    forall i | 0 <= i < |vs| ensures Neighbours(SetVersion(m, loc, v), vs, i) {
      assert Neighbours(m, vs, i);
    }
  }

  lemma SetVersionLinks(st: Store, st': Store, loc: Loc, v: Version)
    requires Links(st) && OnList(st, loc) && st'.mem == SetVersion(st.mem, loc, v) && st'.order == st.order
    ensures Links(st')
  {
    forall j | j in st'.order ensures Linked(st'.mem, j, st'.order[j]) {
      SetVersionLinked(st.mem, loc, v, j, st.order[j]);
    }
    forall l | l in st'.mem.slots ensures OnList(st', l) || Dead(st'.mem.slots[l].v) {
      assert OnList(st, l) || Dead(st.mem.slots[l].v);
      assert st'.mem.slots[l].entry == st.mem.slots[l].entry;
    }
  }

  /** Changing one version's fields changes exactly that version of its chain. */
  lemma SetVersionChain(m: Memory, k: Key, vs: seq<Loc>, i: nat, v: Version, j: Key, ws: seq<Loc>)
    requires Linked(m, k, vs) && i < |vs| && Linked(m, j, ws) && (j == k ==> ws == vs)
    ensures ChainOf(SetVersion(m, vs[i], v).slots, ws) ==
            if j == k then ChainOf(m.slots, vs)[i := v] else ChainOf(m.slots, ws)
  {
    var m' := SetVersion(m, vs[i], v);
    if j == k {
      assert forall n | 0 <= n < |vs| && n != i :: vs[n] != vs[i];
    }
  }

  /** Chain `k` of the store is a proper list and represents chain `k` of `s`. */
  ghost predicate Placed(st: Store, s: State, k: Key) {
    RepresentsAt(st, s, k) && Linked(st.mem, k, st.order[k])
  }

  lemma SetVersionPlaced(st: Store, s: State, st': Store, s': State, loc: Loc, k: Key, v: Version, j: Key)
    requires Placed(st, s, j) && Placed(st, s, k) && loc in st.order[k]
    requires st'.mem == SetVersion(st.mem, loc, v) && st'.order == st.order
    requires s'.chains == s.chains[k := s.chains[k][IndexOf(st.order[k], loc) := v]]
    ensures RepresentsAt(st', s', j)
  {
    SetVersionChain(st.mem, k, st.order[k], IndexOf(st.order[k], loc), v, j, st.order[j]);
  }

  lemma SetVersionRepresents(st: Store, s: State, st': Store, s': State, loc: Loc, k: Key, v: Version)
    requires Links(st) && Represents(st, s) && SamePhases(st', s')
    requires OnList(st, loc) && st.mem.slots[loc].entry == Some(k)
    requires st'.mem == SetVersion(st.mem, loc, v) && st'.order == st.order && k in s.chains
    requires IndexOf(st.order[k], loc) < |s.chains[k]|
    requires s'.chains == s.chains[k := s.chains[k][IndexOf(st.order[k], loc) := v]]
    ensures Represents(st', s')
  {
    forall j | j in st.order ensures RepresentsAt(st', s', j) {
      assert RepresentsAt(st, s, j) && RepresentsAt(st, s, k);
      assert Placed(st, s, j) && Placed(st, s, k);
      SetVersionPlaced(st, s, st', s', loc, k, v, j);
    }
  }
}
