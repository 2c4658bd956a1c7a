/** Commit and abort process the read/write set entry by entry, in any order. */
module CommitLoop {
  import opened Types
  import opened VersionChain
  import opened Replay
  import opened ReadWriteSet
  import opened Store

  type Slots = map<Loc, Slot>

  // ----- Header writes -----

  function SetTransactionId(s: Slots, loc: Loc, t: nat): Slots
    requires loc in s
  {
    s[loc := s[loc].(v := s[loc].v.(txn := t))]
  }

  function SetBeginCommitId(s: Slots, loc: Loc, c: nat): Slots
    requires loc in s
  {
    s[loc := s[loc].(v := s[loc].v.(begin := c))]
  }

  function SetEndCommitId(s: Slots, loc: Loc, c: nat): Slots
    requires loc in s
  {
    s[loc := s[loc].(v := s[loc].v.(end := c))]
  }

  function SetPrev(s: Slots, loc: Loc, p: Option<Loc>): Slots
    requires loc in s
  {
    s[loc := s[loc].(prev := p)]
  }

  function SetNext(s: Slots, loc: Loc, n: Option<Loc>): Slots
    requires loc in s
  {
    s[loc := s[loc].(next := n)]
  }

  // ----- The part of the write set that has been processed -----

  function Restrict(rw: RWSet, done: set<Loc>): RWSet {
    map loc | loc in rw && loc in done :: rw[loc]
  }

  /** Every written version has no end stamp yet and has its own new version, which has no entry
      itself, is the newest of its chain and is what the chain's index entry points to. */
  ghost predicate Separated(m: Memory, rw: RWSet) {
    && (forall loc | loc in rw :: loc in m.slots)
    && (forall loc | loc in rw && Writes(rw, loc) :: HasNew(m, rw, loc))
    && (forall k | k in m.heads :: m.heads[k] in m.slots && m.slots[m.heads[k]].entry == Some(k))
  }

  predicate HasNew(m: Memory, rw: RWSet, loc: Loc) {
    && loc in m.slots && m.slots[loc].prev.Some? && m.slots[loc].entry.Some? && m.slots[loc].v.end == MAX_CID
    && var new' := m.slots[loc].prev.value;
       && new' in m.slots && new' !in rw && m.slots[new'].next == Some(loc) && m.slots[new'].prev.None?
       && m.slots[loc].entry.value in m.heads && m.heads[m.slots[loc].entry.value] == new'
  }

  lemma SameSlots(a: Slots, b: Slots)
    requires a.Keys == b.Keys && forall l | l in a :: a[l] == b[l]
    ensures a == b
  {
  }

  /** Entry `loc` of kind `t` can be processed: a written version is open and has a new version. */
  predicate Processable(s: Slots, loc: Loc, t: RWType) {
    && loc in s
    && (t.UPDATE? || t.DELETE? ==>
          && s[loc].prev.Some? && s[loc].prev.value in s && s[loc].prev.value != loc
          && s[s[loc].prev.value].prev.None? && s[loc].entry.Some? && s[loc].v.end == MAX_CID)
  }

  /** Entry `loc` of kind `t` of transaction `c`, which holds the versions it has to write. */
  predicate HeldEntry(s: Slots, c: nat, loc: Loc, t: RWType) {
    && Processable(s, loc, t)
    && (!t.READ? ==> s[loc].v.txn == c)
    && (t.READ_OWN? ==> s[loc].v.end == MAX_CID)
    && (t.UPDATE? || t.DELETE? ==>
          && !Pending(s[loc].v) && Pending(s[s[loc].prev.value].v) && s[s[loc].prev.value].v.txn == c)
  }

  // ----- Commit -----

  /** The header writes of CommitTransaction for one entry. */
  function CommitWrites(s: Slots, c: nat, loc: Loc, t: RWType): Slots
    requires Processable(s, loc, t)
  {
    match t
    case READ => s
    case READ_OWN => SetTransactionId(s, loc, INITIAL_TXN_ID)
    case INSERT => s[loc := s[loc].(v := s[loc].v.(txn := INITIAL_TXN_ID, begin := c, end := MAX_CID))]
    case INS_DEL => s[loc := s[loc].(v := s[loc].v.(txn := INVALID_TXN_ID, begin := MAX_CID, end := MAX_CID))]
    case _ =>
      var new' := s[loc].prev.value;
      s[loc := s[loc].(v := s[loc].v.(txn := INITIAL_TXN_ID, end := c))]
       [new' := s[new'].(v := s[new'].v.(txn := if t.UPDATE? then INITIAL_TXN_ID else INVALID_TXN_ID,
                                         begin := c, end := s[loc].v.end))]
  }

  /** Committed so far: the entries in `done`. */
  function Committing(m: Memory, rw: RWSet, done: set<Loc>, c: nat): Slots {
    CommitMemory(m, Restrict(rw, done), c).slots
  }

  /** Processing one more entry leaves the rest of the committed memory as it is. */
  lemma CommitOneMore(m: Memory, rw: RWSet, done: set<Loc>, c: nat, loc: Loc)
    requires Separated(m, rw) && loc in rw && loc !in done
    ensures var s := Committing(m, rw, done, c);
            && Processable(s, loc, rw[loc])
            && CommitWrites(s, c, loc, rw[loc]) == Committing(m, rw, done + {loc}, c)
  {
    var s, s' := Committing(m, rw, done, c), Committing(m, rw, done + {loc}, c);
    CommitUntouched(m, rw, done, c, loc);
    var t := CommitWrites(s, c, loc, rw[loc]);
    forall l | l in t ensures t[l] == s'[l] {
      CommitOneSlot(m, rw, done, c, loc, l);
    }
    SameSlots(t, s');
  }

  /** The slots of an entry are as they were until the entry is processed. */
  lemma CommitUntouched(m: Memory, rw: RWSet, done: set<Loc>, c: nat, loc: Loc)
    requires Separated(m, rw) && loc in rw && loc !in done
    ensures loc in m.slots && Committing(m, rw, done, c)[loc] == m.slots[loc]
    ensures Writes(rw, loc) ==>
              HasNew(m, rw, loc) &&
              Committing(m, rw, done, c)[m.slots[loc].prev.value] == m.slots[m.slots[loc].prev.value]
  {
    var sl := m.slots[loc];
    if sl.next.Some? && sl.next.value in rw && Writes(rw, sl.next.value) {
      assert HasNew(m, rw, sl.next.value);
    }
    assert Writes(rw, loc) ==> HasNew(m, rw, loc);
  }

  lemma CommitOneSlot(m: Memory, rw: RWSet, done: set<Loc>, c: nat, loc: Loc, l: Loc)
    requires Separated(m, rw) && loc in rw && loc !in done && l in m.slots
    requires Committing(m, rw, done, c)[loc] == m.slots[loc] && (Writes(rw, loc) ==> HasNew(m, rw, loc))
    requires Writes(rw, loc) ==> Committing(m, rw, done, c)[m.slots[loc].prev.value] == m.slots[m.slots[loc].prev.value]
    ensures CommitWrites(Committing(m, rw, done, c), c, loc, rw[loc])[l] == Committing(m, rw, done + {loc}, c)[l]
  {
    var s, rw0, rw1 := Committing(m, rw, done, c), Restrict(rw, done), Restrict(rw, done + {loc});
    var sl := m.slots[l];
    assert s[l] == CommitSlot(m, rw0, c, l);
    assert Committing(m, rw, done + {loc}, c)[l] == CommitSlot(m, rw1, c, l);
    if l != loc && !(Writes(rw, loc) && m.slots[loc].prev == Some(l)) {
      assert sl.next == Some(loc) ==> !IsNewOf(m, rw1, l, loc);
      assert CommitSlot(m, rw0, c, l) == CommitSlot(m, rw1, c, l);
    }
  }

  // ----- Abort -----

  /** The header writes of AbortTransaction for one entry. */
  function AbortWrites(s: Slots, loc: Loc, t: RWType): Slots
    requires Processable(s, loc, t)
  {
    match t
    case READ => s
    case READ_OWN => SetTransactionId(s, loc, INITIAL_TXN_ID)
    case INSERT => s[loc := s[loc].(v := s[loc].v.(txn := INVALID_TXN_ID, begin := MAX_CID, end := MAX_CID))]
    case INS_DEL => s[loc := s[loc].(v := s[loc].v.(txn := INVALID_TXN_ID, begin := MAX_CID, end := MAX_CID))]
    case _ =>
      var new' := s[loc].prev.value;
      s[loc := s[loc].(v := s[loc].v.(txn := INITIAL_TXN_ID), prev := s[new'].prev)]
       [new' := s[new'].(v := s[new'].v.(txn := INVALID_TXN_ID, begin := MAX_CID, end := MAX_CID))]
  }

  function Aborting(m: Memory, rw: RWSet, done: set<Loc>, c: nat): Memory {
    AbortMemory(m, Restrict(rw, done), c)
  }

  lemma AbortOneMore(m: Memory, rw: RWSet, done: set<Loc>, c: nat, loc: Loc)
    requires Separated(m, rw) && loc in rw && loc !in done
    ensures var s := Aborting(m, rw, done, c).slots;
            && Processable(s, loc, rw[loc])
            && AbortWrites(s, loc, rw[loc]) == Aborting(m, rw, done + {loc}, c).slots
  {
    var s, s' := Aborting(m, rw, done, c).slots, Aborting(m, rw, done + {loc}, c).slots;
    AbortUntouched(m, rw, done, c, loc);
    var t := AbortWrites(s, loc, rw[loc]);
    forall l | l in t ensures t[l] == s'[l] {
      AbortOneSlot(m, rw, done, c, loc, l);
    }
    SameSlots(t, s');
  }

  lemma AbortUntouched(m: Memory, rw: RWSet, done: set<Loc>, c: nat, loc: Loc)
    requires Separated(m, rw) && loc in rw && loc !in done
    ensures loc in m.slots && Aborting(m, rw, done, c).slots[loc] == m.slots[loc]
    ensures Writes(rw, loc) ==>
              HasNew(m, rw, loc) &&
              Aborting(m, rw, done, c).slots[m.slots[loc].prev.value] == m.slots[m.slots[loc].prev.value]
  {
    var sl := m.slots[loc];
    if sl.next.Some? && sl.next.value in rw && Writes(rw, sl.next.value) {
      assert HasNew(m, rw, sl.next.value);
    }
    assert Writes(rw, loc) ==> HasNew(m, rw, loc);
  }

  lemma AbortOneSlot(m: Memory, rw: RWSet, done: set<Loc>, c: nat, loc: Loc, l: Loc)
    requires Separated(m, rw) && loc in rw && loc !in done && l in m.slots
    requires Aborting(m, rw, done, c).slots[loc] == m.slots[loc] && (Writes(rw, loc) ==> HasNew(m, rw, loc))
    requires Writes(rw, loc) ==>
               Aborting(m, rw, done, c).slots[m.slots[loc].prev.value] == m.slots[m.slots[loc].prev.value]
    ensures AbortWrites(Aborting(m, rw, done, c).slots, loc, rw[loc])[l] == Aborting(m, rw, done + {loc}, c).slots[l]
  {
    var s, rw0, rw1 := Aborting(m, rw, done, c).slots, Restrict(rw, done), Restrict(rw, done + {loc});
    var sl := m.slots[l];
    assert s[l] == AbortSlot(m, rw0, c, l);
    assert Aborting(m, rw, done + {loc}, c).slots[l] == AbortSlot(m, rw1, c, l);
    if l != loc && !(Writes(rw, loc) && m.slots[loc].prev == Some(l)) {
      assert sl.next == Some(loc) ==> !IsNewOf(m, rw1, l, loc);
      assert AbortSlot(m, rw0, c, l) == AbortSlot(m, rw1, c, l);
    }
  }

  /** The index entry of a written version's chain goes back to that version; no other moves. */
  lemma AbortOneHead(m: Memory, rw: RWSet, done: set<Loc>, c: nat, loc: Loc)
    requires Separated(m, rw) && loc in rw && loc !in done
    ensures var heads, heads' := Aborting(m, rw, done, c).heads, Aborting(m, rw, done + {loc}, c).heads;
            if Writes(rw, loc) then m.slots[loc].entry.Some? && heads' == heads[m.slots[loc].entry.value := loc]
            else heads' == heads
  {
    var rw0, rw1 := Restrict(rw, done), Restrict(rw, done + {loc});
    assert Writes(rw, loc) ==> HasNew(m, rw, loc);
    forall k | k in m.heads
      ensures AbortHead(m, rw1, k) == if Writes(rw, loc) && m.slots[loc].entry == Some(k) then loc
                                      else AbortHead(m, rw0, k)
    {
      AbortHeadAt(m, rw, done, loc, k);
    }
  }

  lemma AbortHeadAt(m: Memory, rw: RWSet, done: set<Loc>, loc: Loc, k: Key)
    requires Separated(m, rw) && loc in rw && loc !in done && k in m.heads
    ensures AbortHead(m, Restrict(rw, done + {loc}), k) ==
            if Writes(rw, loc) && m.slots[loc].entry == Some(k) then loc else AbortHead(m, Restrict(rw, done), k)
  {
    var head := m.heads[k];
    assert Writes(rw, loc) ==> HasNew(m, rw, loc);
    assert m.slots[head].entry == Some(k);
    if head in rw && m.slots[head].next.Some? && m.slots[head].next.value in rw
       && Writes(rw, m.slots[head].next.value) {
      assert HasNew(m, rw, m.slots[head].next.value);
    }
  }

  // ----- What is handed to the garbage collector -----

  /** Versions to recycle, and whether their index entry goes too. */
  type GCSet = map<Loc, bool>

  function CommitGarbageAt(m: Memory, rw: RWSet, l: Loc): Option<bool>
    requires l in m.slots
  {
    if l in rw then
      if rw[l].UPDATE? then Some(false) else if rw[l].DELETE? || rw[l].INS_DEL? then Some(true) else None
    else if m.slots[l].next.Some? && IsNewOf(m, rw, l, m.slots[l].next.value) && rw[m.slots[l].next.value].DELETE?
    then Some(false) else None
  }

  /** Overwritten versions, tombstones and tuples that were inserted and deleted again. */
  function CommitGarbage(m: Memory, rw: RWSet): GCSet {
    map l | l in m.slots && CommitGarbageAt(m, rw, l).Some? :: CommitGarbageAt(m, rw, l).value
  }

  function AbortGarbageAt(m: Memory, rw: RWSet, l: Loc): Option<bool>
    requires l in m.slots
  {
    if l in rw then
      if rw[l].INSERT? || rw[l].INS_DEL? then Some(true) else None
    else if m.slots[l].next.Some? && IsNewOf(m, rw, l, m.slots[l].next.value) then Some(false) else None
  }

  /** Everything the aborted transaction created. */
  function AbortGarbage(m: Memory, rw: RWSet): GCSet {
    map l | l in m.slots && AbortGarbageAt(m, rw, l).Some? :: AbortGarbageAt(m, rw, l).value
  }

  function Recycled(gc: GCSet, loc: Loc): Option<bool> {
    if loc in gc then Some(gc[loc]) else None
  }

  lemma SameGCSet(a: GCSet, b: GCSet)
    requires forall l :: Recycled(a, l) == Recycled(b, l)
    ensures a == b
  {
    forall l ensures l in a <==> l in b {
      assert Recycled(a, l) == Recycled(b, l);
    }
    forall l | l in a ensures a[l] == b[l] {
      assert Recycled(a, l) == Recycled(b, l);
    }
  }

  /** What CommitTransaction adds to the garbage set for one entry. */
  function CommitRecycles(gc: GCSet, loc: Loc, t: RWType, new': Loc): GCSet {
    match t
    case UPDATE => gc[loc := false]
    case DELETE => gc[loc := true][new' := false]
    case INS_DEL => gc[loc := true]
    case _ => gc
  }

  function AbortRecycles(gc: GCSet, loc: Loc, t: RWType, new': Loc): GCSet {
    match t
    case UPDATE => gc[new' := false]
    case DELETE => gc[new' := false]
    case INSERT => gc[loc := true]
    case INS_DEL => gc[loc := true]
    case _ => gc
  }

  /** The new version that an entry stands for, if it is a write. */
  function NewOf(m: Memory, loc: Loc): Loc {
    if loc in m.slots && m.slots[loc].prev.Some? then m.slots[loc].prev.value else loc
  }

  lemma CommitGarbageOneMore(m: Memory, rw: RWSet, done: set<Loc>, loc: Loc)
    requires Separated(m, rw) && loc in rw && loc !in done
    ensures CommitRecycles(CommitGarbage(m, Restrict(rw, done)), loc, rw[loc], NewOf(m, loc))
            == CommitGarbage(m, Restrict(rw, done + {loc}))
  {
    var gc, gc' := CommitGarbage(m, Restrict(rw, done)), CommitGarbage(m, Restrict(rw, done + {loc}));
    var e := CommitRecycles(gc, loc, rw[loc], NewOf(m, loc));
    assert Writes(rw, loc) ==> HasNew(m, rw, loc);
    forall l ensures Recycled(e, l) == Recycled(gc', l) {
      CommitGarbageStep(m, rw, done, loc, l);
    }
    SameGCSet(e, gc');
  }

  lemma CommitGarbageStep(m: Memory, rw: RWSet, done: set<Loc>, loc: Loc, l: Loc)
    requires Separated(m, rw) && loc in rw && loc !in done && (Writes(rw, loc) ==> HasNew(m, rw, loc))
    ensures var gc, gc' := CommitGarbage(m, Restrict(rw, done)), CommitGarbage(m, Restrict(rw, done + {loc}));
            Recycled(CommitRecycles(gc, loc, rw[loc], NewOf(m, loc)), l) == Recycled(gc', l)
  {
    if l in m.slots && m.slots[l].next.Some? && Writes(rw, m.slots[l].next.value) {
      assert HasNew(m, rw, m.slots[l].next.value);
    }
  }

  lemma AbortGarbageOneMore(m: Memory, rw: RWSet, done: set<Loc>, loc: Loc)
    requires Separated(m, rw) && loc in rw && loc !in done
    ensures AbortRecycles(AbortGarbage(m, Restrict(rw, done)), loc, rw[loc], NewOf(m, loc))
            == AbortGarbage(m, Restrict(rw, done + {loc}))
  {
    var gc, gc' := AbortGarbage(m, Restrict(rw, done)), AbortGarbage(m, Restrict(rw, done + {loc}));
    var e := AbortRecycles(gc, loc, rw[loc], NewOf(m, loc));
    assert Writes(rw, loc) ==> HasNew(m, rw, loc);
    forall l ensures Recycled(e, l) == Recycled(gc', l) {
      AbortGarbageStep(m, rw, done, loc, l);
    }
    SameGCSet(e, gc');
  }

  lemma AbortGarbageStep(m: Memory, rw: RWSet, done: set<Loc>, loc: Loc, l: Loc)
    requires Separated(m, rw) && loc in rw && loc !in done && (Writes(rw, loc) ==> HasNew(m, rw, loc))
    ensures var gc, gc' := AbortGarbage(m, Restrict(rw, done)), AbortGarbage(m, Restrict(rw, done + {loc}));
            Recycled(AbortRecycles(gc, loc, rw[loc], NewOf(m, loc)), l) == Recycled(gc', l)
  {
    if l in m.slots && m.slots[l].next.Some? && Writes(rw, m.slots[l].next.value) {
      assert HasNew(m, rw, m.slots[l].next.value);
    }
  }

  lemma NothingDone(m: Memory, rw: RWSet, c: nat)
    ensures Committing(m, rw, {}, c) == m.slots && CommitGarbage(m, Restrict(rw, {})) == map[]
    ensures Aborting(m, rw, {}, c) == m && AbortGarbage(m, Restrict(rw, {})) == map[]
  {
    var none := Restrict(rw, {});
    SameSlots(Committing(m, rw, {}, c), m.slots);
    SameSlots(Aborting(m, rw, {}, c).slots, m.slots);
  }

  lemma AllDone(m: Memory, rw: RWSet, done: set<Loc>, c: nat)
    requires forall loc | loc in rw :: loc in done
    ensures Committing(m, rw, done, c) == CommitMemory(m, rw, c).slots &&
            Aborting(m, rw, done, c) == AbortMemory(m, rw, c)
    ensures CommitMemory(m, rw, c).heads == m.heads
    ensures CommitGarbage(m, Restrict(rw, done)) == CommitGarbage(m, rw)
    ensures AbortGarbage(m, Restrict(rw, done)) == AbortGarbage(m, rw)
  {
    assert Restrict(rw, done) == rw;
  }

  // ----- One more entry, all effects together -----

  lemma CommitStep(m: Memory, rw: RWSet, done: set<Loc>, c: nat, loc: Loc)
    requires Separated(m, rw) && loc in rw && loc !in done
    ensures var s := Committing(m, rw, done, c);
            && Processable(s, loc, rw[loc])
            && CommitWrites(s, c, loc, rw[loc]) == Committing(m, rw, done + {loc}, c)
            && CommitRecycles(CommitGarbage(m, Restrict(rw, done)), loc, rw[loc], NewOf(Memory(s, m.heads), loc))
               == CommitGarbage(m, Restrict(rw, done + {loc}))
  {
    CommitOneMore(m, rw, done, c, loc);
    CommitUntouched(m, rw, done, c, loc);
    CommitGarbageOneMore(m, rw, done, loc);
  }

  lemma AbortStep(m: Memory, rw: RWSet, done: set<Loc>, c: nat, loc: Loc)
    requires Separated(m, rw) && loc in rw && loc !in done
    ensures var m0, m1 := Aborting(m, rw, done, c), Aborting(m, rw, done + {loc}, c);
            && Processable(m0.slots, loc, rw[loc])
            && AbortWrites(m0.slots, loc, rw[loc]) == m1.slots
            && AbortHeads(m0, loc, rw[loc]) == m1.heads
            && AbortRecycles(AbortGarbage(m, Restrict(rw, done)), loc, rw[loc], NewOf(m0, loc))
               == AbortGarbage(m, Restrict(rw, done + {loc}))
  {
    AbortOneMore(m, rw, done, c, loc);
    AbortUntouched(m, rw, done, c, loc);
    AbortOneHead(m, rw, done, c, loc);
    AbortGarbageOneMore(m, rw, done, loc);
  }

  /** The index entry of a written version points to that version again. */
  function AbortHeads(m: Memory, loc: Loc, t: RWType): map<Key, Loc>
    requires Processable(m.slots, loc, t)
  {
    if t.UPDATE? || t.DELETE? then m.heads[m.slots[loc].entry.value := loc] else m.heads
  }
}
