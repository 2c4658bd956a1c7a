/** Aborting through the read/write set undoes every chain. */
module StoreAbort {
  import opened Types
  import opened VersionChain
  import opened ChainActions
  import opened Replay
  import opened Protocol
  import opened ReadWriteSet
  import opened Store
  import opened StoreInvariant
  import opened StoreSteps
  import opened StoreCommit

  /** The chain has a pending version of `c` that an abort unlinks. */
  predicate Drops(st: Store, c: nat, k: Key)
    requires c in st.txns && k in st.order
  {
    DropNew(st.mem, st.txns[c].rw, st.order[k]) != st.order[k]
  }

  /** An abort unlinks the newest version exactly when it overwrites an older one. */
  lemma DropsPending(st: Store, s: State, c: nat, k: Key)
    requires Finishing(st, c) && IsIssued(c) && Placed(st, s, k) && WellFormed(s.chains[k])
    requires forall j | 0 <= j < |st.order[k]| :: st.order[k][j] in st.mem.slots && SlotOk(st, st.order[k][j])
    ensures Drops(st, c, k) <==> PendingOf(s.chains[k], c) && |s.chains[k]| >= 2
  {
    var vs, ch := st.order[k], s.chains[k];
    var n := |vs| - 1;
    assert ch[n] == VersionIn(st.mem.slots, vs[n]);
    if Last(ch).txn == c {
      HeldNewest(st, s, c, k);
    } else {
      UntouchedSlot(st, c, vs[n]);
      assert Neighbours(st.mem, vs, n);
    }
  }

  lemma AbortVersion(st: Store, s: State, c: nat, k: Key, i: nat)
    requires Finishing(st, c) && IsIssued(c) && Placed(st, s, k) && WellFormed(s.chains[k])
    requires i < |AbortChain(s.chains[k], c)| <= |st.order[k]|
    requires forall j | 0 <= j < |st.order[k]| :: st.order[k][j] in st.mem.slots && SlotOk(st, st.order[k][j])
    ensures AbortSlot(st.mem, st.txns[c].rw, c, st.order[k][i]).v == AbortChain(s.chains[k], c)[i]
  {
    var vs, ch := st.order[k], s.chains[k];
    OnlyNewestOwned(ch, c);
    assert ch[i] == VersionIn(st.mem.slots, vs[i]);
    if ch[i].txn != c {
      UntouchedSlot(st, c, vs[i]);
    } else {
      assert |ch| >= 2 ==> Superseded(ch[|ch| - 2], ch[|ch| - 1]);
      assert Last(ch).txn == c;
      HeldNewest(st, s, c, k);
      assert |ch| >= 2 ==> ch[|ch| - 2] == VersionIn(st.mem.slots, vs[|ch| - 2]);
    }
  }

  lemma AbortRepresentsAt(st: Store, s: State, c: nat, k: Key)
    requires Finishing(st, c) && IsIssued(c) && Placed(st, s, k) && WellFormed(s.chains[k])
    requires forall j | 0 <= j < |st.order[k]| :: st.order[k][j] in st.mem.slots && SlotOk(st, st.order[k][j])
    ensures ChainOf(AbortMemory(st.mem, st.txns[c].rw, c).slots, DropNew(st.mem, st.txns[c].rw, st.order[k]))
            == AbortChain(s.chains[k], c)
  {
    var slots' := AbortMemory(st.mem, st.txns[c].rw, c).slots;
    var vs' := DropNew(st.mem, st.txns[c].rw, st.order[k]);
    DropsPending(st, s, c, k);
    assert |vs'| == |AbortChain(s.chains[k], c)|;
    forall i | 0 <= i < |vs'| ensures ChainOf(slots', vs')[i] == AbortChain(s.chains[k], c)[i] {
      AbortVersion(st, s, c, k, i);
    }
  }

  // ----- Links -----

  lemma AbortLinkedDrop(st: Store, c: nat, k: Key)
    requires Finishing(st, c) && k in st.order && Linked(st.mem, k, st.order[k]) && Drops(st, c, k)
    ensures Linked(AbortMemory(st.mem, st.txns[c].rw, c), k, DropNew(st.mem, st.txns[c].rw, st.order[k]))
  {
    var m', vs, rw := AbortMemory(st.mem, st.txns[c].rw, c), st.order[k], st.txns[c].rw;
    var n := |vs| - 1;
    var vs' := vs[..n];
    assert Neighbours(st.mem, vs, n) && Neighbours(st.mem, vs, n - 1);
    forall i | 0 <= i < n ensures Neighbours(m', vs', i) {
      assert Neighbours(st.mem, vs, i);
      AbortPrev(st, c, k, i);
    }
  }

  /** Only the version under a dropped one gets a new `prev` link. */
  lemma AbortPrev(st: Store, c: nat, k: Key, i: nat)
    requires Finishing(st, c) && k in st.order && Linked(st.mem, k, st.order[k]) && i < |st.order[k]|
    ensures var vs, rw := st.order[k], st.txns[c].rw;
            AbortSlot(st.mem, rw, c, vs[i]).prev ==
            if Drops(st, c, k) && i == |vs| - 2 then None else st.mem.slots[vs[i]].prev
    ensures AbortSlot(st.mem, st.txns[c].rw, c, st.order[k][i]).next == st.mem.slots[st.order[k][i]].next
    ensures AbortSlot(st.mem, st.txns[c].rw, c, st.order[k][i]).entry == st.mem.slots[st.order[k][i]].entry
  {
    var vs, rw := st.order[k], st.txns[c].rw;
    assert Neighbours(st.mem, vs, i);
    assert vs[i] in rw ==> EntryOk(st, c, vs[i]);
    if i + 1 < |vs| {
      assert Neighbours(st.mem, vs, i + 1);
    }
  }

  lemma AbortLinkedStay(st: Store, c: nat, k: Key)
    requires Finishing(st, c) && k in st.order && Linked(st.mem, k, st.order[k]) && !Drops(st, c, k)
    ensures Linked(AbortMemory(st.mem, st.txns[c].rw, c), k, st.order[k])
  {
    var m', vs := AbortMemory(st.mem, st.txns[c].rw, c), st.order[k];
    var n := |vs| - 1;
    assert Neighbours(st.mem, vs, n);
    forall i | 0 <= i < |vs| ensures Neighbours(m', vs, i) {
      assert Neighbours(st.mem, vs, i);
      AbortPrev(st, c, k, i);
    }
    forall i | 0 <= i < |vs| ensures m'.slots[vs[i]].entry == Some(k) {
      AbortPrev(st, c, k, i);
    }
  }

  lemma AbortLinked(st: Store, c: nat, k: Key)
    requires Finishing(st, c) && k in st.order && Linked(st.mem, k, st.order[k])
    ensures Linked(AbortMemory(st.mem, st.txns[c].rw, c), k, DropNew(st.mem, st.txns[c].rw, st.order[k]))
  {
    if Drops(st, c, k) {
      AbortLinkedDrop(st, c, k);
    } else {
      AbortLinkedStay(st, c, k);
    }
  }

  /** Every listed version stays listed, except those that are unlinked. */
  lemma AbortListed(st: Store, c: nat, l: Loc)
    requires Succeeds(st, AbortTransaction(c)) && OnList(st, l)
    requires l in st.txns[c].rw || st.mem.slots[l].next.None? ||
             !IsNewOf(st.mem, st.txns[c].rw, l, st.mem.slots[l].next.value)
    requires Linked(st.mem, KeyAt(st, l), st.order[KeyAt(st, l)])
    ensures OnList(Effect(st, AbortTransaction(c)), l)
  {
    var k := KeyAt(st, l);
    var vs := st.order[k];
    var i := IndexOf(vs, l);
    assert Neighbours(st.mem, vs, i);
    var vs' := DropNew(st.mem, st.txns[c].rw, vs);
    assert i < |vs'| && vs'[i] == l;
  }

  /** A slot that is unlinked, or was already, is dead afterwards. */
  lemma AbortSlotLinks(st: Store, c: nat, l: Loc)
    requires Succeeds(st, AbortTransaction(c)) && Finishing(st, c) && l in st.mem.slots
    requires OnList(st, l) ==> Linked(st.mem, KeyAt(st, l), st.order[KeyAt(st, l)])
    requires OnList(st, l) || Dead(st.mem.slots[l].v)
    ensures var st' := Effect(st, AbortTransaction(c));
            OnList(st', l) || Dead(st'.mem.slots[l].v)
  {
    var sl, rw := st.mem.slots[l], st.txns[c].rw;
    if !OnList(st, l) {
      UntouchedSlot(st, c, l);
    } else if l !in rw && sl.next.Some? && IsNewOf(st.mem, rw, l, sl.next.value) {
    } else {
      AbortListed(st, c, l);
    }
  }

  lemma AbortLinks(st: Store, c: nat)
    requires Links(st) && Finishing(st, c)
    ensures Links(Effect(st, AbortTransaction(c)))
  {
    var st' := Effect(st, AbortTransaction(c));
    forall k | k in st'.order ensures Linked(st'.mem, k, st'.order[k]) {
      assert Linked(st.mem, k, st.order[k]);
      AbortLinked(st, c, k);
    }
    forall l | l in st'.mem.slots ensures OnList(st', l) || Dead(st'.mem.slots[l].v) {
      assert OnList(st, l) || Dead(st.mem.slots[l].v);
      AbortSlotLinks(st, c, l);
    }
  }

  // ----- Entries and locks -----

  /** Versions other transactions care about: committed ones keep their stamps. */
  lemma AbortedStays(st: Store, c: nat, loc: Loc)
    requires Finishing(st, c) && loc in st.mem.slots && !Pending(st.mem.slots[loc].v)
    ensures var v, v' := st.mem.slots[loc].v, AbortSlot(st.mem, st.txns[c].rw, c, loc).v;
            v' == v || (v' == v.(txn := INITIAL_TXN_ID))
    ensures st.mem.slots[loc].next.Some? ==> !IsNewOf(st.mem, st.txns[c].rw, loc, st.mem.slots[loc].next.value)
  {
    var rw, sl := st.txns[c].rw, st.mem.slots[loc];
    assert loc in rw ==> EntryOk(st, c, loc);
    assert sl.next.Some? && sl.next.value in rw ==> EntryOk(st, c, sl.next.value);
  }

  lemma AbortEntry(st: Store, c: nat, d: nat, l: Loc)
    requires Links(st) && Finishing(st, c) && d in st.txns && d != c && IsIssued(d)
    requires l in st.txns[d].rw && EntryOk(st, d, l)
    ensures EntryOk(Effect(st, AbortTransaction(c)), d, l)
  {
    var st', sl := Effect(st, AbortTransaction(c)), st.mem.slots[l];
    if sl.v.txn != c {
      UntouchedSlot(st, c, l);
    } else {
      AbortedStays(st, c, l);
    }
    AbortListed(st, c, l);
    if Writes(st.txns[d].rw, l) {
      UntouchedSlot(st, c, sl.prev.value);
      AbortListed(st, c, sl.prev.value);
    }
  }

  lemma AbortSessions(st: Store, c: nat, d: nat)
    requires Links(st) && Finishing(st, c) && d in st.txns && SessionOk(st, d)
    ensures SessionOk(Effect(st, AbortTransaction(c)), d)
  {
    var st' := Effect(st, AbortTransaction(c));
    if Running(st', d) {
      forall l | l in st'.txns[d].rw ensures EntryOk(st', d, l) {
        assert EntryOk(st, d, l);
        AbortEntry(st, c, d, l);
      }
      if st.txns[d].acquired.Some? {
        UntouchedSlot(st, c, st.txns[d].acquired.value);
        AbortListed(st, c, st.txns[d].acquired.value);
      }
    }
  }

  /** After the abort no slot is locked by the transaction. */
  lemma AbortSlots(st: Store, c: nat, loc: Loc)
    requires Finishing(st, c) && IsIssued(c) && loc in st.mem.slots && SlotOk(st, loc)
    ensures Effect(st, AbortTransaction(c)).mem.slots[loc].v.txn != c
  {
    if st.mem.slots[loc].v.txn != c {
      UntouchedSlot(st, c, loc);
    }
  }

  lemma AbortSlotOk(st: Store, c: nat, loc: Loc)
    requires Finishing(st, c) && IsIssued(c) && loc in st.mem.slots && SlotOk(st, loc)
    requires forall d | d in st.txns :: SessionOk(st, d)
    ensures SlotOk(Effect(st, AbortTransaction(c)), loc)
  {
    var st', sl := Effect(st, AbortTransaction(c)), st.mem.slots[loc];
    var d := sl.v.txn;
    AbortSlots(st, c, loc);
    if d != c {
      UntouchedSlot(st, c, loc);
      if IsIssued(d) && loc !in st.txns[d].rw && st.txns[d].acquired != Some(loc) {
        assert SessionOk(st, d) && EntryOk(st, d, sl.next.value);
        UntouchedSlot(st, c, sl.next.value);
      }
    } else {
      AbortOwnSlot(st, c, loc);
    }
  }

  lemma AbortOwnSlot(st: Store, c: nat, loc: Loc)
    requires Finishing(st, c) && IsIssued(c) && loc in st.mem.slots && SlotOk(st, loc) && st.mem.slots[loc].v.txn == c
    ensures !IsIssued(AbortSlot(st.mem, st.txns[c].rw, c, loc).v.txn)
  {
  }

  lemma AbortKeepsInv(st: Store, c: nat)
    requires StoreInv(st) && Succeeds(st, AbortTransaction(c))
    ensures StoreInv(Effect(st, AbortTransaction(c)))
  {
    var st' := Effect(st, AbortTransaction(c));
    assert SessionOk(st, c);
    AbortLinks(st, c);
    forall d | d in st'.txns ensures SessionOk(st', d) {
      assert SessionOk(st, d);
      AbortSessions(st, c, d);
    }
    forall loc | loc in st'.mem.slots ensures SlotOk(st', loc) {
      assert SlotOk(st, loc);
      AbortSlotOk(st, c, loc);
    }
  }
}
