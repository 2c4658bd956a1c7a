/** Committing through the read/write set is committing every chain. */
module StoreCommit {
  import opened Types
  import opened VersionChain
  import opened ChainActions
  import opened Replay
  import opened Protocol
  import opened ReadWriteSet
  import opened Store
  import opened StoreInvariant

  /** What a finishing transaction knows about one slot: it is untouched, or it is locked by
      the transaction and has exactly one entry to be released through. */
  ghost predicate Finishing(st: Store, c: nat) {
    && Running(st, c) && st.txns[c].acquired.None? && SessionOk(st, c)
  }

  lemma UntouchedSlot(st: Store, c: nat, loc: Loc)
    requires Finishing(st, c) && loc in st.mem.slots && st.mem.slots[loc].v.txn != c
    ensures CommitSlot(st.mem, st.txns[c].rw, c, loc) == st.mem.slots[loc] == AbortSlot(st.mem, st.txns[c].rw, c, loc)
    ensures st.mem.slots[loc].next.Some? ==> !IsNewOf(st.mem, st.txns[c].rw, loc, st.mem.slots[loc].next.value)
  {
    var rw, sl := st.txns[c].rw, st.mem.slots[loc];
    assert loc in rw ==> EntryOk(st, c, loc);
    assert sl.next.Some? && sl.next.value in rw ==> EntryOk(st, c, sl.next.value);
  }

  /** The newest version of a chain, when the transaction holds it. */
  lemma HeldNewest(st: Store, s: State, c: nat, k: Key)
    requires Finishing(st, c) && Placed(st, s, k) && WellFormed(s.chains[k]) && Last(s.chains[k]).txn == c
    requires var loc := st.order[k][|st.order[k]| - 1]; loc in st.mem.slots && SlotOk(st, loc)
    ensures var vs, ch, rw := st.order[k], s.chains[k], st.txns[c].rw;
            var loc := vs[|vs| - 1];
            if !Pending(Last(ch)) then loc in rw && rw[loc].READ_OWN?
            else if |ch| == 1 then loc in rw && rw[loc] == (if Last(ch).end == INVALID_CID then INS_DEL else INSERT)
            else loc !in rw && IsNewOf(st.mem, rw, loc, vs[|vs| - 2])
                 && rw[vs[|vs| - 2]] == (if Last(ch).end == INVALID_CID then DELETE else UPDATE)
  {
    var vs, ch, rw := st.order[k], s.chains[k], st.txns[c].rw;
    var n := |vs| - 1;
    var loc := vs[n];
    assert Neighbours(st.mem, vs, n);
    assert ch[n] == VersionIn(st.mem.slots, loc);
    assert loc in rw ==> EntryOk(st, c, loc);
    if |ch| >= 2 {
      assert vs[n - 1] in rw ==> EntryOk(st, c, vs[n - 1]);
    }
  }

  lemma CommitVersion(st: Store, s: State, c: nat, k: Key, i: nat)
    requires Finishing(st, c) && IsIssued(c) && Placed(st, s, k) && WellFormed(s.chains[k]) && i < |st.order[k]|
    requires forall j | 0 <= j < |st.order[k]| :: st.order[k][j] in st.mem.slots && SlotOk(st, st.order[k][j])
    ensures CommitSlot(st.mem, st.txns[c].rw, c, st.order[k][i]).v == CommitChain(s.chains[k], c)[i]
  {
    var vs, ch := st.order[k], s.chains[k];
    OnlyNewestOwned(ch, c);
    assert ch[i] == VersionIn(st.mem.slots, vs[i]);
    if ch[i].txn != c {
      UntouchedSlot(st, c, vs[i]);
    } else {
      assert |ch| >= 2 ==> Superseded(ch[|ch| - 2], ch[|ch| - 1]);
      assert Last(ch).txn == c;
      HeldNewest(st, s, c, k);
      assert |ch| >= 2 ==> ch[|ch| - 2] == VersionIn(st.mem.slots, vs[|ch| - 2]);
    }
  }

  lemma CommitRepresentsAt(st: Store, s: State, c: nat, k: Key)
    requires Finishing(st, c) && IsIssued(c) && Placed(st, s, k) && WellFormed(s.chains[k])
    requires forall j | 0 <= j < |st.order[k]| :: st.order[k][j] in st.mem.slots && SlotOk(st, st.order[k][j])
    ensures ChainOf(CommitMemory(st.mem, st.txns[c].rw, c).slots, st.order[k]) == CommitChain(s.chains[k], c)
  {
    var slots' := CommitMemory(st.mem, st.txns[c].rw, c).slots;
    var vs := st.order[k];
    assert |CommitChain(s.chains[k], c)| == |s.chains[k]|;
    forall i | 0 <= i < |vs| ensures ChainOf(slots', vs)[i] == CommitChain(s.chains[k], c)[i] {
      CommitVersion(st, s, c, k, i);
    }
  }

  lemma CommitLinked(st: Store, c: nat, k: Key)
    requires Finishing(st, c) && k in st.order && Linked(st.mem, k, st.order[k])
    ensures Linked(CommitMemory(st.mem, st.txns[c].rw, c), k, st.order[k])
  {
    var vs := st.order[k];
    forall i | 0 <= i < |vs| ensures Neighbours(CommitMemory(st.mem, st.txns[c].rw, c), vs, i) {
      assert Neighbours(st.mem, vs, i);
    }
  }

  lemma CommitLinks(st: Store, c: nat)
    requires StoreInv(st) && Finishing(st, c)
    ensures Links(Effect(st, CommitTransaction(c)))
  {
    var st' := Effect(st, CommitTransaction(c));
    forall k | k in st'.order ensures Linked(st'.mem, k, st'.order[k]) {
      CommitLinked(st, c, k);
    }
    forall loc | loc in st'.mem.slots ensures OnList(st', loc) || Dead(st'.mem.slots[loc].v) {
      assert OnList(st, loc) || Dead(st.mem.slots[loc].v);
      assert OnList(st, loc) ==> OnList(st', loc);
      if !OnList(st, loc) {
        assert SessionOk(st, c);
        UntouchedSlot(st, c, loc);
      }
    }
  }

  lemma CommitEntry(st: Store, c: nat, d: nat, l: Loc)
    requires Finishing(st, c) && d in st.txns && d != c && IsIssued(d) && l in st.txns[d].rw && EntryOk(st, d, l)
    ensures EntryOk(Effect(st, CommitTransaction(c)), d, l)
  {
    var st' := Effect(st, CommitTransaction(c));
    assert OnList(st', l);
    if st.mem.slots[l].v.txn != c {
      UntouchedSlot(st, c, l);
    } else {
      CommittedStays(st, c, l);
    }
    if Writes(st.txns[d].rw, l) {
      UntouchedSlot(st, c, st.mem.slots[l].prev.value);
      assert OnList(st', st.mem.slots[l].prev.value);
    }
  }

  /** Committing changes neither the begin nor the reader stamp of a committed version. */
  lemma CommittedStays(st: Store, c: nat, loc: Loc)
    requires Finishing(st, c) && loc in st.mem.slots && !Pending(st.mem.slots[loc].v)
    ensures var v, v' := st.mem.slots[loc].v, CommitSlot(st.mem, st.txns[c].rw, c, loc).v;
            || v' == v
            || (v'.reader == v.reader && v'.begin == v.begin && v'.value == v.value && !IsIssued(v'.txn))
  {
    var rw, sl := st.txns[c].rw, st.mem.slots[loc];
    assert loc in rw ==> EntryOk(st, c, loc);
    if sl.next.Some? && IsNewOf(st.mem, rw, loc, sl.next.value) {
      assert EntryOk(st, c, sl.next.value);
    }
  }

  lemma CommitSessions(st: Store, c: nat, d: nat)
    requires Finishing(st, c) && d in st.txns && SessionOk(st, d)
    ensures SessionOk(Effect(st, CommitTransaction(c)), d)
  {
    var st' := Effect(st, CommitTransaction(c));
    if Running(st', d) {
      forall l | l in st'.txns[d].rw ensures EntryOk(st', d, l) {
        assert EntryOk(st, d, l);
        CommitEntry(st, c, d, l);
      }
      if st.txns[d].acquired.Some? {
        UntouchedSlot(st, c, st.txns[d].acquired.value);
        assert OnList(st', st.txns[d].acquired.value);
      }
    }
  }

  /** After the commit no slot is locked by the transaction. */
  lemma CommitSlots(st: Store, c: nat, loc: Loc)
    requires Finishing(st, c) && IsIssued(c) && loc in st.mem.slots && SlotOk(st, loc)
    ensures Effect(st, CommitTransaction(c)).mem.slots[loc].v.txn != c
    ensures SlotOk(Effect(st, CommitTransaction(c)), loc)
  {
    var rw, sl := st.txns[c].rw, st.mem.slots[loc];
    if sl.v.txn != c {
      UntouchedSlot(st, c, loc);
    }
  }

  lemma CommitKeepsInv(st: Store, c: nat)
    requires StoreInv(st) && Succeeds(st, CommitTransaction(c))
    ensures StoreInv(Effect(st, CommitTransaction(c)))
  {
    var st' := Effect(st, CommitTransaction(c));
    assert SessionOk(st, c);
    CommitLinks(st, c);
    forall d | d in st'.txns ensures SessionOk(st', d) {
      assert SessionOk(st, d);
      CommitSessions(st, c, d);
    }
    forall loc | loc in st'.mem.slots ensures SlotOk(st', loc) {
      assert SlotOk(st, loc);
      CommitSlots(st, c, loc);
    }
  }
}
