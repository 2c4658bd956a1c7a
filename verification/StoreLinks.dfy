/** Installing new versions and inserting tuples keep the store invariant. */
module StoreLinks {
  import opened Types
  import opened VersionChain
  import opened Replay
  import opened Protocol
  import opened ReadWriteSet
  import opened Store
  import opened StoreInvariant
  import opened StoreSteps

  /** `st'` is `st` after `c` linked a pending version at `new'` in front of the newest version
      `loc` of chain `k`, and recorded `loc` in its write set. */
  ghost predicate Linking(st: Store, st': Store, c: nat, k: Key, loc: Loc, new': Loc, v: Version, rw': RWSet) {
    && Running(st, c) && NewestOnList(st, loc) && KeyAt(st, loc) == k && new' !in st.mem.slots
    && v.txn == c && v.reader == 0 && Pending(v)
    && st'.mem.slots == st.mem.slots[loc := st.mem.slots[loc].(prev := Some(new'))]
                                    [new' := Slot(v, None, Some(loc), Some(k))]
    && st'.mem.heads == st.mem.heads[k := new']
    && st'.order == st.order[k := st.order[k] + [new']]
    && st'.txns == st.txns[c := Session(st.txns[c].phase, rw', None)]
  }

  lemma LinkingIs(st: Store, call: Call, loc: Loc)
    requires Succeeds(st, call) && (call.PerformUpdate? || call.PerformDelete?) && call.loc == loc
    requires NewestOnList(st, loc)
    ensures var st' := Effect(st, call);
            Linking(st, st', call.c, KeyAt(st, loc), loc, call.new', st'.mem.slots[call.new'].v, st'.txns[call.c].rw)
  {
  }

  // ----- The list -----

  lemma LinkedGrows(st: Store, st': Store, c: nat, k: Key, loc: Loc, new': Loc, v: Version, rw': RWSet)
    requires Linking(st, st', c, k, loc, new', v, rw') && Linked(st.mem, k, st.order[k])
    ensures Linked(st'.mem, k, st'.order[k])
  {
    var vs, vs' := st.order[k], st'.order[k];
    var n := IndexOf(vs, loc);
    assert Neighbours(st.mem, vs, n);
    assert n == |vs| - 1;
    forall i | 0 <= i < |vs'| ensures Neighbours(st'.mem, vs', i) {
      assert i < |vs| ==> Neighbours(st.mem, vs, i);
    }
  }

  lemma OtherLinked(st: Store, st': Store, c: nat, k: Key, loc: Loc, new': Loc, v: Version, rw': RWSet, j: Key)
    requires Linking(st, st', c, k, loc, new', v, rw') && j in st.order && j != k && Linked(st.mem, j, st.order[j])
    ensures Linked(st'.mem, j, st'.order[j])
    ensures ChainOf(st'.mem.slots, st.order[j]) == ChainOf(st.mem.slots, st.order[j])
  {
    var vs := st.order[j];
    forall i | 0 <= i < |vs| ensures Neighbours(st'.mem, vs, i) {
      assert Neighbours(st.mem, vs, i);
    }
  }

  lemma LinkingLinks(st: Store, st': Store, c: nat, k: Key, loc: Loc, new': Loc, v: Version, rw': RWSet)
    requires Linking(st, st', c, k, loc, new', v, rw') && Links(st)
    ensures Links(st')
  {
    forall j | j in st'.order ensures Linked(st'.mem, j, st'.order[j]) {
      assert Linked(st.mem, j, st.order[j]);
      if j == k {
        LinkedGrows(st, st', c, k, loc, new', v, rw');
      } else {
        OtherLinked(st, st', c, k, loc, new', v, rw', j);
      }
    }
    forall l | l in st'.mem.slots ensures OnList(st', l) || Dead(st'.mem.slots[l].v) {
      ListedStays(st, st', c, k, loc, new', v, rw', l);
    }
  }

  lemma ListedStays(st: Store, st': Store, c: nat, k: Key, loc: Loc, new': Loc, v: Version, rw': RWSet, l: Loc)
    requires Linking(st, st', c, k, loc, new', v, rw') && l in st'.mem.slots
    requires l != new' ==> OnList(st, l) || Dead(st.mem.slots[l].v)
    ensures OnList(st', l) || Dead(st'.mem.slots[l].v)
    ensures l != new' && OnList(st, l) ==> OnList(st', l)
  {
    if l == new' {
      assert st'.order[k][|st.order[k]|] == new';
    } else if OnList(st, l) {
      var j := KeyAt(st, l);
      var i := IndexOf(st.order[j], l);
      assert st'.order[j][i] == l;
    }
  }

  lemma LinkingRepresents(st: Store, s: State, st': Store, s': State, c: nat, k: Key, loc: Loc, new': Loc, v: Version,
                          rw': RWSet)
    requires Linking(st, st', c, k, loc, new', v, rw') && Links(st) && Represents(st, s) && SamePhases(st', s')
    requires k in s.chains && s'.chains == s.chains[k := s.chains[k] + [v]]
    ensures Represents(st', s')
  {
    forall j | j in st'.order ensures RepresentsAt(st', s', j) {
      assert RepresentsAt(st, s, j) && Linked(st.mem, j, st.order[j]);
      if j != k {
        OtherLinked(st, st', c, k, loc, new', v, rw', j);
      } else {
        LinkedChain(st, st', c, k, loc, new', v, rw');
      }
    }
  }

  lemma LinkedChain(st: Store, st': Store, c: nat, k: Key, loc: Loc, new': Loc, v: Version, rw': RWSet)
    requires Linking(st, st', c, k, loc, new', v, rw') && Linked(st.mem, k, st.order[k])
    ensures ChainOf(st'.mem.slots, st'.order[k]) == ChainOf(st.mem.slots, st.order[k]) + [v]
  {
  }

  // ----- Entries and locks -----

  lemma LinkingEntry(st: Store, st': Store, c: nat, k: Key, loc: Loc, new': Loc, v: Version, rw': RWSet, d: nat, l: Loc)
    requires Linking(st, st', c, k, loc, new', v, rw') && d in st.txns && IsIssued(d) && l in st.txns[d].rw &&
             EntryOk(st, d, l)
    requires d == c ==> l in rw' && l != loc && rw'[l] == st.txns[c].rw[l] && rw'.Keys <= st.txns[c].rw.Keys
    requires st.mem.slots[loc].v.txn == c && !Pending(st.mem.slots[loc].v)
    requires d == c ==> st.txns[c].acquired == Some(loc) || st.txns[c].acquired.None?
    requires d in st.txns && new' !in st.txns[d].rw
    ensures EntryOk(st', d, l)
  {
    ListedStays(st, st', c, k, loc, new', v, rw', l);
    if Writes(st.txns[d].rw, l) {
      ListedStays(st, st', c, k, loc, new', v, rw', st.mem.slots[l].prev.value);
    }
  }

  lemma LinkingSession(st: Store, st': Store, c: nat, k: Key, loc: Loc, new': Loc, v: Version, rw': RWSet, d: nat)
    requires Linking(st, st', c, k, loc, new', v, rw') && d in st.txns && SessionOk(st, d)
    requires st.mem.slots[loc].v.txn == c && !Pending(st.mem.slots[loc].v)
    requires loc in rw' && rw'.Keys == st.txns[c].rw.Keys && forall l | l in rw' && l != loc ::
                                                               rw'[l] == st.txns[c].rw[l]
    requires (rw'[loc].UPDATE? && v.end == MAX_CID) || (rw'[loc].DELETE? && v.end == INVALID_CID)
    requires st.txns[c].acquired == Some(loc) || st.txns[c].acquired.None?
    ensures SessionOk(st', d)
  {
    if Running(st', d) {
      forall l | l in st'.txns[d].rw ensures EntryOk(st', d, l) {
        assert EntryOk(st, d, l);
        assert new' !in st.txns[d].rw by {
          assert new' in st.txns[d].rw ==> EntryOk(st, d, new');
        }
        if d == c && l == loc {
          ListedStays(st, st', c, k, loc, new', v, rw', loc);
          ListedStays(st, st', c, k, loc, new', v, rw', new');
        } else {
          LinkingEntry(st, st', c, k, loc, new', v, rw', d, l);
        }
      }
      if d != c && st.txns[d].acquired.Some? {
        ListedStays(st, st', c, k, loc, new', v, rw', st.txns[d].acquired.value);
      }
    }
  }

  lemma LinkingSlot(st: Store, st': Store, c: nat, k: Key, loc: Loc, new': Loc, v: Version, rw': RWSet, l: Loc)
    requires Linking(st, st', c, k, loc, new', v, rw') && l in st'.mem.slots && (l != new' ==> SlotOk(st, l))
    requires loc in rw' && Writes(rw', loc) && new' !in rw'
    requires rw'.Keys == st.txns[c].rw.Keys && forall x | x in rw' && x != loc :: rw'[x] == st.txns[c].rw[x]
    requires st.txns[c].acquired == Some(loc) || st.txns[c].acquired.None?
    ensures SlotOk(st', l)
  {
  }

  lemma LinkingInv(st: Store, st': Store, c: nat, k: Key, loc: Loc, new': Loc, v: Version, rw': RWSet)
    requires Linking(st, st', c, k, loc, new', v, rw') && StoreInv(st)
    requires st.mem.slots[loc].v.txn == c && !Pending(st.mem.slots[loc].v)
    requires loc in rw' && rw'.Keys == st.txns[c].rw.Keys && forall l | l in rw' && l != loc ::
                                                               rw'[l] == st.txns[c].rw[l]
    requires (rw'[loc].UPDATE? && v.end == MAX_CID) || (rw'[loc].DELETE? && v.end == INVALID_CID)
    requires st.txns[c].acquired == Some(loc) || st.txns[c].acquired.None?
    ensures StoreInv(st')
  {
    LinkingLinks(st, st', c, k, loc, new', v, rw');
    forall d | d in st'.txns ensures SessionOk(st', d) {
      assert SessionOk(st, d);
      LinkingSession(st, st', c, k, loc, new', v, rw', d);
    }
    assert new' !in rw' by {
      assert SessionOk(st, c);
      assert new' in st.txns[c].rw ==> EntryOk(st, c, new');
    }
    forall l | l in st'.mem.slots ensures SlotOk(st', l) {
      assert l != new' ==> SlotOk(st, l);
      LinkingSlot(st, st', c, k, loc, new', v, rw', l);
    }
  }
}
