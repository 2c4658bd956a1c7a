/** The collector's sets are complete: every slot that is no longer needed is in exactly one. */
module GarbageAccounts {
  import opened Types
  import opened VersionChain
  import opened ReadWriteSet
  import opened Store
  import opened StoreInvariant
  import opened StoreCommit
  import opened StoreRefinement
  import opened AbortUndo
  import opened CommitLoop
  import opened EpochSafety
  import opened GarbageSets
  import opened Collection

  /** No transaction to come can need the version: it has ended, or its slot is unusable. */
  predicate Retired(v: Version) {
    v.txn == INVALID_TXN_ID || (!Pending(v) && v.end != MAX_CID)
  }

  ghost predicate Listed(gc: map<nat, GCSet>, l: Loc) {
    exists c :: c in gc && l in gc[c]
  }

  ghost predicate ListedOnce(gc: map<nat, GCSet>, l: Loc) {
    forall c, d | c in gc && d in gc && l in gc[c] && l in gc[d] :: c == d
  }

  ghost predicate BookedAt(st: Store, gc: map<nat, GCSet>, l: Loc) {
    ListedOnce(gc, l) && (Listed(gc, l) <==> l in st.mem.slots && Retired(st.mem.slots[l].v))
  }

  // ----- One slot, one call -----

  /** Calls other than commit and abort retire nothing. */
  lemma SlotCallRetires(st: Store, call: Call, l: Loc)
    requires OnSlot(call) && Succeeds(st, call) && SessionOk(st, call.c)
    requires call.PerformUpdate? || call.PerformDelete? ==> st.mem.slots[call.loc].prev.None?
    ensures var st' := Effect(st, call);
            (l in st'.mem.slots && Retired(st'.mem.slots[l].v)) <==> l in st.mem.slots && Retired(st.mem.slots[l].v)
  {
    assert call.loc in st.txns[call.c].rw ==> EntryOk(st, call.c, call.loc);
  }

  lemma InsertRetires(st: Store, call: Call, l: Loc)
    requires call.PerformInsert? && Succeeds(st, call) && IsIssued(call.c)
    ensures var st' := Effect(st, call);
            (l in st'.mem.slots && Retired(st'.mem.slots[l].v)) <==> l in st.mem.slots && Retired(st.mem.slots[l].v)
  {
  }

  lemma OtherCallRetires(st: Store, call: Call, l: Loc)
    requires Reached(st) && Succeeds(st, call) && !call.CommitTransaction? && !call.AbortTransaction?
    ensures var st' := Effect(st, call);
            (l in st'.mem.slots && Retired(st'.mem.slots[l].v)) <==> l in st.mem.slots && Retired(st.mem.slots[l].v)
  {
    hide Reached, Retired, EffectAt;
    if !call.BeginTxn? {
      ReachedSession(st, call.c);
      if call.PerformInsert? {
        InsertRetires(st, call, l);
      } else if OnSlot(call) {
        if call.PerformUpdate? || call.PerformDelete? {
          WritesNewest(st, call);
        }
        SlotCallRetires(st, call, l);
      }
    }
  }

  /** A commit retires exactly what it hands over, none of which was retired before. */
  lemma CommitRetires(st: Store, c: nat, l: Loc)
    requires Reached(st) && Succeeds(st, CommitTransaction(c)) && l in st.mem.slots
    ensures var v, v' := st.mem.slots[l].v, CommitSlot(st.mem, st.txns[c].rw, c, l).v;
            && (l in CommitGarbage(st.mem, st.txns[c].rw) ==> !Retired(v))
            && (Retired(v') <==> Retired(v) || l in CommitGarbage(st.mem, st.txns[c].rw))
  {
    hide Reached;
    Survey(st, c, l);
    CommitRetiresSlot(st, c, l);
  }

  lemma CommitRetiresSlot(st: Store, c: nat, l: Loc)
    requires Surveyed(st, c, l)
    ensures var v, v' := st.mem.slots[l].v, CommitSlot(st.mem, st.txns[c].rw, c, l).v;
            var g := CommitGarbageAt(st.mem, st.txns[c].rw, l);
            (g.Some? ==> !Retired(v)) && (Retired(v') <==> Retired(v) || g.Some?)
  {
    hide SessionOk;
    CommitGarbageSlot(st, c, l);
    if st.mem.slots[l].v.txn != c {
      UntouchedSlot(st, c, l);
    }
  }

  lemma AbortRetires(st: Store, c: nat, l: Loc)
    requires Reached(st) && Succeeds(st, AbortTransaction(c)) && l in st.mem.slots
    ensures var v, v' := st.mem.slots[l].v, AbortSlot(st.mem, st.txns[c].rw, c, l).v;
            && (l in AbortGarbage(st.mem, st.txns[c].rw) ==> !Retired(v))
            && (Retired(v') <==> Retired(v) || l in AbortGarbage(st.mem, st.txns[c].rw))
  {
    hide Reached;
    Survey(st, c, l);
    AbortRetiresSlot(st, c, l);
  }

  lemma AbortRetiresSlot(st: Store, c: nat, l: Loc)
    requires Surveyed(st, c, l)
    ensures var v, v' := st.mem.slots[l].v, AbortSlot(st.mem, st.txns[c].rw, c, l).v;
            var g := AbortGarbageAt(st.mem, st.txns[c].rw, l);
            (g.Some? ==> !Retired(v)) && (Retired(v') <==> Retired(v) || g.Some?)
  {
    hide SessionOk;
    AbortGarbageSlot(st, c, l);
    if st.mem.slots[l].v.txn != c {
      UntouchedSlot(st, c, l);
    }
  }

  // ----- The books -----

  lemma AddListed(gc: map<nat, GCSet>, c: nat, g: GCSet, l: Loc)
    requires c !in gc
    ensures Listed(gc + map[c := g], l) <==> Listed(gc, l) || l in g
    ensures ListedOnce(gc, l) && (l in g ==> !Listed(gc, l)) ==> ListedOnce(gc + map[c := g], l)
  {
    var gc' := gc + map[c := g];
    assert gc'[c] == g && forall d | d in gc :: d in gc' && gc'[d] == gc[d];
  }

  /** Committing or aborting, with the garbage `g`. */
  lemma FinishBooks(st: Store, st': Store, gc: map<nat, GCSet>, c: nat, g: GCSet, l: Loc)
    requires c !in gc && BookedAt(st, gc, l) && st'.mem.slots.Keys == st.mem.slots.Keys
    requires l in g ==> l in st.mem.slots && !Retired(st.mem.slots[l].v)
    requires l in st.mem.slots ==> (Retired(st'.mem.slots[l].v) <==> Retired(st.mem.slots[l].v) || l in g)
    ensures BookedAt(st', gc + map[c := g], l)
  {
    hide Retired, Listed, ListedOnce;
    AddListed(gc, c, g, l);
  }

  lemma CallBooks(st: Store, call: Call, gc: map<nat, GCSet>, l: Loc)
    requires Reached(st) && Succeeds(st, call) && BookedAt(st, gc, l)
    requires call.CommitTransaction? || call.AbortTransaction? ==> call.c !in gc
    ensures BookedAt(Effect(st, call), gc + Discards(st, call), l)
  {
    hide Reached, Retired, Listed, ListedOnce, CommitSlot, AbortSlot, CommitGarbageAt, AbortGarbageAt, EffectAt;
    var st' := Effect(st, call);
    if call.CommitTransaction? {
      if l in st.mem.slots {
        CommitRetires(st, call.c, l);
      }
      FinishBooks(st, st', gc, call.c, CommitGarbage(st.mem, st.txns[call.c].rw), l);
    } else if call.AbortTransaction? {
      if l in st.mem.slots {
        AbortRetires(st, call.c, l);
      }
      FinishBooks(st, st', gc, call.c, AbortGarbage(st.mem, st.txns[call.c].rw), l);
    } else {
      OtherCallRetires(st, call, l);
      assert gc + Discards(st, call) == gc;
    }
  }

  lemma StepBooks(y: System, step: SysStep, l: Loc)
    requires SysInv(y) && BookedAt(y.st, y.gc, l)
    ensures BookedAt(SysNext(y, step).st, SysNext(y, step).gc, l)
  {
    hide BookedAt, Reached, EpochInv, Accounts, Homed, Effect, Discards, EpochNext, Allowed;
    if SysAllowed(y, step) {
      if step.Perform? {
        RunningIsOut(y.st, y.gc, step.call);
        CallBooks(y.st, step.call, y.gc, l);
      } else if step.StartTxn? {
        BeginBooks(y.st, Stamp(step.epoch, y.ep.next), y.gc, l);
      }
    }
  }

  lemma RunningIsOut(st: Store, gc: map<nat, GCSet>, call: Call)
    requires AllGarbage(st, gc) && Succeeds(st, call) && !call.BeginTxn?
    ensures call.c !in gc
  {
    hide GarbageSet;
  }

  lemma BeginBooks(st: Store, c: nat, gc: map<nat, GCSet>, l: Loc)
    requires Succeeds(st, BeginTxn(c)) && BookedAt(st, gc, l)
    ensures BookedAt(Effect(st, BeginTxn(c)), gc, l)
  {
    hide Retired, Listed, ListedOnce;
  }

  /** NO SLOT IS LOST. After any run of any threads, a slot is in the hands of the collector if and
      only if its version has ended or its slot is unusable, and then through one transaction only. */
  lemma {:induction false} NothingIsLost(threads: set<nat>, steps: seq<SysStep>, l: Loc)
    ensures var y := SysRun(Boot(threads), steps);
            && (Listed(y.gc, l) <==> l in y.st.mem.slots && Retired(y.st.mem.slots[l].v))
            && ListedOnce(y.gc, l)
  {
    hide SysInv, SysNext, Retired;
    if |steps| == 0 {
      assert Boot(threads).gc == map[] && Boot(threads).st == EmptyStore;
    } else {
      var n := |steps| - 1;
      NothingIsLost(threads, steps[..n], l);
      BootOk(threads);
      SysRunKeeps(Boot(threads), steps[..n]);
      StepBooks(SysRun(Boot(threads), steps[..n]), steps[n], l);
    }
  }
}
