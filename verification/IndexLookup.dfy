/** Finding a visible version through the index agrees with scanning every slot. */
module IndexLookup {
  import opened Types
  import opened VersionChain
  import opened ChainActions
  import opened Replay
  import opened Protocol
  import opened ProtocolInvariant
  import opened ReadWriteSet
  import opened Store
  import opened StoreInvariant
  import opened StoreSteps
  import opened StoreRefinement

  // ----- What a walk down a chain can meet -----

  lemma OwnedPosition(ch: Chain, i: nat, c: nat)
    requires WellFormed(ch) && i < |ch| && ch[i].txn == c && IsIssued(c)
    ensures i >= |ch| - 2 && (i == |ch| - 2 ==> PendingOf(ch, c) && ch[i].begin < c && ch[i].end == MAX_CID)
  {
    forall j | 0 <= j < |ch| - 2 ensures ch[j].txn == INITIAL_TXN_ID {
      assert Superseded(ch[j], ch[j + 1]);
      assert Superseded(ch[j + 1], ch[j + 2]);
    }
    if i == |ch| - 2 {
      assert Superseded(ch[i], ch[i + 1]);
    }
  }

  /** Below the first version that is not invisible, all versions are invisible. */
  lemma OlderInvisible(ch: Chain, i: nat, j: nat, c: nat)
    requires WellFormed(ch) && IsIssued(c) && i < j < |ch| && Sees(ch, j, c) != INVISIBLE
    ensures Sees(ch, i, c) == INVISIBLE
  {
    BeginsIncrease(ch, i, j);
    OlderVersions(ch);
    if ch[j].txn == c {
      OwnedPosition(ch, j, c);
      var n := |ch| - 2;
      if Pending(ch[j]) {
        assert Superseded(ch[n], ch[n + 1]);
        if i < n {
          BeginsIncrease(ch, i, n);
        }
      } else {
        Stamped(ch, j);
      }
    }
    if ch[i].txn == c {
      OwnedPosition(ch, i, c);
    }
  }

  lemma Stamped(ch: Chain, j: nat)
    requires WellFormed(ch) && j < |ch| && IsIssued(ch[j].txn) && !Pending(ch[j])
    ensures ch[j].begin < ch[j].txn && ch[j].end == MAX_CID
  {
    if j < |ch| - 1 {
      assert Superseded(ch[j], ch[j + 1]);
    }
  }

  /** A version that is invisible below invisible ones has not expired for the viewer: the walk
      never has to start again from the head. */
  lemma {:induction false} NotExpired(ch: Chain, i: nat, c: nat)
    requires WellFormed(ch) && IsIssued(c) && i < |ch|
    requires forall j | i <= j < |ch| :: Sees(ch, j, c) == INVISIBLE
    ensures !(ch[i].begin <= c)
    decreases |ch| - i
  {
    if ch[i].begin <= c {
      OlderVersions(ch);
      assert Sees(ch, i, c) == INVISIBLE && Sees(ch, |ch| - 1, c) == INVISIBLE;
      if IsIssued(ch[i].txn) {
        Stamped(ch, i);
        if ch[i].txn == c {
          OwnedPosition(ch, i, c);
        }
      }
      assert i < |ch| - 1 && ch[i].end <= c;
      assert Superseded(ch[i], ch[i + 1]);
      NotExpired(ch, i + 1, c);
      assert false;
    }
  }

  /** Without a version begun before the viewer, a chain of two or more shows it nothing. */
  lemma TooYoung(ch: Chain, i: nat, c: nat)
    requires WellFormed(ch) && IsIssued(c) && i < |ch| && |ch| >= 2 && c < ch[0].begin
    ensures Sees(ch, i, c) == INVISIBLE
  {
    OlderVersions(ch);
    if i > 0 {
      BeginsIncrease(ch, 0, i);
    }
    if ch[i].txn == c {
      var n := |ch| - 2;
      assert Superseded(ch[n], ch[n + 1]);
      if n > 0 {
        BeginsIncrease(ch, 0, n);
      }
      if !Pending(ch[i]) {
        Stamped(ch, i);
      }
      OwnedPosition(ch, i, c);
    }
  }

  // ----- The same for the slots of the store -----

  /** Transaction `c` looks at chain `k`, whose protocol chain is `ch`. */
  ghost predicate Looking(st: Store, c: nat, k: Key, ch: Chain) {
    && Running(st, c) && IsIssued(c) && WellFormed(ch)
    && k in st.order && Linked(st.mem, k, st.order[k]) && ch == ChainOf(st.mem.slots, st.order[k])
    && (forall i | 0 <= i < |ch| :: VisibleAt(st, c, k, i) == Sees(ch, i, c))
  }

  function VisibleAt(st: Store, c: nat, k: Key, i: nat): Visibility {
    if k in st.order && i < |st.order[k]| && st.order[k][i] in st.mem.slots && c in st.txns
    then Visible(st, c, st.order[k][i]) else INVISIBLE
  }

  lemma VisibleIsSeen(st: Store, s: State, c: nat, loc: Loc)
    requires Facing(st, s, c, loc) && st.txns[c].acquired.None?
    ensures IndexAt(st, loc) < |s.chains[KeyAt(st, loc)]|
    ensures Visible(st, c, loc) == Sees(s.chains[KeyAt(st, loc)], IndexAt(st, loc), c)
  {
    SlotIsVersion(st, s, loc);
    OlderVersions(s.chains[KeyAt(st, loc)]);
  }

  lemma IndexUnique(vs: seq<Loc>, i: nat)
    requires Distinct(vs) && i < |vs|
    ensures IndexOf(vs, vs[i]) == i
  {
    var j := IndexOf(vs, vs[i]);
  }

  lemma LooksAt(st: Store, c: nat, k: Key)
    requires Consistent(st) && Running(st, c) && st.txns[c].acquired.None? && k in st.order
    ensures Looking(st, c, k, ChainOf(st.mem.slots, st.order[k]))
  {
    var s :| Simulates(st, s);
    assert SessionOk(st, c) && RepresentsAt(st, s, k) && ChainOk(s, k) && Linked(st.mem, k, st.order[k]);
    forall i | 0 <= i < |st.order[k]| ensures VisibleAt(st, c, k, i) == Sees(s.chains[k], i, c) {
      KeyOf(st, k, i);
      IndexUnique(st.order[k], i);
      Faces(st, s, c, st.order[k][i]);
      VisibleIsSeen(st, s, c, st.order[k][i]);
    }
  }

  // ----- What is found is what the transaction itself holds -----

  lemma OthersPosition(ch: Chain, i: nat, c: nat)
    requires WellFormed(ch) && i < |ch| && IsIssued(c) && PendingOf(ch, c) && ch[i].txn != c
    ensures i < |ch| - 2 && ch[i].txn == INITIAL_TXN_ID
  {
    assert |ch| >= 2 ==> Superseded(ch[|ch| - 2], ch[|ch| - 1]);
    OnlyNewestOwned(ch, c);
  }

  /** A version is shown to a running transaction only if it holds the value of its own view. */
  lemma SeenIsOwn(ch: Chain, i: nat, c: nat)
    requires WellFormed(ch) && i < |ch| && IsIssued(c) && c !in Begins(ch)
    ensures Sees(ch, i, c) == OK ==> OwnValue(ch, c) == Some(ch[i].value)
  {
    if Sees(ch, i, c) == OK {
      if ch[i].txn == c {
        OwnReadFits(ch, c, i);
      } else {
        assert !Pending(ch[i]) && ch[i].begin in Begins(ch);
        if PendingOf(ch, c) {
          OthersPosition(ch, i, c);
          ReaderNotWriting(ch, i, c);
        }
        ValueAtInterval(ch, i, c);
      }
    }
  }

  /** The version that `ValueAt` takes its value from. */
  lemma {:induction false} ValueHolder(ch: Chain, n: nat, c: nat) returns (i: nat)
    requires n <= |ch| && ValueAt(ch[..n], c).Some?
    ensures i < n && ch[i].begin < c && ch[i].txn != INVALID_TXN_ID && ValueAt(ch[..n], c) == Some(ch[i].value)
    ensures forall j | i < j < n :: c <= ch[j].begin
  {
    if ch[n - 1].begin < c {
      i := n - 1;
    } else {
      assert ch[..n][..n - 1] == ch[..n - 1];
      i := ValueHolder(ch, n - 1, c);
    }
  }

  /** What a transaction's view holds is shown to it. */
  lemma OwnIsSeen(ch: Chain, c: nat)
    requires WellFormed(ch) && IsIssued(c) && c !in Begins(ch)
    ensures OwnValue(ch, c).Some? ==> exists i :: 0 <= i < |ch| && Sees(ch, i, c) == OK
  {
    if PendingOf(ch, c) {
      assert OwnValue(ch, c).Some? ==> Sees(ch, |ch| - 1, c) == OK;
    } else if ValueAt(ch, c).Some? {
      assert ch[..|ch|] == ch;
      var i := ValueHolder(ch, |ch|, c);
      if ch[i].txn == c {
        OwnedPosition(ch, i, c);
      } else {
        HolderCovers(ch, i, c);
      }
      assert Sees(ch, i, c) == OK;
    }
  }

  lemma HolderCovers(ch: Chain, i: nat, c: nat)
    requires WellFormed(ch) && i < |ch| && IsIssued(c) && c !in Begins(ch) && ch[i].begin < c
    requires ch[i].txn != INVALID_TXN_ID && forall j | i < j < |ch| :: c <= ch[j].begin
    ensures c < ch[i].end
  {
    if i < |ch| - 1 {
      assert Superseded(ch[i], ch[i + 1]);
      assert !Pending(ch[i + 1]) ==> ch[i + 1].begin in Begins(ch);
    }
  }

  /** The answer is the value that the transaction's own view holds for the key: its own write, or
      what the chain held just before it. */
  ghost predicate ReadsOwnView(st: Store, c: nat, k: Key, a: Answer) {
    && k in st.order
    && var own := OwnValue(ChainOf(st.mem.slots, st.order[k]), c);
       && (a.Found? <==> own.Some?)
       && (a.Found? ==> a.loc in st.mem.slots && own == Some(st.mem.slots[a.loc].v.value))
  }

  lemma LookupReadsOwnView(st: Store, c: nat, k: Key, ch: Chain, a: Answer)
    requires Looking(st, c, k, ch) && c !in Begins(ch) && Answers(st, c, k, a)
    ensures ReadsOwnView(st, c, k, a)
  {
    OwnIsSeen(ch, c);
    forall i | 0 <= i < |ch| && VisibleAt(st, c, k, i) == OK ensures OwnValue(ch, c) == Some(ch[i].value) {
      assert VisibleAt(st, c, k, i) == Sees(ch, i, c);
      SeenIsOwn(ch, i, c);
    }
    if OwnValue(ch, c).Some? {
      var i :| 0 <= i < |ch| && Sees(ch, i, c) == OK;
      assert VisibleAt(st, c, k, i) == OK;
    }
    if a.Found? {
      var i :| 0 <= i < |ch| && st.order[k][i] == a.loc;
      assert VisibleAt(st, c, k, i) == OK;
    }
  }

  lemma RunningBeginsNothing(st: Store, c: nat, k: Key)
    requires Consistent(st) && Running(st, c) && k in st.order
    ensures c !in Begins(ChainOf(st.mem.slots, st.order[k]))
  {
    hide Inv, StoreInv, Begins;
    var s :| Simulates(st, s);
    assert RepresentsAt(st, s, k);
    ActiveBeginsNothing(s, c, k);
  }

  lemma ActiveBeginsNothing(s: State, c: nat, k: Key)
    requires Inv(s) && IsActive(s, c) && k in s.chains
    ensures c !in Begins(s.chains[k])
  {
    hide Begins;
    assert ChainOk(s, k);
  }

  lemma IndexedIsListed(st: Store, k: Key)
    requires Consistent(st) && k in st.mem.heads
    ensures k in st.order
  {
  }

  // ----- The walk of the index scan executor -----

  datatype Answer = Found(loc: Loc) | Deleted | Nothing | Failed

  /** What the walk promises about chain `k`: the answer is the only version a scan would
      accept, and the walk fails exactly when all of two or more versions are too young. */
  ghost predicate Answers(st: Store, c: nat, k: Key, a: Answer) {
    && k in st.order && |st.order[k]| > 0
    && (forall i | 0 <= i < |st.order[k]| :: VisibleAt(st, c, k, i) == OK <==> a == Found(st.order[k][i]))
    && (a.Found? ==> a.loc in st.order[k])
    && (a.Deleted? <==> exists i :: 0 <= i < |st.order[k]| && VisibleAt(st, c, k, i) == DELETED)
    && (a.Failed? <==> |st.order[k]| >= 2 && c < VersionIn(st.mem.slots, st.order[k][0]).begin)
  }

  /** Walk from the head of chain `k` to the first version that is not invisible. */
  method Walk(st: Store, c: nat, k: Key, ghost ch: Chain) returns (a: Answer)
    requires Looking(st, c, k, ch)
    ensures Answers(st, c, k, a)
  {
    ghost var vs := st.order[k];
    ghost var i := |vs| - 1;
    var loc := st.mem.heads[k];
    var length := 0;
    while true
      invariant 0 <= i < |vs| && loc == vs[i] && length == |vs| - 1 - i
      invariant forall j | i < j < |vs| :: VisibleAt(st, c, k, j) == INVISIBLE
      decreases i
    {
      length := length + 1;
      assert Neighbours(st.mem, vs, i);
      var visibility := Visible(st, c, loc);
      assert visibility == VisibleAt(st, c, k, i);
      if visibility != INVISIBLE {
        a := if visibility == DELETED then Deleted else Found(loc);
        StopsAt(st, c, k, ch, i, a);
        return;
      }
      InvisibleSoFar(st, c, k, ch, i);
      if st.mem.slots[loc].v.txn == INITIAL_TXN_ID && st.mem.slots[loc].v.end <= c {
        // The executor would go back to the head, but no version has expired.
        assert false;
      }
      match st.mem.slots[loc].next {
        case None =>
          a := if length == 1 then Nothing else Failed;
          NothingSeen(st, c, k, ch, a);
          return;
        case Some(older) =>
          loc := older;
          i := i - 1;
      }
    }
  }

  method Lookup(st: Store, c: nat, k: Key) returns (a: Answer)
    requires Consistent(st) && Running(st, c) && st.txns[c].acquired.None? && k in st.mem.heads
    ensures Answers(st, c, k, a) && ReadsOwnView(st, c, k, a)
  {
    hide Consistent, Looking, Answers, ReadsOwnView;
    IndexedIsListed(st, k);
    LooksAt(st, c, k);
    RunningBeginsNothing(st, c, k);
    a := Walk(st, c, k, ChainOf(st.mem.slots, st.order[k]));
    LookupReadsOwnView(st, c, k, ChainOf(st.mem.slots, st.order[k]), a);
  }

  lemma StopsAt(st: Store, c: nat, k: Key, ch: Chain, i: nat, a: Answer)
    requires Looking(st, c, k, ch) && i < |ch| && VisibleAt(st, c, k, i) != INVISIBLE
    requires forall j | i < j < |ch| :: VisibleAt(st, c, k, j) == INVISIBLE
    requires a == if VisibleAt(st, c, k, i) == DELETED then Deleted else Found(st.order[k][i])
    ensures Answers(st, c, k, a)
  {
    forall j | 0 <= j < i ensures VisibleAt(st, c, k, j) == INVISIBLE {
      OlderInvisible(ch, j, i, c);
    }
    assert VisibleAt(st, c, k, i) == Sees(ch, i, c);
    if |ch| >= 2 && c < ch[0].begin {
      TooYoung(ch, i, c);
      assert false;
    }
  }

  lemma NothingSeen(st: Store, c: nat, k: Key, ch: Chain, a: Answer)
    requires Looking(st, c, k, ch) && |ch| > 0 && forall j | 0 <= j < |ch| :: VisibleAt(st, c, k, j) == INVISIBLE
    requires a == if |ch| == 1 then Nothing else Failed
    ensures Answers(st, c, k, a)
  {
    InvisibleSoFar(st, c, k, ch, 0);
  }

  /** An invisible version below invisible ones is too young, and so has not expired either. */
  lemma InvisibleSoFar(st: Store, c: nat, k: Key, ch: Chain, i: nat)
    requires Looking(st, c, k, ch) && i < |ch| && forall j | i <= j < |ch| :: VisibleAt(st, c, k, j) == INVISIBLE
    ensures c < ch[i].begin && (ch[i].txn == INITIAL_TXN_ID ==> c < ch[i].end)
  {
    forall j | i <= j < |ch| ensures Sees(ch, j, c) == INVISIBLE {
      assert VisibleAt(st, c, k, j) == Sees(ch, j, c);
    }
    NotExpired(ch, i, c);
    OlderVersions(ch);
  }

  // ----- The sequential scan -----

  predicate Shown(st: Store, c: nat, loc: Loc) {
    c in st.txns && loc in st.mem.slots && Visible(st, c, loc) == OK
  }

  /** `at` are the positions, in order, of exactly those slots that are shown to `c`. */
  ghost predicate Positions(st: Store, c: nat, slots: seq<Loc>, at: seq<nat>) {
    && (forall i, j | 0 <= i < j < |at| :: at[i] < at[j])
    && (forall p :: p in at <==> 0 <= p < |slots| && Shown(st, c, slots[p]))
  }

  /** Each visible slot is in `found` once for each time it is listed. */
  ghost predicate ShownCounts(st: Store, c: nat, slots: seq<Loc>, found: seq<Loc>) {
    forall loc :: multiset(found)[loc] == if Shown(st, c, loc) then multiset(slots)[loc] else 0
  }

  /** Check every slot of a tile group in turn: each visible one comes out once for each time it
      is listed, and in the order of the list. */
  method Scan(st: Store, c: nat, slots: seq<Loc>) returns (found: seq<Loc>, ghost at: seq<nat>)
    requires c in st.txns && forall loc | loc in slots :: loc in st.mem.slots
    ensures ShownCounts(st, c, slots, found)
    ensures Positions(st, c, slots, at) && |at| == |found|
    ensures forall i | 0 <= i < |at| :: at[i] < |slots| && found[i] == slots[at[i]]
  {
    hide Positions, ShownCounts, Visible;
    found, at := [], [];
    NothingScanned(st, c);
    for i := 0 to |slots|
      invariant ShownCounts(st, c, slots[..i], found) && Positions(st, c, slots[..i], at) && |at| == |found|
      invariant forall j | 0 <= j < |at| :: at[j] < i && found[j] == slots[at[j]]
    {
      NextPosition(st, c, slots, i, at);
      NextCount(st, c, slots, i, found);
      if Visible(st, c, slots[i]) == OK {
        found, at := found + [slots[i]], at + [i];
      }
    }
    assert slots[..|slots|] == slots;
  }

  lemma NothingScanned(st: Store, c: nat)
    ensures Positions(st, c, [], []) && ShownCounts(st, c, [], [])
  {
  }

  lemma NextPosition(st: Store, c: nat, slots: seq<Loc>, i: nat, at: seq<nat>)
    requires i < |slots| && Positions(st, c, slots[..i], at) && forall j | 0 <= j < |at| :: at[j] < i
    ensures Positions(st, c, slots[..i + 1], if Shown(st, c, slots[i]) then at + [i] else at)
  {
    var at' := if Shown(st, c, slots[i]) then at + [i] else at;
    forall p ensures p in at' <==> 0 <= p < i + 1 && Shown(st, c, slots[..i + 1][p]) {
      assert p in at <==> 0 <= p < i && Shown(st, c, slots[..i][p]);
    }
  }

  lemma NextCount(st: Store, c: nat, slots: seq<Loc>, i: nat, found: seq<Loc>)
    requires i < |slots| && ShownCounts(st, c, slots[..i], found)
    ensures ShownCounts(st, c, slots[..i + 1], if Shown(st, c, slots[i]) then found + [slots[i]] else found)
  {
    hide Shown;
    assert slots[..i + 1] == slots[..i] + [slots[i]];
  }

  lemma VisibleIsListed(st: Store, c: nat, loc: Loc)
    requires Consistent(st) && Running(st, c) && loc in st.mem.slots
    ensures Visible(st, c, loc) == OK ==> OnList(st, loc)
  {
    assert OnList(st, loc) || Dead(st.mem.slots[loc].v);
    assert SessionOk(st, c);
  }

  lemma FoundThere(st: Store, c: nat, a: Answer, loc: Loc)
    requires OnList(st, loc) && Answers(st, c, KeyAt(st, loc), a) && c in st.txns && Visible(st, c, loc) == OK
    ensures a == Found(loc)
  {
    assert VisibleAt(st, c, KeyAt(st, loc), IndexAt(st, loc)) == OK;
  }

  lemma FoundIsVisible(st: Store, c: nat, k: Key, loc: Loc)
    requires Answers(st, c, k, Found(loc)) && loc in st.mem.slots && c in st.txns
    ensures Visible(st, c, loc) == OK
  {
    var i :| 0 <= i < |st.order[k]| && st.order[k][i] == loc;
    assert VisibleAt(st, c, k, i) == OK;
  }

  /** One answer per index entry. */
  ghost predicate AllAnswers(st: Store, c: nat, answers: map<Key, Answer>) {
    answers.Keys == st.order.Keys && forall k | k in answers :: Answers(st, c, k, answers[k])
  }

  lemma AnswerFor(st: Store, c: nat, answers: map<Key, Answer>, loc: Loc)
    requires AllAnswers(st, c, answers) && OnList(st, loc) && c in st.txns && Visible(st, c, loc) == OK
    ensures exists k :: k in answers && answers[k] == Found(loc)
  {
    var k := KeyAt(st, loc);
    assert Answers(st, c, k, answers[k]);
    FoundThere(st, c, answers[k], loc);
  }

  lemma AnsweredIsVisible(st: Store, c: nat, answers: map<Key, Answer>, loc: Loc)
    requires AllAnswers(st, c, answers) && loc in st.mem.slots && c in st.txns
    ensures (exists k :: k in answers && answers[k] == Found(loc)) ==> Visible(st, c, loc) == OK
  {
    forall k | k in answers && answers[k] == Found(loc) ensures Visible(st, c, loc) == OK {
      assert Answers(st, c, k, answers[k]);
      FoundIsVisible(st, c, k, loc);
    }
  }

  /** INDEX LOOKUP AGREES WITH SCAN. A slot is visible to a scan if and only if it is the
      answer of the walk down some chain. */
  lemma LookupAgreesWithScan(st: Store, c: nat, answers: map<Key, Answer>, loc: Loc)
    requires Consistent(st) && Running(st, c) && loc in st.mem.slots && AllAnswers(st, c, answers)
    ensures Visible(st, c, loc) == OK <==> exists k :: k in answers && answers[k] == Found(loc)
  {
    VisibleIsListed(st, c, loc);
    AnsweredIsVisible(st, c, answers, loc);
    if Visible(st, c, loc) == OK {
      AnswerFor(st, c, answers, loc);
    }
  }
}
