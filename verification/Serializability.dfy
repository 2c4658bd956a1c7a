/** Committed transactions behave as if they ran one after another in commit-id order. */
module Serializability {
  import opened Types
  import opened VersionChain
  import opened ChainActions
  import opened Replay
  import opened Protocol
  import opened ProtocolInvariant
  import opened ProtocolCommit

  /** Serial execution of whole transactions: each one's reads must find what it observed. */
  function ReplayAll(db: Database, txns: map<nat, Txn>, order: seq<nat>): Option<Database>
    requires forall c | c in order :: c in txns
  {
    if |order| == 0 then Some(db)
    else match ReplayAll(db, txns, order[..|order| - 1])
      case None => None
      case Some(before) => Replay.Replay(before, txns[order[|order| - 1]].log)
  }

  /** All committed transactions of `s`, by increasing commit id. */
  ghost predicate CommitOrder(s: State, order: seq<nat>) {
    && (forall i, j | 0 <= i < j < |order| :: order[i] < order[j])
    && (forall c :: c in order <==> IsCommitted(s, c))
  }

  /** The contents a reader finds once all installed versions are behind it. */
  ghost function Latest(s: State): Database {
    View(s.chains, MAX_CID)
  }

  /** The timestamp of the `j`-th committed transaction, or the end of time. */
  function Boundary(order: seq<nat>, j: nat): nat {
    if j < |order| then order[j] else MAX_CID
  }

  lemma BeginInOrder(s: State, order: seq<nat>, k: Key, i: nat) returns (at: nat)
    requires Inv(s) && CommitOrder(s, order) && k in s.chains && i < |s.chains[k]| && !Pending(s.chains[k][i])
    ensures at < |order| && order[at] == s.chains[k][i].begin
  {
    var b := s.chains[k][i].begin;
    assert ChainOk(s, k);
    assert b in Begins(s.chains[k]);
    assert b in order;
    at :| 0 <= at < |order| && order[at] == b;
  }

  lemma OrderIssued(s: State, order: seq<nat>)
    requires Inv(s) && CommitOrder(s, order)
    ensures forall i | 0 <= i < |order| :: IsIssued(order[i]) && order[i] in s.txns
  {
    forall i | 0 <= i < |order| ensures IsIssued(order[i]) && order[i] in s.txns {
      assert order[i] in order;
      assert TxnOk(s, order[i]);
    }
  }

  /** No version begins strictly between two neighbours of the order. */
  lemma BeginOutside(s: State, order: seq<nat>, j: nat, k: Key, i: nat)
    requires Inv(s) && CommitOrder(s, order) && j < |order| && k in s.chains && i < |s.chains[k]|
    ensures s.chains[k][i].begin < order[j] + 1 || Boundary(order, j + 1) <= s.chains[k][i].begin
  {
    hide Inv, CommitOrder;
    if Pending(s.chains[k][i]) {
      BoundaryAfter(s, order, j);
    } else {
      var at := BeginInOrder(s, order, k, i);
      InOrder(s, order, at, j);
      if j + 1 < |order| {
        InOrder(s, order, j + 1, at);
      }
    }
  }

  lemma InOrder(s: State, order: seq<nat>, a: nat, b: nat)
    requires CommitOrder(s, order) && a < |order| && b < |order|
    ensures a <= b ==> order[a] <= order[b]
  {
  }

  lemma BoundaryAfter(s: State, order: seq<nat>, j: nat)
    requires Inv(s) && CommitOrder(s, order) && j < |order|
    ensures order[j] + 1 <= Boundary(order, j + 1) <= MAX_CID
  {
    OrderIssued(s, order);
  }

  lemma LookBetween(s: State, order: seq<nat>, j: nat, k: Key)
    requires Inv(s) && CommitOrder(s, order) && j < |order| && k in s.chains
    ensures ValueAt(s.chains[k], order[j] + 1) == ValueAt(s.chains[k], Boundary(order, j + 1))
  {
    hide Inv, CommitOrder, ValueAt, WellFormed;
    var a, b := order[j] + 1, Boundary(order, j + 1);
    BoundaryAfter(s, order, j);
    var ch := s.chains[k];
    forall i | 0 <= i < |ch| ensures ch[i].begin < a || b <= ch[i].begin {
      BeginOutside(s, order, j, k, i);
    }
    ValueAtGap(ch, a, b);
  }

  lemma NothingBetween(s: State, order: seq<nat>, j: nat)
    requires Inv(s) && CommitOrder(s, order) && j < |order|
    ensures View(s.chains, order[j] + 1) == View(s.chains, Boundary(order, j + 1))
  {
    hide View, Inv, CommitOrder, ValueAt;
    var a, b := order[j] + 1, Boundary(order, j + 1);
    OrderIssued(s, order);
    forall k: Key ensures Look(s.chains, k, a) == Look(s.chains, k, b) {
      if k in s.chains {
        LookBetween(s, order, j, k);
      }
    }
    ViewSame(s.chains, s.chains, a, b);
  }

  lemma NothingBeforeFirst(s: State, order: seq<nat>)
    requires Inv(s) && CommitOrder(s, order)
    ensures View(s.chains, Boundary(order, 0)) == map[]
  {
    var b := Boundary(order, 0);
    OrderIssued(s, order);
    forall k | k in s.chains ensures ValueAt(s.chains[k], b) == None {
      var ch := s.chains[k];
      forall i | 0 <= i < |ch| ensures b <= ch[i].begin {
        if !Pending(ch[i]) {
          var at := BeginInOrder(s, order, k, i);
        }
      }
      ValueAtBefore(ch, b);
    }
  }

  /** A committed transaction turns the database before it into the database after it. */
  lemma CommittedReplays(s: State, c: nat)
    requires Inv(s) && IsCommitted(s, c)
    ensures Replay.Replay(View(s.chains, c), s.txns[c].log) == Some(View(s.chains, c + 1))
  {
    assert TxnOk(s, c);
  }

  lemma {:induction false} ReplayPrefix(s: State, order: seq<nat>, j: nat)
    requires Inv(s) && CommitOrder(s, order) && j <= |order|
    requires forall c | c in order[..j] :: c in s.txns
    ensures ReplayAll(map[], s.txns, order[..j]) == Some(View(s.chains, Boundary(order, j)))
  {
    if j == 0 {
      NothingBeforeFirst(s, order);
    } else {
      assert order[..j][..j - 1] == order[..j - 1];
      ReplayPrefix(s, order, j - 1);
      assert order[j - 1] in order;
      CommittedReplays(s, order[j - 1]);
      NothingBetween(s, order, j - 1);
    }
  }

  /** SERIALIZABILITY. After any interleaving of the steps of any transactions, executing only
      the committed ones, whole and in commit-id order, on an empty single-version database
      succeeds: every read finds the value it observed in the interleaved run, every lookup
      that found a deleted tuple finds none, and the final contents are those of the chains. */
  lemma Serializable(steps: seq<Step>, order: seq<nat>)
    requires CommitOrder(Run(Empty, steps), order)
    ensures var s := Run(Empty, steps);
            && (forall c | c in order :: c in s.txns)
            && ReplayAll(map[], s.txns, order) == Some(Latest(s))
  {
    var s := Run(Empty, steps);
    RunKeepsInv(Empty, steps);
    OrderIssued(s, order);
    assert order[..|order|] == order;
    ReplayPrefix(s, order, |order|);
  }

  // ----- Such an order always exists -----

  predicate Increasing(order: seq<nat>) {
    forall i, j | 0 <= i < j < |order| :: order[i] < order[j]
  }

  lemma {:induction false} Sorted(ids: set<nat>) returns (order: seq<nat>)
    ensures Increasing(order) && forall c :: c in order <==> c in ids
  {
    if ids == {} {
      order := [];
    } else {
      var top := Largest(ids);
      var rest := Sorted(ids - {top});
      forall i | 0 <= i < |rest| ensures rest[i] < top {
        assert rest[i] in rest;
      }
      order := rest + [top];
    }
  }

  lemma {:induction false} Largest(ids: set<nat>) returns (top: nat)
    requires ids != {}
    ensures top in ids && forall c | c in ids :: c <= top
  {
    top :| top in ids;
    var others := ids - {top};
    assert forall c | c in ids :: c == top || c in others;
    if others != {} {
      var other := Largest(others);
      if top < other {
        top := other;
      }
    }
  }

  lemma CommitOrderExists(s: State) returns (order: seq<nat>)
    ensures CommitOrder(s, order)
  {
    order := Sorted(set c | c in s.txns && IsCommitted(s, c));
  }
}
