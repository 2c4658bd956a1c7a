/** INTERSECT and EXCEPT by counting: a hash table decides which left rows stay visible. */
module SetOperations {

  /** The column values of a row, of which only equality matters here. */
  type Row = int

  datatype SetOp = Intersect | IntersectAll | Except | ExceptAll

  /** How often a row that occurs `l` times on the left and `r` times on the right belongs in
      the result, by section 7.10 of ISO/IEC 9075:1992. */
  function Copies(op: SetOp, l: nat, r: nat): nat {
    match op
    case Intersect => if l > 0 && r > 0 then 1 else 0
    case IntersectAll => if l < r then l else r
    case Except => if l > 0 && r == 0 then 1 else 0
    case ExceptAll => if l > r then l - r else 0
  }

  /** The result of the SQL operation on two multisets of rows. */
  ghost function SqlResult(op: SetOp, left: multiset<Row>, right: multiset<Row>): multiset<Row> {
    match op
    case Intersect => multiset(set x | x in left && x in right)
    case IntersectAll => left * right
    case Except => multiset(set x | x in left && x !in right)
    case ExceptAll => left - right
  }

  /** The numbers of copies are those of the SQL result, and no others. */
  lemma CopiesAreSql(op: SetOp, left: multiset<Row>, right: multiset<Row>, result: multiset<Row>)
    ensures (forall x :: result[x] == Copies(op, left[x], right[x])) <==> result == SqlResult(op, left, right)
  {
    forall x ensures SqlResult(op, left, right)[x] == Copies(op, left[x], right[x]) {
      if op.Intersect? {
        CountInSet((set y | y in left && y in right), x);
      } else if op.Except? {
        CountInSet((set y | y in left && y !in right), x);
      }
    }
    if forall x :: result[x] == Copies(op, left[x], right[x]) {
      assert forall x :: result[x] == SqlResult(op, left, right)[x];
    }
  }

  lemma CountInSet(s: set<Row>, x: Row)
    ensures multiset(s)[x] == if x in s then 1 else 0
  {
  }

  // ----- Counting visible rows -----

  /** Occurrences of `x` among the visible ones of the first `n` rows. */
  function CountTo(rows: seq<Row>, vis: seq<bool>, n: nat, x: Row): nat
    requires n <= |rows| == |vis|
  {
    if n == 0 then 0
    else CountTo(rows, vis, n - 1, x) + if vis[n - 1] && rows[n - 1] == x then 1 else 0
  }

  function Count(rows: seq<Row>, vis: seq<bool>, x: Row): nat
    requires |rows| == |vis|
  {
    CountTo(rows, vis, |rows|, x)
  }

  lemma {:induction false} CountSame(rows: seq<Row>, vis: seq<bool>, vis': seq<bool>, n: nat, x: Row)
    requires n <= |rows| == |vis| == |vis'| && forall i | 0 <= i < n :: vis[i] == vis'[i]
    ensures CountTo(rows, vis, n, x) == CountTo(rows, vis', n, x)
  {
    if n > 0 {
      CountSame(rows, vis, vis', n - 1, x);
    }
  }

  /** A visible row is counted. */
  lemma {:induction false} CountPositive(rows: seq<Row>, vis: seq<bool>, n: nat, i: nat)
    requires n <= |rows| == |vis| && i < n && vis[i]
    ensures CountTo(rows, vis, n, rows[i]) > 0
  {
    if i < n - 1 {
      CountPositive(rows, vis, n - 1, i);
    }
  }

  // ----- The first round -----

  /** What is left of the quotas and of the visible rows. */
  datatype Swept = Swept(vis: seq<bool>, quota: map<Row, nat>)

  /** Each value's group has a quota and, at index `first`, a representative. */
  ghost predicate Grouped(rows: seq<Row>, vis: seq<bool>, first: map<Row, nat>, quota: map<Row, nat>) {
    && |rows| == |vis| && first.Keys == quota.Keys
    && (forall i | 0 <= i < |rows| && vis[i] :: rows[i] in first)
    && (forall x | x in first :: first[x] < |rows| && vis[first[x]] && rows[first[x]] == x)
  }

  /** Visit the first `n` rows in order. Representatives are passed over; any other visible row
      uses up quota, or is hidden when there is none left. */
  function Sweep(rows: seq<Row>, vis: seq<bool>, first: map<Row, nat>, quota: map<Row, nat>, n: nat): (s: Swept)
    requires n <= |rows| == |vis|
    ensures |s.vis| == |vis| && s.quota.Keys == quota.Keys
  {
    if n == 0 then Swept(vis, quota)
    else
      var before := Sweep(rows, vis, first, quota, n - 1);
      var i := n - 1;
      if !vis[i] || rows[i] !in first || rows[i] !in quota || first[rows[i]] == i then before
      else if before.quota[rows[i]] > 0 then
        before.(quota := before.quota[rows[i] := before.quota[rows[i]] - 1])
      else before.(vis := before.vis[i := false])
  }

  /** Rows that have not been visited are as they were. */
  lemma {:induction false} SweepBeyond(rows: seq<Row>, vis: seq<bool>, first: map<Row, nat>, quota: map<Row, nat>,
                                       n: nat, i: nat)
    requires Grouped(rows, vis, first, quota) && n <= i < |rows|
    ensures Sweep(rows, vis, first, quota, n).vis[i] == vis[i]
  {
    if n > 0 {
      SweepBeyond(rows, vis, first, quota, n - 1, i);
    }
  }

  /** Whether the representative of `x` is among the first `n` rows. */
  function Passed(first: map<Row, nat>, n: nat, x: Row): nat {
    if x in first && first[x] < n then 1 else 0
  }

  /** Row `n - 1` is visible, has value `x` and is not the representative. */
  predicate IsOther(rows: seq<Row>, vis: seq<bool>, first: map<Row, nat>, n: nat, x: Row)
    requires 0 < n <= |rows| == |vis|
  {
    vis[n - 1] && rows[n - 1] == x && !(x in first && first[x] == n - 1)
  }

  /** Rows of `x` among the first `n`, not counting the representative. */
  function Others(rows: seq<Row>, vis: seq<bool>, first: map<Row, nat>, n: nat, x: Row): int
    requires n <= |rows| == |vis|
  {
    CountTo(rows, vis, n, x) - Passed(first, n, x)
  }

  lemma SeenOne(rows: seq<Row>, vis: seq<bool>, first: map<Row, nat>, quota: map<Row, nat>, n: nat, x: Row)
    requires Grouped(rows, vis, first, quota) && 0 < n <= |rows| && x in first
    ensures Others(rows, vis, first, n, x) ==
            Others(rows, vis, first, n - 1, x) + (if IsOther(rows, vis, first, n, x) then 1 else 0)
  {
  }

  /** One more row, seen from value `x`. */
  lemma SweepOne(rows: seq<Row>, vis: seq<bool>, first: map<Row, nat>, quota: map<Row, nat>, n: nat, x: Row)
    requires Grouped(rows, vis, first, quota) && 0 < n <= |rows| && x in first
    requires Sweep(rows, vis, first, quota, n - 1).vis[first[x]]
    ensures var s, s' := Sweep(rows, vis, first, quota, n - 1), Sweep(rows, vis, first, quota, n);
            var other := IsOther(rows, vis, first, n, x);
            && s'.quota[x] == (if other && s.quota[x] > 0 then s.quota[x] - 1 else s.quota[x])
            && Others(rows, s'.vis, first, n, x) ==
               Others(rows, s.vis, first, n - 1, x) + (if other && s.quota[x] > 0 then 1 else 0)
            && s'.vis[first[x]]
  {
    var s, s' := Sweep(rows, vis, first, quota, n - 1), Sweep(rows, vis, first, quota, n);
    SweepBeyond(rows, vis, first, quota, n - 1, n - 1);
    CountSame(rows, s.vis, s'.vis, n - 1, x);
  }

  /** Of `seen` rows besides the representative, `kept` are still visible. */
  predicate KeptByQuota(quota: nat, seen: int, kept: int, left: nat) {
    0 <= seen && kept == (if quota < seen then quota else seen) && left == quota - kept
  }

  lemma QuotaStep(quota: nat, seen: int, kept: int, left: nat)
    requires KeptByQuota(quota, seen, kept, left)
    ensures if left > 0 then KeptByQuota(quota, seen + 1, kept + 1, left - 1)
            else KeptByQuota(quota, seen + 1, kept, left)
  {
  }

  /** Rows of `x` that were visited and are not the representative: as many as the quota allows
      stay visible. */
  lemma {:induction false} SweepCounts(rows: seq<Row>, vis: seq<bool>, first: map<Row, nat>, quota: map<Row, nat>,
                                       n: nat, x: Row)
    requires Grouped(rows, vis, first, quota) && n <= |rows| && x in first
    ensures var s := Sweep(rows, vis, first, quota, n);
            && s.vis[first[x]]
            && KeptByQuota(quota[x], Others(rows, vis, first, n, x), Others(rows, s.vis, first, n, x), s.quota[x])
  {
    if n > 0 {
      SweepCounts(rows, vis, first, quota, n - 1, x);
      var s := Sweep(rows, vis, first, quota, n - 1);
      SweepOne(rows, vis, first, quota, n, x);
      SeenOne(rows, vis, first, quota, n, x);
      hide Sweep, KeptByQuota, Others, IsOther;
      QuotaStep(quota[x], Others(rows, vis, first, n - 1, x), Others(rows, s.vis, first, n - 1, x), s.quota[x]);
    }
  }

  /** "At most one quota left", which the executor asserts. */
  lemma SweepLeavesOne(rows: seq<Row>, vis: seq<bool>, first: map<Row, nat>, quota: map<Row, nat>, x: Row)
    requires Grouped(rows, vis, first, quota) && x in first && quota[x] <= Count(rows, vis, x)
    ensures var s := Sweep(rows, vis, first, quota, |rows|);
            && s.quota[x] <= 1 && Count(rows, s.vis, x) == quota[x] + 1 - s.quota[x] && s.vis[first[x]]
  {
    SweepCounts(rows, vis, first, quota, |rows|, x);
    CountPositive(rows, vis, |rows|, first[x]);
  }

  // ----- The second round -----

  /** Hide the representatives of the groups in `done` whose quota is used up. */
  ghost predicate Settled(rows: seq<Row>, s: Swept, first: map<Row, nat>, done: set<Row>, vis: seq<bool>) {
    && |vis| == |s.vis| == |rows| && first.Keys == s.quota.Keys
    && (forall x | x in first :: first[x] < |vis|)
    && (forall i | 0 <= i < |vis| :: vis[i] == (s.vis[i] && !IsSpent(rows, s, first, done, i)))
  }

  predicate IsSpent(rows: seq<Row>, s: Swept, first: map<Row, nat>, done: set<Row>, i: nat)
    requires i < |rows|
  {
    var x := rows[i];
    x in done && x in first && first[x] == i && x in s.quota && s.quota[x] == 0
  }

  lemma {:induction false} SettledCount(rows: seq<Row>, s: Swept, first: map<Row, nat>, done: set<Row>,
                                        vis: seq<bool>, n: nat, x: Row)
    requires Settled(rows, s, first, done, vis) && n <= |rows|
    requires x in done && x in first && s.vis[first[x]] && rows[first[x]] == x
    ensures CountTo(rows, vis, n, x) == CountTo(rows, s.vis, n, x) - if s.quota[x] == 0 then Passed(first, n, x) else 0
  {
    if n > 0 {
      SettledCount(rows, s, first, done, vis, n - 1, x);
      assert vis[n - 1] == (s.vis[n - 1] && !IsSpent(rows, s, first, done, n - 1));
    }
  }

  /** SET OPERATIONS ARE EXACT. After both rounds every row survives as often as its quota said. */
  lemma TwoRounds(rows: seq<Row>, vis: seq<bool>, first: map<Row, nat>, quota: map<Row, nat>, vis': seq<bool>, x: Row)
    requires Grouped(rows, vis, first, quota) && x in first && quota[x] <= Count(rows, vis, x)
    requires Settled(rows, Sweep(rows, vis, first, quota, |rows|), first, first.Keys, vis')
    ensures Count(rows, vis', x) == quota[x]
  {
    SweepLeavesOne(rows, vis, first, quota, x);
    SettledCount(rows, Sweep(rows, vis, first, quota, |rows|), first, first.Keys, vis', |rows|, x);
  }
}
