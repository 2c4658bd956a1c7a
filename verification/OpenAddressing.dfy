/** Open addressing with linear probing: what a bucket array must satisfy to be a multimap. */
module OpenAddressing {
  import opened Types

  type Key = int
  type Val = int

  /** An overflow list of values that grows by doubling. */
  datatype ValueList = ValueList(capacity: nat, data: seq<Val>)

  /** A bucket: free, or one key with its hash, its first value inline and, once there are
      several values, a list that holds all of them. */
  datatype Bucket = Free | Used(hash: nat, key: Key, inlined: Val, list: Option<ValueList>)

  function Values(u: Bucket): seq<Val>
    requires u.Used?
  {
    if u.list.None? then [u.inlined] else u.list.value.data
  }

  /** What every value list satisfies. */
  predicate ListOk(u: Bucket) {
    u.Used? && u.list.Some? ==>
      && 2 <= |u.list.value.data| <= u.list.value.capacity && u.list.value.data[0] == u.inlined
  }

  // ----- Probe sequences -----

  /** The `j`-th bucket of the probe sequence that begins at `home`. */
  function At(home: nat, j: nat, n: nat): nat
    requires home < n && j < n
  {
    if home + j < n then home + j else home + j - n
  }

  /** How far bucket `i` is from `home`. */
  function Distance(home: nat, i: nat, n: nat): nat
    requires home < n && i < n
  {
    if home <= i then i - home else i + n - home
  }

  lemma AtDistance(home: nat, i: nat, n: nat)
    requires home < n && i < n
    ensures Distance(home, i, n) < n && At(home, Distance(home, i, n), n) == i
  {
  }

  lemma DistanceAt(home: nat, j: nat, n: nat)
    requires home < n && j < n
    ensures At(home, j, n) < n && Distance(home, At(home, j, n), n) == j
  {
  }

  ghost predicate PathUsed(b: seq<Bucket>, home: nat, d: nat)
    requires home < |b| && d <= |b|
  {
    forall j | 0 <= j < d :: b[At(home, j, |b|)].Used?
  }

  function Home(hash: nat, n: nat): nat
    requires n > 0
    ensures Home(hash, n) < n
  {
    hash % n
  }

  /** Every used bucket can be found from its home, and no key has two buckets. */
  ghost predicate TableOk(b: seq<Bucket>, hash: Key -> nat) {
    && |b| > 0
    && (forall i | 0 <= i < |b| :: b[i].Used? ==> BucketOk(b, hash, i))
    && (forall i, j | 0 <= i < j < |b| :: b[i].Used? && b[j].Used? ==> b[i].key != b[j].key)
  }

  ghost predicate BucketOk(b: seq<Bucket>, hash: Key -> nat, i: nat)
    requires i < |b| && b[i].Used?
  {
    && b[i].hash == hash(b[i].key) && ListOk(b[i])
    && PathUsed(b, Home(b[i].hash, |b|), Distance(Home(b[i].hash, |b|), i, |b|))
  }

  /** The table holds the multimap `m`. */
  ghost predicate Contains(b: seq<Bucket>, m: map<Key, seq<Val>>) {
    && (forall i | 0 <= i < |b| :: b[i].Used? ==> b[i].key in m && m[b[i].key] == Values(b[i]))
    && (forall k | k in m :: HasKey(b, k))
  }

  ghost predicate HasKey(b: seq<Bucket>, k: Key) {
    exists i :: 0 <= i < |b| && b[i].Used? && b[i].key == k
  }

  // ----- Counting -----

  function Occupied(b: seq<Bucket>): (n: nat)
    ensures n <= |b|
  {
    if |b| == 0 then 0 else Occupied(b[..|b| - 1]) + if b[|b| - 1].Used? then 1 else 0
  }

  lemma {:induction false} OccupiedUpdate(b: seq<Bucket>, i: nat, u: Bucket)
    requires i < |b|
    ensures Occupied(b[i := u]) == Occupied(b) + (if u.Used? then 1 else 0) - (if b[i].Used? then 1 else 0)
  {
    var n := |b| - 1;
    if i < n {
      OccupiedUpdate(b[..n], i, u);
      assert b[i := u][..n] == b[..n][i := u];
    } else {
      assert b[i := u][..n] == b[..n];
    }
  }

  lemma {:induction false} FullIsAll(b: seq<Bucket>)
    requires forall i | 0 <= i < |b| :: b[i].Used?
    ensures Occupied(b) == |b|
  {
    if |b| > 0 {
      FullIsAll(b[..|b| - 1]);
    }
  }

  lemma {:induction false} EmptyIsNone(b: seq<Bucket>)
    requires forall i | 0 <= i < |b| :: b[i].Free?
    ensures Occupied(b) == 0
  {
    if |b| > 0 {
      EmptyIsNone(b[..|b| - 1]);
    }
  }

  /** The number of values in all buckets. */
  function Total(b: seq<Bucket>): nat {
    if |b| == 0 then 0
    else Total(b[..|b| - 1]) + if b[|b| - 1].Used? then |Values(b[|b| - 1])| else 0
  }

  lemma {:induction false} TotalUpdate(b: seq<Bucket>, i: nat, u: Bucket)
    requires i < |b|
    ensures Total(b[i := u]) ==
            Total(b) + (if u.Used? then |Values(u)| else 0) - (if b[i].Used? then |Values(b[i])| else 0)
  {
    var n := |b| - 1;
    if i < n {
      TotalUpdate(b[..n], i, u);
      assert b[i := u][..n] == b[..n][i := u];
    } else {
      assert b[i := u][..n] == b[..n];
    }
  }

  lemma {:induction false} EmptyHasNone(b: seq<Bucket>)
    requires forall i | 0 <= i < |b| :: b[i].Free?
    ensures Total(b) == 0
  {
    if |b| > 0 {
      EmptyHasNone(b[..|b| - 1]);
    }
  }

  /** Probing cannot go all the way around a table with a free bucket. */
  lemma PathIsShort(b: seq<Bucket>, home: nat, d: nat)
    requires home < |b| && d <= |b| && PathUsed(b, home, d) && Occupied(b) < |b|
    ensures d < |b|
  {
    if d == |b| {
      forall i | 0 <= i < |b| ensures b[i].Used? {
        AtDistance(home, i, |b|);
      }
      FullIsAll(b);
    }
  }

  // ----- Finding -----

  /** A probe that has only met other keys and now meets a free bucket: the key is absent. */
  lemma AbsentKey(b: seq<Bucket>, hash: Key -> nat, k: Key, d: nat)
    requires TableOk(b, hash) && d < |b| && b[At(Home(hash(k), |b|), d, |b|)].Free?
    requires forall j | 0 <= j < d :: var u := b[At(Home(hash(k), |b|), j, |b|)]; u.Used? ==> u.key != k
    ensures !HasKey(b, k)
  {
    var n, home := |b|, Home(hash(k), |b|);
    forall i | 0 <= i < n && b[i].Used? ensures b[i].key != k {
      assert BucketOk(b, hash, i);
      var e := Distance(Home(b[i].hash, n), i, n);
      AtDistance(Home(b[i].hash, n), i, n);
    }
  }

  // ----- Storing -----

  /** Filling the free bucket at the end of a key's probe sequence. */
  lemma StoreNew(b: seq<Bucket>, hash: Key -> nat, m: map<Key, seq<Val>>, k: Key, u: Bucket, d: nat)
    requires TableOk(b, hash) && Contains(b, m) && k !in m && d < |b|
    requires u.Used? && u.key == k && u.hash == hash(k) && ListOk(u)
    requires PathUsed(b, Home(hash(k), |b|), d) && b[At(Home(hash(k), |b|), d, |b|)].Free?
    ensures var i := At(Home(hash(k), |b|), d, |b|);
            TableOk(b[i := u], hash) && Contains(b[i := u], m[k := Values(u)]) && Occupied(b[i := u]) == Occupied(b) + 1
  {
    var n, home := |b|, Home(hash(k), |b|);
    var i := At(home, d, n);
    var b' := b[i := u];
    DistanceAt(home, d, n);
    OccupiedUpdate(b, i, u);
    forall x | 0 <= x < n && b'[x].Used? ensures BucketOk(b', hash, x) {
      if x != i {
        assert BucketOk(b, hash, x);
      }
    }
    forall x, y | 0 <= x < y < n && b'[x].Used? && b'[y].Used? ensures b'[x].key != b'[y].key {
      assert x != i ==> b[x].key in m;
      assert y != i ==> b[y].key in m;
    }
    forall q | q in m[k := Values(u)] ensures HasKey(b', q) {
      if q == k {
        assert b'[i].key == k;
      } else {
        assert HasKey(b, q);
        var x :| 0 <= x < n && b[x].Used? && b[x].key == q;
        assert b'[x].key == q;
      }
    }
  }

  /** Giving a key's bucket other values. */
  lemma StoreMore(b: seq<Bucket>, hash: Key -> nat, m: map<Key, seq<Val>>, i: nat, u: Bucket)
    requires TableOk(b, hash) && Contains(b, m) && i < |b| && b[i].Used?
    requires u.Used? && u.key == b[i].key && u.hash == b[i].hash && ListOk(u)
    ensures TableOk(b[i := u], hash) && Contains(b[i := u], m[u.key := Values(u)]) && Occupied(b[i := u]) == Occupied(b)
  {
    var b' := b[i := u];
    OccupiedUpdate(b, i, u);
    forall x | 0 <= x < |b| && b'[x].Used? ensures BucketOk(b', hash, x) {
      assert BucketOk(b, hash, x);
    }
    forall x | 0 <= x < |b| && b'[x].Used?
      ensures b'[x].key in m[u.key := Values(u)] && m[u.key := Values(u)][b'[x].key] == Values(b'[x])
    {
      assert b[x].key in m;
    }
    forall q | q in m[u.key := Values(u)] ensures HasKey(b', q) {
      if q in m {
        assert HasKey(b, q);
        var x :| 0 <= x < |b| && b[x].Used? && b[x].key == q;
        assert b'[x].key == q;
      }
    }
  }

  // ----- Moving to a larger table -----

  /** The part of the multimap that the first `n` buckets hold. */
  ghost function Held(b: seq<Bucket>, m: map<Key, seq<Val>>, n: nat): map<Key, seq<Val>>
    requires n <= |b|
  {
    map k | k in m && HasKey(b[..n], k) :: m[k]
  }

  lemma {:induction false} OccupiedPrefix(b: seq<Bucket>, n: nat)
    requires n <= |b|
    ensures Occupied(b[..n]) <= Occupied(b) && Total(b[..n]) <= Total(b)
    ensures Occupied(b[..n]) == Occupied(b) ==> Total(b[..n]) == Total(b) && forall i | n <= i < |b| :: b[i].Free?
    ensures n == |b| ==> b[..n] == b
    decreases |b|
  {
    if n == |b| {
      assert b[..n] == b;
    } else {
      var last := |b| - 1;
      assert b[..last][..n] == b[..n];
      OccupiedPrefix(b[..last], n);
    }
  }

  lemma HeldSkips(b: seq<Bucket>, m: map<Key, seq<Val>>, n: nat)
    requires n < |b| && b[n].Free?
    ensures Held(b, m, n + 1) == Held(b, m, n)
    ensures Occupied(b[..n + 1]) == Occupied(b[..n]) && Total(b[..n + 1]) == Total(b[..n])
  {
    assert b[..n + 1][..n] == b[..n];
    forall k ensures HasKey(b[..n + 1], k) <==> HasKey(b[..n], k) {
      if HasKey(b[..n], k) {
        var i :| 0 <= i < n && b[..n][i].Used? && b[..n][i].key == k;
        assert b[..n + 1][i].key == k;
      }
    }
  }

  lemma HeldGrows(b: seq<Bucket>, hash: Key -> nat, m: map<Key, seq<Val>>, n: nat)
    requires TableOk(b, hash) && Contains(b, m) && n < |b| && b[n].Used?
    ensures b[n].key !in Held(b, m, n) && Held(b, m, n + 1) == Held(b, m, n)[b[n].key := Values(b[n])]
    ensures Occupied(b[..n + 1]) == Occupied(b[..n]) + 1 && Total(b[..n + 1]) == Total(b[..n]) + |Values(b[n])|
  {
    assert b[..n + 1][..n] == b[..n];
    forall k ensures HasKey(b[..n + 1], k) <==> HasKey(b[..n], k) || k == b[n].key {
      if HasKey(b[..n], k) {
        var i :| 0 <= i < n && b[..n][i].Used? && b[..n][i].key == k;
        assert b[..n + 1][i].key == k;
      }
      assert b[..n + 1][n] == b[n];
    }
  }

  lemma HeldAll(b: seq<Bucket>, m: map<Key, seq<Val>>, n: nat)
    requires Contains(b, m) && n <= |b| && Occupied(b[..n]) == Occupied(b)
    ensures Held(b, m, n) == m && Total(b[..n]) == Total(b)
  {
    OccupiedPrefix(b, n);
    forall k | k in m ensures HasKey(b[..n], k) {
      assert HasKey(b, k);
      var i :| 0 <= i < |b| && b[i].Used? && b[i].key == k;
      assert b[..n][i] == b[i];
    }
  }
}
