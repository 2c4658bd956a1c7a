/** The plan cache: a map and a recency list that evicts the least recently touched key. */
module LruCache {
  import opened Types

  /** Keys by recency, most recent first, and their values. */
  datatype Lru<K(==), V> = Lru(keys: seq<K>, vals: map<K, V>)

  // ----- Recency lists -----

  ghost predicate NoDups<K>(keys: seq<K>) {
    forall i, j | 0 <= i < j < |keys| :: keys[i] != keys[j]
  }

  /** The list without `k`. */
  function Without<K(==)>(keys: seq<K>, k: K): seq<K> {
    if |keys| == 0 then []
    else if keys[0] == k then Without(keys[1..], k)
    else [keys[0]] + Without(keys[1..], k)
  }

  /** The members of `s`, in list order. */
  function Only<K(==)>(keys: seq<K>, s: set<K>): seq<K> {
    if |keys| == 0 then []
    else (if keys[0] in s then [keys[0]] else []) + Only(keys[1..], s)
  }

  lemma {:induction false} WithoutMembers<K>(keys: seq<K>, k: K)
    ensures forall x | x in Without(keys, k) :: x in keys && x != k
    ensures forall x | x in keys && x != k :: x in Without(keys, k)
    ensures NoDups(keys) ==> NoDups(Without(keys, k)) && |Without(keys, k)| == |keys| - (if k in keys then 1 else 0)
  {
    if |keys| > 0 {
      WithoutMembers(keys[1..], k);
      assert keys == [keys[0]] + keys[1..];
      if NoDups(keys) {
        assert keys[0] !in keys[1..];
      }
    }
  }

  lemma {:induction false} OnlyWithout<K>(keys: seq<K>, s: set<K>, k: K)
    ensures Only(Without(keys, k), s) == Without(Only(keys, s), k)
    ensures k !in s ==> Only(Without(keys, k), s) == Only(keys, s)
    ensures Only(keys, s - {k}) == Without(Only(keys, s), k)
  {
    if |keys| > 0 {
      OnlyWithout(keys[1..], s, k);
      var head, rest := keys[0], Only(keys[1..], s);
      assert Only(keys, s) == if head in s then [head] + rest else rest;
      assert ([head] + rest)[1..] == rest;
      if head != k {
        assert Without(keys, k) == [head] + Without(keys[1..], k);
        assert Without(keys, k)[1..] == Without(keys[1..], k);
        assert Without([head] + rest, k) == [head] + Without(rest, k);
      } else {
        assert Without([head] + rest, k) == Without(rest, k);
      }
    }
  }

  /** Moving a key to the front, seen through a selection. */
  lemma OnlyFront<K>(keys: seq<K>, s: set<K>, k: K)
    ensures Only([k] + Without(keys, k), s) == if k in s then [k] + Without(Only(keys, s), k) else Only(keys, s)
  {
    assert ([k] + Without(keys, k))[1..] == Without(keys, k);
    OnlyWithout(keys, s, k);
  }

  lemma {:induction false} OnlyAppend<K>(keys: seq<K>, k: K, s: set<K>)
    ensures Only(keys + [k], s) == Only(keys, s) + (if k in s then [k] else [])
  {
    if |keys| > 0 {
      assert (keys + [k])[1..] == keys[1..] + [k];
      OnlyAppend(keys[1..], k, s);
    }
  }

  lemma {:induction false} OnlySame<K>(keys: seq<K>, s: set<K>, t: set<K>)
    requires forall k | k in keys :: k in s <==> k in t
    ensures Only(keys, s) == Only(keys, t)
  {
    if |keys| > 0 {
      assert keys[0] in keys;
      assert forall k | k in keys[1..] :: k in keys;
      OnlySame(keys[1..], s, t);
    }
  }

  lemma OnlyPush<K>(keys: seq<K>, s: set<K>, k: K)
    requires k !in keys
    ensures Only([k] + keys, s + {k}) == [k] + Only(keys, s)
  {
    assert ([k] + keys)[1..] == keys;
    OnlySame(keys, s, s + {k});
  }

  lemma {:induction false} WithoutLast<K>(keys: seq<K>)
    requires NoDups(keys) && |keys| > 0
    ensures Without(keys, keys[|keys| - 1]) == keys[..|keys| - 1]
  {
    var n := |keys| - 1;
    if n > 0 {
      WithoutLast(keys[1..]);
      assert keys[..n] == [keys[0]] + keys[1..][..n - 1];
    } else {
      assert keys[1..] == [];
    }
  }

  /** `rest` is the list with its one `k` taken out of its place. */
  ghost predicate TakesOut<K>(keys: seq<K>, k: K, rest: seq<K>) {
    k !in rest && exists i :: 0 <= i < |keys| && keys[i] == k && rest == keys[..i] + keys[i + 1..]
  }

  lemma {:induction false} WithoutAt<K>(keys: seq<K>, i: nat)
    requires NoDups(keys) && i < |keys|
    ensures Without(keys, keys[i]) == keys[..i] + keys[i + 1..]
  {
    var rest := keys[1..];
    if i == 0 {
      WithoutAbsent(rest, keys[0]);
    } else {
      WithoutAt(rest, i - 1);
      assert keys[..i] == [keys[0]] + rest[..i - 1];
      assert keys[i + 1..] == rest[i..];
    }
  }

  lemma WithoutTakesOut<K>(keys: seq<K>, k: K)
    requires NoDups(keys) && k in keys
    ensures TakesOut(keys, k, Without(keys, k))
  {
    var i :| 0 <= i < |keys| && keys[i] == k;
    WithoutAt(keys, i);
    WithoutMembers(keys, k);
  }

  lemma {:induction false} WithoutAbsent<K>(keys: seq<K>, k: K)
    requires k !in keys
    ensures Without(keys, k) == keys
  {
    if |keys| > 0 {
      assert keys[0] in keys;
      WithoutAbsent(keys[1..], k);
    }
  }

  // ----- The operations -----

  ghost predicate LruOk<K, V>(c: Lru<K, V>) {
    && NoDups(c.keys)
    && (forall k | k in c.keys :: k in c.vals)
    && (forall k | k in c.vals :: k in c.keys)
  }

  function Front<K(==), V>(c: Lru<K, V>, k: K, vals: map<K, V>): Lru<K, V> {
    Lru([k] + Without(c.keys, k), vals)
  }

  /** Drop least recent keys until the capacity is met. */
  function Trim<K(==), V>(c: Lru<K, V>, capacity: nat): Lru<K, V>
    decreases |c.keys|
  {
    if |c.keys| <= capacity then c
    else
      var n := |c.keys| - 1;
      Trim(Lru(c.keys[..n], c.vals - {c.keys[n]}), capacity)
  }

  datatype Op<K, V> = Find(k: K) | Insert(k: K, v: V) | Delete(k: K)

  function Apply<K(==), V>(c: Lru<K, V>, capacity: nat, op: Op<K, V>): Lru<K, V> {
    match op
    case Find(k) => if k in c.vals then Front(c, k, c.vals) else c
    case Insert(k, v) =>
      if k in c.vals then Front(c, k, c.vals[k := v])
      else Trim(Lru([k] + c.keys, c.vals[k := v]), capacity)
    case Delete(k) => if k in c.vals then Lru(Without(c.keys, k), c.vals - {k}) else c
  }

  function RunOps<K(==), V>(capacity: nat, ops: seq<Op<K, V>>): Lru<K, V> {
    if |ops| == 0 then Lru([], map[]) else Apply(RunOps(capacity, ops[..|ops| - 1]), capacity, ops[|ops| - 1])
  }

  // ----- What every operation keeps -----

  lemma FrontOk<K, V>(c: Lru<K, V>, k: K, vals: map<K, V>)
    requires LruOk(c) && k in c.vals && vals.Keys == c.vals.Keys
    ensures LruOk(Front(c, k, vals)) && |Front(c, k, vals).keys| == |c.keys|
  {
    WithoutMembers(c.keys, k);
  }

  lemma DropLastOk<K, V>(c: Lru<K, V>)
    requires LruOk(c) && |c.keys| > 0
    ensures LruOk(Lru(c.keys[..|c.keys| - 1], c.vals - {c.keys[|c.keys| - 1]}))
  {
    var n := |c.keys| - 1;
    WithoutLast(c.keys);
    WithoutMembers(c.keys, c.keys[n]);
  }

  /** One eviction is enough. */
  lemma TrimOnce<K, V>(c: Lru<K, V>, capacity: nat)
    requires LruOk(c) && |c.keys| <= capacity + 1
    ensures LruOk(Trim(c, capacity)) && |Trim(c, capacity).keys| <= capacity
    ensures |c.keys| == capacity + 1 ==>
              Trim(c, capacity) == Lru(c.keys[..capacity], c.vals - {c.keys[capacity]})
  {
    if |c.keys| > capacity {
      DropLastOk(c);
    }
  }

  lemma PushOk<K, V>(c: Lru<K, V>, k: K, v: V)
    requires LruOk(c) && k !in c.vals
    ensures LruOk(Lru([k] + c.keys, c.vals[k := v]))
  {
  }

  /** Map and list agree and the size stays within the capacity. */
  lemma ApplyOk<K, V>(c: Lru<K, V>, capacity: nat, op: Op<K, V>)
    requires LruOk(c) && |c.keys| <= capacity
    ensures LruOk(Apply(c, capacity, op)) && |Apply(c, capacity, op).keys| <= capacity
  {
    match op
    case Find(k) => if k in c.vals { FrontOk(c, k, c.vals); }
    case Insert(k, v) =>
      if k in c.vals {
        FrontOk(c, k, c.vals[k := v]);
      } else {
        PushOk(c, k, v);
        TrimOnce(Lru([k] + c.keys, c.vals[k := v]), capacity);
      }
    case Delete(k) => WithoutMembers(c.keys, k);
  }

  lemma {:induction false} RunOk<K, V>(capacity: nat, ops: seq<Op<K, V>>)
    ensures LruOk(RunOps(capacity, ops)) && |RunOps(capacity, ops).keys| <= capacity
  {
    if |ops| > 0 {
      RunOk(capacity, ops[..|ops| - 1]);
      ApplyOk(RunOps(capacity, ops[..|ops| - 1]), capacity, ops[|ops| - 1]);
    }
  }

  // ----- Inclusion -----

  /** The smaller cache holds some of the larger one's entries, in the same order. The larger
      one is ahead by no more than the difference of the capacities. */
  ghost predicate Within<K, V>(c: Lru<K, V>, m: nat, d: Lru<K, V>, n: nat) {
    && c.keys == Only(d.keys, c.vals.Keys)
    && (forall k | k in c.vals :: k in d.vals && c.vals[k] == d.vals[k])
    && |d.keys| - |c.keys| <= n - m
  }

  ghost predicate Both<K, V>(c: Lru<K, V>, m: nat, d: Lru<K, V>, n: nat) {
    LruOk(c) && LruOk(d) && |c.keys| <= m && |d.keys| <= n && m <= n && Within(c, m, d, n)
  }

  lemma FrontWithin<K, V>(c: Lru<K, V>, m: nat, d: Lru<K, V>, n: nat, k: K, v: V)
    requires Both(c, m, d, n) && k in c.vals
    ensures Within(Front(c, k, c.vals[k := v]), m, Front(d, k, d.vals[k := v]), n)
  {
    hide Only, Without, LruOk;
    FrontOk(c, k, c.vals[k := v]);
    FrontOk(d, k, d.vals[k := v]);
    OnlyFront(d.keys, c.vals.Keys, k);
    assert c.vals[k := v].Keys == c.vals.Keys;
  }

  /** A hit in the larger cache alone. */
  lemma FrontLarger<K, V>(c: Lru<K, V>, m: nat, d: Lru<K, V>, n: nat, k: K, v: V)
    requires Both(c, m, d, n) && k in d.vals && k !in c.vals
    ensures Within(c, m, Front(d, k, d.vals[k := v]), n)
  {
    hide Only, Without;
    FrontOk(d, k, d.vals[k := v]);
    OnlyFront(d.keys, c.vals.Keys, k);
  }

  lemma DeleteWithin<K, V>(c: Lru<K, V>, m: nat, d: Lru<K, V>, n: nat, k: K)
    requires Both(c, m, d, n) && k in d.vals
    ensures Within(Apply(c, m, Op<K, V>.Delete(k)), m, Apply(d, n, Op<K, V>.Delete(k)), n)
  {
    hide Only, Without;
    var s := c.vals.Keys;
    OnlyWithout(d.keys, s, k);
    WithoutMembers(d.keys, k);
    WithoutMembers(c.keys, k);
    OnlyWithout(d.keys, s - {k}, k);
    assert (c.vals - {k}).Keys == s - {k};
    if k !in c.vals {
      assert s - {k} == s;
    }
  }

  lemma PushWithin<K, V>(c: Lru<K, V>, m: nat, d: Lru<K, V>, n: nat, k: K, v: V)
    requires Both(c, m, d, n) && k !in c.vals && k !in d.vals
    ensures Within(Lru([k] + c.keys, c.vals[k := v]), m, Lru([k] + d.keys, d.vals[k := v]), n)
  {
    hide Only;
    OnlyPush(d.keys, c.vals.Keys, k);
    assert c.vals[k := v].Keys == c.vals.Keys + {k};
  }

  /** The larger cache already holds the key that the smaller one pushes. */
  lemma PushSmaller<K, V>(c: Lru<K, V>, m: nat, d: Lru<K, V>, n: nat, k: K, v: V)
    requires Both(c, m, d, n) && k !in c.vals && k in d.vals
    ensures Within(Lru([k] + c.keys, c.vals[k := v]), m, Front(d, k, d.vals[k := v]), n)
  {
    hide Only, Without;
    var s := c.vals.Keys;
    FrontOk(d, k, d.vals[k := v]);
    OnlyFront(d.keys, s + {k}, k);
    OnlyWithout(d.keys, s + {k}, k);
    assert s + {k} - {k} == s && c.vals[k := v].Keys == s + {k};
  }

  /** The smaller cache evicts its least recent key. */
  lemma EvictSmaller<K, V>(c: Lru<K, V>, d: Lru<K, V>)
    requires LruOk(c) && |c.keys| > 0 && c.keys == Only(d.keys, c.vals.Keys)
    ensures var x := c.keys[|c.keys| - 1]; c.keys[..|c.keys| - 1] == Only(d.keys, (c.vals - {x}).Keys)
  {
    var x := c.keys[|c.keys| - 1];
    OnlyWithout(d.keys, c.vals.Keys, x);
    WithoutLast(c.keys);
    assert (c.vals - {x}).Keys == c.vals.Keys - {x};
  }

  /** The larger cache evicts a key that the smaller one does not hold. */
  lemma EvictLarger<K, V>(c: Lru<K, V>, d: Lru<K, V>)
    requires |d.keys| > 0 && c.keys == Only(d.keys, c.vals.Keys) && d.keys[|d.keys| - 1] !in c.vals
    ensures c.keys == Only(d.keys[..|d.keys| - 1], c.vals.Keys)
  {
    var n := |d.keys| - 1;
    assert d.keys == d.keys[..n] + [d.keys[n]];
    OnlyAppend(d.keys[..n], d.keys[n], c.vals.Keys);
  }

  /** If the smaller cache holds the larger one's least recent key, it is its own. */
  lemma SharedLast<K, V>(c: Lru<K, V>, d: Lru<K, V>)
    requires |d.keys| > 0 && c.keys == Only(d.keys, c.vals.Keys) && d.keys[|d.keys| - 1] in c.vals
    ensures |c.keys| > 0 && c.keys[|c.keys| - 1] == d.keys[|d.keys| - 1]
  {
    var n := |d.keys| - 1;
    assert d.keys == d.keys[..n] + [d.keys[n]];
    OnlyAppend(d.keys[..n], d.keys[n], c.vals.Keys);
  }

  /** Both caches have just pushed a key; evicting keeps the inclusion. */
  lemma TrimWithin<K, V>(c: Lru<K, V>, m: nat, d: Lru<K, V>, n: nat)
    requires LruOk(c) && LruOk(d) && m <= n && |c.keys| <= m + 1 && |d.keys| <= n + 1 && Within(c, m, d, n)
    ensures Within(Trim(c, m), m, Trim(d, n), n)
  {
    TrimOnce(c, m);
    TrimOnce(d, n);
    var c', d' := Trim(c, m), Trim(d, n);
    if |c.keys| == m + 1 {
      EvictSmaller(c, d);
    }
    if |d.keys| == n + 1 {
      if d.keys[n] in c.vals {
        SharedLast(c, d);
      }
      EvictLarger(c', d);
    }
  }

  lemma HeldInBoth<K, V>(c: Lru<K, V>, m: nat, d: Lru<K, V>, n: nat, k: K)
    requires Within(c, m, d, n)
    ensures k in c.vals ==> k in d.vals
  {
  }

  lemma InsertWithin<K, V>(c: Lru<K, V>, m: nat, d: Lru<K, V>, n: nat, k: K, v: V)
    requires Both(c, m, d, n)
    ensures Within(Apply(c, m, Insert(k, v)), m, Apply(d, n, Insert(k, v)), n)
  {
    hide Within, Only, Without;
    HeldInBoth(c, m, d, n, k);
    if k in c.vals {
      FrontWithin(c, m, d, n, k, v);
    } else {
      PushOk(c, k, v);
      if k in d.vals {
        FrontOk(d, k, d.vals[k := v]);
        PushSmaller(c, m, d, n, k, v);
        TrimWithin(Lru([k] + c.keys, c.vals[k := v]), m, Front(d, k, d.vals[k := v]), n);
      } else {
        PushOk(d, k, v);
        PushWithin(c, m, d, n, k, v);
        TrimWithin(Lru([k] + c.keys, c.vals[k := v]), m, Lru([k] + d.keys, d.vals[k := v]), n);
      }
    }
  }

  lemma FindWithin<K, V>(c: Lru<K, V>, m: nat, d: Lru<K, V>, n: nat, k: K)
    requires Both(c, m, d, n)
    ensures Within(Apply(c, m, Op<K, V>.Find(k)), m, Apply(d, n, Op<K, V>.Find(k)), n)
  {
    if k in c.vals {
      assert c.vals == c.vals[k := c.vals[k]] && d.vals == d.vals[k := c.vals[k]];
      FrontWithin(c, m, d, n, k, c.vals[k]);
    } else if k in d.vals {
      assert d.vals == d.vals[k := d.vals[k]];
      FrontLarger(c, m, d, n, k, d.vals[k]);
    }
  }

  /** INCLUSION. On the same trace a smaller cache's contents are always part of a larger
      one's, with the same values and in the same recency order. */
  lemma {:induction false} Inclusion<K, V>(m: nat, n: nat, ops: seq<Op<K, V>>)
    requires m <= n
    ensures Both(RunOps(m, ops), m, RunOps(n, ops), n)
  {
    RunOk(m, ops);
    RunOk(n, ops);
    if |ops| > 0 {
      var last := |ops| - 1;
      Inclusion(m, n, ops[..last]);
      var c, d := RunOps(m, ops[..last]), RunOps(n, ops[..last]);
      match ops[last]
      case Find(k) => FindWithin(c, m, d, n, k);
      case Insert(k, v) => InsertWithin(c, m, d, n, k, v);
      case Delete(k) => if k in d.vals { DeleteWithin(c, m, d, n, k); }
    }
  }

  // ----- Recency -----

  /** The operation uses the key: it inserts it, or finds it in the cache. */
  predicate Touches<K(==), V>(c: Lru<K, V>, op: Op<K, V>, k: K) {
    op.k == k && (op.Insert? || (op.Find? && k in c.vals))
  }

  /** When a key was last touched, counting from one; zero if never. */
  function LastTouch<K(==), V>(capacity: nat, ops: seq<Op<K, V>>, k: K): (t: nat)
    ensures t <= |ops|
  {
    if |ops| == 0 then 0
    else
      var n := |ops| - 1;
      if Touches(RunOps(capacity, ops[..n]), ops[n], k) then |ops| else LastTouch(capacity, ops[..n], k)
  }

  /** The keys are ordered by their last touch, latest first. */
  ghost predicate ByTouch<K, V>(capacity: nat, ops: seq<Op<K, V>>, keys: seq<K>) {
    |keys| > 0 ==>
      && (forall x | x in keys[1..] :: LastTouch(capacity, ops, x) < LastTouch(capacity, ops, keys[0]))
      && ByTouch(capacity, ops, keys[1..])
  }

  lemma {:induction false} WithoutByTouch<K, V>(capacity: nat, ops: seq<Op<K, V>>, keys: seq<K>, k: K)
    requires ByTouch(capacity, ops, keys)
    ensures ByTouch(capacity, ops, Without(keys, k))
  {
    if |keys| > 0 {
      WithoutByTouch(capacity, ops, keys[1..], k);
      WithoutMembers(keys[1..], k);
      if keys[0] != k {
        assert Without(keys, k)[1..] == Without(keys[1..], k);
      }
    }
  }

  lemma {:induction false} PrefixByTouch<K, V>(capacity: nat, ops: seq<Op<K, V>>, keys: seq<K>, n: nat)
    requires ByTouch(capacity, ops, keys) && n <= |keys|
    ensures ByTouch(capacity, ops, keys[..n])
  {
    if n > 0 {
      PrefixByTouch(capacity, ops, keys[1..], n - 1);
      assert keys[..n][1..] == keys[1..][..n - 1];
      assert forall x | x in keys[1..][..n - 1] :: x in keys[1..];
    }
  }

  /** Touching a key leaves the order of the others as it was. */
  lemma {:induction false} OthersByTouch<K, V>(capacity: nat, ops: seq<Op<K, V>>, op: Op<K, V>, keys: seq<K>)
    requires ByTouch(capacity, ops, keys) && forall x | x in keys :: !Touches(RunOps(capacity, ops), op, x)
    ensures ByTouch(capacity, ops + [op], keys)
  {
    var all := ops + [op];
    assert all[..|ops|] == ops;
    forall x | x in keys ensures LastTouch(capacity, all, x) == LastTouch(capacity, ops, x) {
    }
    if |keys| > 0 {
      assert keys[0] in keys && forall x | x in keys[1..] :: x in keys;
      OthersByTouch(capacity, ops, op, keys[1..]);
    }
  }

  lemma FrontByTouch<K, V>(capacity: nat, ops: seq<Op<K, V>>, op: Op<K, V>, rest: seq<K>)
    requires ByTouch(capacity, ops + [op], rest) && Touches(RunOps(capacity, ops), op, op.k)
    requires forall x | x in rest :: !Touches(RunOps(capacity, ops), op, x)
    ensures ByTouch(capacity, ops + [op], [op.k] + rest)
  {
    var all := ops + [op];
    assert all[..|ops|] == ops && ([op.k] + rest)[1..] == rest;
  }

  /** The list is always ordered by last touch. */
  lemma {:induction false} RecencyOrder<K, V>(capacity: nat, ops: seq<Op<K, V>>)
    ensures ByTouch(capacity, ops, RunOps(capacity, ops).keys)
  {
    if |ops| > 0 {
      var n := |ops| - 1;
      var before, op, c := ops[..n], ops[n], RunOps(capacity, ops[..n]);
      assert before + [op] == ops;
      RecencyOrder(capacity, before);
      RunOk(capacity, before);
      WithoutByTouch(capacity, before, c.keys, op.k);
      WithoutMembers(c.keys, op.k);
      if op.k in c.vals {
        OthersByTouch(capacity, before, op, Without(c.keys, op.k));
        if !op.Delete? {
          FrontByTouch(capacity, before, op, Without(c.keys, op.k));
        }
      } else {
        OthersByTouch(capacity, before, op, c.keys);
        if op.Insert? {
          FrontByTouch(capacity, before, op, c.keys);
          PushOk(c, op.k, op.v);
          var pushed := Lru([op.k] + c.keys, c.vals[op.k := op.v]);
          TrimOnce(pushed, capacity);
          if |pushed.keys| == capacity + 1 {
            PrefixByTouch(capacity, ops, pushed.keys, capacity);
          }
        }
      }
    }
  }

  lemma {:induction false} LastIsLeast<K, V>(capacity: nat, ops: seq<Op<K, V>>, keys: seq<K>, x: K)
    requires ByTouch(capacity, ops, keys) && x in keys && x != keys[|keys| - 1]
    ensures LastTouch(capacity, ops, keys[|keys| - 1]) < LastTouch(capacity, ops, x)
  {
    var last := keys[|keys| - 1];
    assert keys == [keys[0]] + keys[1..];
    if |keys| > 1 {
      assert last == keys[1..][|keys| - 2];
      if x != keys[0] {
        LastIsLeast(capacity, ops, keys[1..], x);
      }
    }
  }

  /** LEAST RECENTLY USED. An insert loses another key only when the cache is full, and then
      exactly the one whose last touch lies furthest back. */
  lemma EvictsLeastRecent<K, V>(capacity: nat, ops: seq<Op<K, V>>, k: K, v: V, lost: K)
    requires var c := RunOps(capacity, ops); lost in c.vals && lost !in Apply(c, capacity, Insert(k, v)).vals
    ensures var c := RunOps(capacity, ops);
            && |c.keys| == capacity && k !in c.vals
            && (forall x | x in c.vals && x != lost :: LastTouch(capacity, ops, lost) < LastTouch(capacity, ops, x))
            && (forall x | x in c.vals && x != lost :: x in Apply(c, capacity, Insert(k, v)).vals)
  {
    var c := RunOps(capacity, ops);
    RunOk(capacity, ops);
    RecencyOrder(capacity, ops);
    PushOk(c, k, v);
    var pushed := Lru([k] + c.keys, c.vals[k := v]);
    TrimOnce(pushed, capacity);
    assert lost == pushed.keys[capacity] == c.keys[|c.keys| - 1];
    forall x | x in c.vals && x != lost ensures LastTouch(capacity, ops, lost) < LastTouch(capacity, ops, x) {
      LastIsLeast(capacity, ops, c.keys, x);
    }
  }

  // ----- The cache object -----

  class Cache<K(==), V> {
    var map_: map<K, V>
    var list: seq<K>
    const capacity: nat

    ghost function State(): Lru<K, V>
      reads this
    {
      Lru(list, map_)
    }

    ghost predicate Valid()
      reads this
    {
      LruOk(State()) && |list| <= capacity
    }

    constructor (capacity: nat)
      ensures Valid() && State() == Lru([], map[]) && this.capacity == capacity
    {
      this.capacity := capacity;
      map_, list := map[], [];
    }

    /** A hit moves the key to the front. */
    method Find(k: K) returns (r: Option<V>)
      requires Valid()
      modifies this
      ensures Valid() && State() == Apply(old(State()), capacity, Op<K, V>.Find(k))
      ensures r == if k in old(map_) then Some(old(map_)[k]) else None
      ensures map_ == old(map_) && (k !in old(map_) ==> list == old(list))
      ensures k in old(map_) ==> |list| > 0 && list[0] == k && TakesOut(old(list), k, list[1..])
    {
      ApplyOk(State(), capacity, Op<K, V>.Find(k));
      if k !in map_ {
        return None;
      }
      WithoutTakesOut(list, k);
      list := [k] + Without(list, k);
      return Some(map_[k]);
    }

    method Insert(k: K, v: V)
      requires Valid()
      modifies this
      ensures Valid() && State() == Apply(old(State()), capacity, Op<K, V>.Insert(k, v))
      ensures 0 < capacity ==> k in map_ && map_[k] == v && |list| > 0 && list[0] == k
      ensures k in old(map_) ==> map_ == old(map_)[k := v] && 0 < capacity && TakesOut(old(list), k, list[1..])
      ensures k !in old(map_) && |old(list)| < capacity ==>
                map_ == old(map_)[k := v] && list == [k] + old(list)
      ensures k !in old(map_) && |old(list)| == capacity > 0 ==>
                map_ == old(map_)[k := v] - {old(list)[capacity - 1]} && list == [k] + old(list)[..capacity - 1]
      ensures capacity == 0 ==> map_ == map[] && list == []
    {
      ApplyOk(State(), capacity, Op<K, V>.Insert(k, v));
      if k in map_ {
        WithoutTakesOut(list, k);
        list := [k] + Without(list, k);
        map_ := map_[k := v];
      } else {
        PushOk(State(), k, v);
        TrimOnce(Lru([k] + list, map_[k := v]), capacity);
        list := [k] + list;
        map_ := map_[k := v];
        Evict();
      }
    }

    /** Drop keys from the back until the cache fits. */
    method Evict()
      requires LruOk(State())
      modifies this
      ensures State() == Trim(old(State()), capacity)
    {
      while |list| > capacity
        invariant LruOk(State()) && Trim(State(), capacity) == Trim(old(State()), capacity)
        decreases |list|
      {
        DropLastOk(State());
        hide LruOk;
        var deleted := list[|list| - 1];
        map_ := map_ - {deleted};
        list := list[..|list| - 1];
      }
    }

    method DeleteKey(k: K)
      requires Valid()
      modifies this
      ensures Valid() && State() == Apply(old(State()), capacity, Op<K, V>.Delete(k))
      ensures map_ == old(map_) - {k} && k !in list
      ensures if k in old(map_) then TakesOut(old(list), k, list) else list == old(list)
    {
      ApplyOk(State(), capacity, Op<K, V>.Delete(k));
      if k in map_ {
        WithoutTakesOut(list, k);
        list := Without(list, k);
        map_ := map_ - {k};
      }
    }
  }
}
