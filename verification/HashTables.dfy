/** The open-addressing hash table of the query engine. */
module HashTables {
  import opened Types
  import opened OpenAddressing

  const INITIAL_LIST_CAPACITY: nat := 8

  /** The bucket of a key that gets one more value. */
  function WithValue(u: Bucket, v: Val): Bucket
    requires u.Used? && ListOk(u)
  {
    match u.list
    case None => u.(list := Some(ValueList(INITIAL_LIST_CAPACITY, [u.inlined, v])))
    case Some(l) =>
      u.(list := Some(ValueList(if |l.data| == l.capacity then 2 * l.capacity else l.capacity, l.data + [v])))
  }

  lemma WithValueOk(u: Bucket, v: Val)
    requires u.Used? && ListOk(u)
    ensures ListOk(WithValue(u, v)) && Values(WithValue(u, v)) == Values(u) + [v]
  {
  }

  class OAHashTable {
    var buckets: array<Bucket>
    var numEntries: nat
    var numValid: nat
    var threshold: nat
    const hash: Key -> nat
    /** The multimap that the table stands for; values in insertion order. */
    ghost var contents: map<Key, seq<Val>>

    /** At most half of the buckets are used. */
    ghost predicate Valid()
      reads this, buckets
    {
      && TableOk(buckets[..], hash) && Contains(buckets[..], contents)
      && buckets.Length == 2 * threshold && 0 < threshold && numValid <= threshold
      && numValid == Occupied(buckets[..]) && numEntries == Total(buckets[..])
    }

    constructor (size: nat, hash: Key -> nat)
      requires size >= 2 && size % 2 == 0
      ensures Valid() && contents == map[] && fresh(buckets) && this.hash == hash && buckets.Length == size
    {
      this.hash := hash;
      buckets := new Bucket[size](_ => Free);
      numEntries, numValid, threshold := 0, 0, size / 2;
      contents := map[];
      new;
      EmptyIsNone(buckets[..]);
      EmptyHasNone(buckets[..]);
    }

    // ----- Probing -----

    /** Follow the probe sequence until the key or a free bucket is met. */
    method Probe(k: Key) returns (i: nat, found: bool, ghost d: nat)
      requires Valid()
      ensures i < buckets.Length && d < buckets.Length && i == At(Home(hash(k), buckets.Length), d, buckets.Length)
      ensures PathUsed(buckets[..], Home(hash(k), buckets.Length), d)
      ensures found <==> k in contents
      ensures found ==> buckets[i].Used? && buckets[i].key == k
      ensures !found ==> buckets[i].Free?
    {
      ghost var b, home := buckets[..], Home(hash(k), buckets.Length);
      i, d := hash(k) % buckets.Length, 0;
      while buckets[i].Used?
        invariant d < |b| && i == At(home, d, |b|) && PathUsed(b, home, d)
        invariant forall j | 0 <= j < d :: b[At(home, j, |b|)].key != k
        decreases |b| - d
      {
        if buckets[i].hash == hash(k) {
          if buckets[i].key == k {
            return i, true, d;
          }
        }
        assert BucketOk(b, hash, i);
        PathIsShort(b, home, d + 1);
        i := if i + 1 == buckets.Length then 0 else i + 1;
        d := d + 1;
      }
      assert k in contents ==> HasKey(b, k);
      AbsentKey(b, hash, k, d);
      found := false;
    }

    /** All values of a key, in insertion order. */
    method FindAll(k: Key) returns (vs: seq<Val>)
      requires Valid()
      ensures vs == if k in contents then contents[k] else []
    {
      ghost var d;
      var i, found;
      i, found, d := Probe(k);
      if !found {
        return [];
      }
      assert buckets[..][i] == buckets[i];
      var u := buckets[i];
      var count, data := 1, [u.inlined];
      if u.list.Some? {
        count, data := |u.list.value.data|, u.list.value.data;
      }
      assert BucketOk(buckets[..], hash, i);
      vs := [data[0]];
      var n := 1;
      while n < count
        invariant 1 <= n <= count == |data| && vs == data[..n]
      {
        vs := vs + [data[n]];
        n := n + 1;
      }
    }

    // ----- Growing -----

    /** The next free bucket of the probe sequence of a hash value. */
    static method FindNextFree(bs: array<Bucket>, h: nat) returns (j: nat, ghost d: nat)
      requires bs.Length > 0 && Occupied(bs[..]) < bs.Length
      ensures j < bs.Length && d < bs.Length && j == At(Home(h, bs.Length), d, bs.Length)
      ensures bs[j].Free? && PathUsed(bs[..], Home(h, bs.Length), d)
    {
      ghost var b, home := bs[..], Home(h, bs.Length);
      j, d := h % bs.Length, 0;
      while bs[j].Used?
        invariant d < |b| && j == At(home, d, |b|) && PathUsed(b, home, d)
        decreases |b| - d
      {
        PathIsShort(b, home, d + 1);
        j := if j + 1 == bs.Length then 0 else j + 1;
        d := d + 1;
      }
    }

    /** Rehash everything into a table twice as large. `entry` is a bucket to keep track of; its
        new position is returned. */
    method Resize(entry: nat) returns (moved: nat)
      requires Valid() && entry < buckets.Length
      modifies this`buckets, this`threshold
      ensures Valid() && fresh(buckets) && contents == old(contents) && numEntries == old(numEntries)
      ensures buckets.Length == 2 * old(buckets.Length) && numValid == old(numValid) < threshold
      ensures old(buckets[entry]).Used? ==> moved < buckets.Length && buckets[moved] == old(buckets[entry])
    {
      ghost var b := buckets[..];
      var larger := new Bucket[2 * buckets.Length](_ => Free);
      EmptyIsNone(larger[..]);
      EmptyHasNone(larger[..]);
      var processed, i := 0, 0;
      moved := 0;
      assert b[..0] == [];
      hide TableOk, Contains, Held;
      while processed < numValid
        invariant Valid() && buckets == old(buckets) && b == buckets[..] && threshold == old(threshold)
        invariant i <= |b| && processed == Occupied(b[..i]) == Occupied(larger[..]) &&
                  Total(larger[..]) == Total(b[..i])
        invariant TableOk(larger[..], hash) && Contains(larger[..], Held(b, contents, i))
        invariant entry < i && b[entry].Used? ==> moved < larger.Length && larger[moved] == b[entry]
        decreases |b| - i
      {
        OccupiedPrefix(b, i);
        if buckets[i].Used? {
          moved := MoveEntry(larger, i, b, entry, moved);
          processed := processed + 1;
        } else {
          HeldSkips(b, contents, i);
        }
        i := i + 1;
      }
      OccupiedPrefix(b, i);
      HeldAll(b, contents, i);
      assert entry >= i ==> b[entry].Free?;
      buckets := larger;
      threshold := 2 * threshold;
    }

    /** Copy used bucket `i` to a free bucket of the larger table. */
    method MoveEntry(larger: array<Bucket>, i: nat, ghost b: seq<Bucket>, entry: nat, moved: nat) returns (moved': nat)
      requires Valid() && b == buckets[..] && larger != buckets && larger.Length == 2 * |b| && i < |b| && b[i].Used?
      requires TableOk(larger[..], hash) && Contains(larger[..], Held(b, contents, i))
      requires Occupied(larger[..]) == Occupied(b[..i]) && Total(larger[..]) == Total(b[..i])
      requires entry < i && entry < |b| && b[entry].Used? ==> moved < larger.Length && larger[moved] == b[entry]
      modifies larger
      ensures TableOk(larger[..], hash) && Contains(larger[..], Held(b, contents, i + 1))
      ensures Occupied(larger[..]) == Occupied(b[..i + 1]) == Occupied(b[..i]) + 1 &&
              Total(larger[..]) == Total(b[..i + 1])
      ensures entry < i + 1 && entry < |b| && b[entry].Used? ==> moved' < larger.Length && larger[moved'] == b[entry]
    {
      ghost var l := larger[..];
      OccupiedPrefix(b, i);
      assert BucketOk(b, hash, i);
      HeldGrows(b, hash, contents, i);
      ghost var d;
      var j;
      j, d := FindNextFree(larger, buckets[i].hash);
      StoreNew(l, hash, Held(b, contents, i), b[i].key, b[i], d);
      TotalUpdate(l, j, b[i]);
      larger[j] := buckets[i];
      assert larger[..] == l[j := b[i]];
      moved' := if entry == i then j else moved;
    }

    // ----- Storing -----

    /** Fill free bucket `i`, which ends the probe sequence of the new key. */
    method StoreFirst(k: Key, v: Val, i: nat, ghost d: nat)
      requires Valid() && numValid < threshold && k !in contents && d < buckets.Length
      requires i == At(Home(hash(k), buckets.Length), d, buckets.Length) && buckets[i].Free?
      requires PathUsed(buckets[..], Home(hash(k), buckets.Length), d)
      modifies this, buckets
      ensures Valid() && contents == old(contents)[k := [v]] && buckets == old(buckets)
    {
      ghost var b, u := buckets[..], Used(hash(k), k, v, None);
      StoreNew(b, hash, contents, k, u, d);
      TotalUpdate(b, i, u);
      hide TableOk, Contains, PathUsed;
      buckets[i] := Used(hash(k), k, v, None);
      assert buckets[..] == b[i := u];
      numEntries, numValid := numEntries + 1, numValid + 1;
      contents := contents[k := [v]];
    }

    /** Add a value to the key in used bucket `i`. */
    method StoreAnother(v: Val, i: nat)
      requires Valid() && i < buckets.Length && buckets[i].Used?
      modifies this, buckets
      ensures Valid() && buckets == old(buckets)
      ensures var k := old(buckets[i].key); k in old(contents) && contents == old(contents)[k := old(contents)[k] + [v]]
    {
      ghost var b := buckets[..];
      assert BucketOk(b, hash, i) && b[i] == buckets[i];
      WithValueOk(b[i], v);
      StoreMore(b, hash, contents, i, WithValue(b[i], v));
      TotalUpdate(b, i, WithValue(b[i], v));
      assert b[i].key in contents && contents[b[i].key] == Values(b[i]);
      hide TableOk, Contains, WithValue;
      var k := buckets[i].key;
      buckets[i] := WithValue(buckets[i], v);
      assert buckets[..] == b[i := WithValue(b[i], v)];
      numEntries := numEntries + 1;
      contents := contents[k := contents[k] + [v]];
    }

    /** Insert a pair: probe, grow if half of the buckets are used, then store into the bucket
        found, its new place, or a free bucket of the new table. */
    method Insert(k: Key, v: Val)
      requires Valid()
      modifies this, buckets
      ensures Valid() && (buckets == old(buckets) || fresh(buckets))
      ensures contents == old(contents)[k := (if k in old(contents) then old(contents)[k] else []) + [v]]
    {
      ghost var d;
      var i, found;
      i, found, d := Probe(k);
      if numValid == threshold {
        var moved := Resize(i);
        if found {
          i := moved;
        } else {
          i, d := FindNextFree(buckets, hash(k));
        }
      }
      if found {
        StoreAnother(v, i);
      } else {
        assert [] + [v] == [v];
        StoreFirst(k, v, i, d);
      }
    }

    /** The first value of the key, or insert the pair if there is none. */
    method ProbeOrInsert(k: Key, v: Val) returns (r: Option<Val>)
      requires Valid()
      modifies this, buckets
      ensures Valid() && (buckets == old(buckets) || fresh(buckets))
      ensures k in old(contents) ==>
                |old(contents)[k]| > 0 && r == Some(old(contents)[k][0]) && contents == old(contents)
      ensures k !in old(contents) ==> r == None && contents == old(contents)[k := [v]]
    {
      ghost var d;
      var i, found;
      i, found, d := Probe(k);
      if found {
        assert buckets[..][i] == buckets[i] && BucketOk(buckets[..], hash, i);
        return Some(buckets[i].inlined);
      }
      if numValid == threshold {
        var moved := Resize(i);
        i, d := FindNextFree(buckets, hash(k));
      }
      StoreFirst(k, v, i, d);
      r := None;
    }

    // ----- Iterating -----

    /** Every pair of the multimap: bucket by bucket, each key's values in insertion order. */
    method Iterate() returns (pairs: seq<(Key, Val)>)
      requires Valid()
      ensures |pairs| == numEntries && Lists(pairs, contents)
    {
      ghost var b := buckets[..];
      pairs := [];
      for i := 0 to buckets.Length
        invariant |pairs| == Total(b[..i]) && Lists(pairs, Held(b, contents, i))
      {
        if buckets[i].Used? {
          HeldGrows(b, hash, contents, i);
          assert b[i] == buckets[i] && BucketOk(b, hash, i);
          var more := PairsOf(buckets[i]);
          ListsGrow(pairs, more, Held(b, contents, i), b[i].key, Values(b[i]));
          pairs := pairs + more;
        } else {
          HeldSkips(b, contents, i);
        }
      }
      OccupiedPrefix(b, |b|);
      HeldAll(b, contents, |b|);
    }

    static method PairsOf(u: Bucket) returns (pairs: seq<(Key, Val)>)
      requires u.Used? && ListOk(u)
      ensures |pairs| == |Values(u)| && ListsOnly(pairs, u.key, Values(u))
    {
      var count, data := 1, [u.inlined];
      if u.list.Some? {
        count, data := |u.list.value.data|, u.list.value.data;
      }
      pairs := [];
      for n := 0 to count
        invariant |pairs| == n <= count == |data| && ListsOnly(pairs, u.key, data[..n])
      {
        ListsOneMore(pairs, u.key, data[..n], data[n]);
        pairs := pairs + [(u.key, data[n])];
        assert data[..n + 1] == data[..n] + [data[n]];
      }
      assert data[..count] == data;
    }
  }

  /** The values that a list of pairs gives a key, in order. */
  function ValuesOf(pairs: seq<(Key, Val)>, k: Key): seq<Val> {
    if |pairs| == 0 then []
    else ValuesOf(pairs[..|pairs| - 1], k) + if pairs[|pairs| - 1].0 == k then [pairs[|pairs| - 1].1] else []
  }

  /** The pairs are those of the multimap, each key's values in order. */
  ghost predicate Lists(pairs: seq<(Key, Val)>, m: map<Key, seq<Val>>) {
    forall k :: ValuesOf(pairs, k) == if k in m then m[k] else []
  }

  ghost predicate ListsOnly(pairs: seq<(Key, Val)>, key: Key, vs: seq<Val>) {
    forall k :: ValuesOf(pairs, k) == if k == key then vs else []
  }

  lemma ListsOneMore(pairs: seq<(Key, Val)>, key: Key, vs: seq<Val>, v: Val)
    requires ListsOnly(pairs, key, vs)
    ensures ListsOnly(pairs + [(key, v)], key, vs + [v])
  {
    var all := pairs + [(key, v)];
    assert all[..|pairs|] == pairs;
    forall k ensures ValuesOf(all, k) == if k == key then vs + [v] else [] {
      assert ValuesOf(pairs, k) == if k == key then vs else [];
    }
  }

  lemma {:induction false} ValuesAppend(a: seq<(Key, Val)>, b: seq<(Key, Val)>, k: Key)
    ensures ValuesOf(a + b, k) == ValuesOf(a, k) + ValuesOf(b, k)
  {
    if |b| == 0 {
      assert a + b == a;
    } else {
      var n := |b| - 1;
      assert (a + b)[..|a| + n] == a + b[..n];
      ValuesAppend(a, b[..n], k);
    }
  }

  lemma ListsGrow(pairs: seq<(Key, Val)>, more: seq<(Key, Val)>, m: map<Key, seq<Val>>, key: Key, vs: seq<Val>)
    requires Lists(pairs, m) && key !in m && ListsOnly(more, key, vs)
    ensures Lists(pairs + more, m[key := vs])
  {
    forall k ensures ValuesOf(pairs + more, k) == if k in m[key := vs] then m[key := vs][k] else [] {
      ValuesAppend(pairs, more, k);
      assert ValuesOf(pairs, k) == if k in m then m[k] else [];
      assert ValuesOf(more, k) == if k == key then vs else [];
    }
  }
}
