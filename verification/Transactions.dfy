/** The transaction object: its read/write set, kept per tile group, and its write counters. */
module Transactions {
  import opened Types
  import opened ReadWriteSet

  type TileGroupEntries = map<nat, RWType>

  /** The two-level map as one map from locations. */
  function Flat(rwSet: map<nat, TileGroupEntries>): RWSet {
    map b, o | b in rwSet && o in rwSet[b] :: Loc(b, o) := rwSet[b][o]
  }

  function Put(rwSet: map<nat, TileGroupEntries>, loc: Loc, t: RWType): map<nat, TileGroupEntries> {
    rwSet[loc.block := (if loc.block in rwSet then rwSet[loc.block] else map[])[loc.offset := t]]
  }

  lemma PutIsUpdate(rwSet: map<nat, TileGroupEntries>, loc: Loc, t: RWType)
    ensures Flat(Put(rwSet, loc, t)) == Flat(rwSet)[loc := t]
  {
    var flat := Flat(Put(rwSet, loc, t));
    forall l ensures l in flat <==> l in Flat(rwSet)[loc := t] {
      assert l == Loc(l.block, l.offset);
    }
  }

  lemma BlocksListed(rwSet: map<nat, TileGroupEntries>)
    ensures forall loc | loc in Flat(rwSet) :: loc.block in rwSet
  {
  }

  function Inserted(rw: RWSet): set<Loc> {
    set loc | loc in rw && rw[loc].INSERT?
  }

  predicate HasWrite(rw: RWSet) {
    exists loc :: loc in rw && (rw[loc].UPDATE? || rw[loc].DELETE?)
  }

  class Transaction {
    const id: nat
    var rwSet: map<nat, TileGroupEntries>
    var isWritten: bool
    var insertCount: nat

    constructor (id: nat)
      ensures this.id == id && Entries() == map[] && Valid() && Exact()
    {
      this.id := id;
      rwSet, isWritten, insertCount := map[], false, 0;
    }

    ghost function Entries(): RWSet
      reads this
    {
      Flat(rwSet)
    }

    ghost predicate Valid()
      reads this
    {
      insertCount == |Inserted(Entries())| && (isWritten ==> HasWrite(Entries()))
    }

    /** The write flag says exactly whether something was updated or deleted. */
    ghost predicate Exact()
      reads this
    {
      isWritten <==> HasWrite(Entries())
    }

    function GetRWType(loc: Loc): (r: Option<RWType>)
      reads this
      ensures r == if loc in Entries() then Some(Entries()[loc]) else None
    {
      assert loc == Loc(loc.block, loc.offset);
      if loc.block in rwSet && loc.offset in rwSet[loc.block] then Some(rwSet[loc.block][loc.offset]) else None
    }

    /** A transaction without surviving writes and inserts takes the read-only commit path. */
    function IsReadOnly(): (r: bool)
      requires Valid()
      reads this
      ensures Exact() ==> (r <==> !HasWrite(Entries()) && Inserted(Entries()) == {})
    {
      !isWritten && insertCount == 0
    }

    method RecordRead(loc: Loc)
      requires Valid()
      modifies this`rwSet
      ensures Valid() && (old(Exact()) ==> Exact())
      ensures Entries() == ReadWriteSet.RecordRead(old(Entries()), loc)
    {
      if GetRWType(loc).None? {
        PutIsUpdate(rwSet, loc, READ);
        ghost var was := Entries();
        rwSet := Put(rwSet, loc, READ);
        Rewritten(was, Entries(), loc);
      }
    }

    method RecordReadOwn(loc: Loc)
      requires Valid()
      modifies this`rwSet
      ensures Valid() && (old(Exact()) ==> Exact())
      ensures Entries() == ReadWriteSet.RecordReadOwn(old(Entries()), loc)
    {
      var t := GetRWType(loc);
      if t.None? || t.value.READ? {
        PutIsUpdate(rwSet, loc, READ_OWN);
        ghost var was := Entries();
        rwSet := Put(rwSet, loc, READ_OWN);
        Rewritten(was, Entries(), loc);
      }
    }

    /** Recording an update keeps the write flag exact if and only if the flag is already set
        or the version has been recorded before: a blind update is stored without the flag. An
        entry of a deleted version stays as it is. */
    method RecordUpdate(loc: Loc)
      requires Valid()
      modifies this`rwSet, this`isWritten
      ensures Valid() && Entries() == ReadWriteSet.RecordUpdate(old(Entries()), loc)
      ensures old(Exact()) ==> (Exact() <==> old(isWritten) || loc in old(Entries()))
    {
      var t := GetRWType(loc);
      ghost var was := Entries();
      if t.None? || t.value.READ? || t.value.READ_OWN? {
        PutIsUpdate(rwSet, loc, UPDATE);
        rwSet := Put(rwSet, loc, UPDATE);
        isWritten := isWritten || t.Some?;
        Rewritten(was, Entries(), loc);
        assert Entries()[loc].UPDATE?;
      }
    }

    method RecordInsert(loc: Loc)
      requires Valid() && loc !in Entries()
      modifies this`rwSet, this`insertCount
      ensures Valid() && (old(Exact()) ==> Exact())
      ensures Entries() == ReadWriteSet.RecordInsert(old(Entries()), loc)
    {
      PutIsUpdate(rwSet, loc, INSERT);
      ghost var was := Entries();
      rwSet := Put(rwSet, loc, INSERT);
      insertCount := insertCount + 1;
      Rewritten(was, Entries(), loc);
      assert Inserted(Entries()) == Inserted(was) + {loc};
    }

    /** Returns whether the deleted version was inserted by this transaction itself. */
    method RecordDelete(loc: Loc) returns (own: bool)
      requires Valid()
      modifies this
      ensures Valid() && Entries() == ReadWriteSet.RecordDelete(old(Entries()), loc)
      ensures own <==> loc in old(Entries()) && old(Entries())[loc].INSERT?
      ensures old(Exact()) ==> (Exact() <==> old(isWritten) || loc in old(Entries()))
    {
      var t := GetRWType(loc);
      ghost var was := Entries();
      own := t.Some? && t.value.INSERT?;
      if t.Some? && (t.value.DELETE? || t.value.INS_DEL?) {
        return;
      }
      PutIsUpdate(rwSet, loc, if own then INS_DEL else DELETE);
      rwSet := Put(rwSet, loc, if own then INS_DEL else DELETE);
      if own {
        assert loc in Inserted(was);
        assert Inserted(Entries()) == Inserted(was) - {loc};
        insertCount := insertCount - 1;
      } else if t.Some? && (t.value.READ? || t.value.READ_OWN?) {
        isWritten := true;
      }
      Rewritten(was, Entries(), loc);
      assert !own ==> Entries()[loc].DELETE?;
    }
  }

  /** Rewriting one entry leaves the others as they were. */
  lemma Rewritten(was: RWSet, now: RWSet, loc: Loc)
    requires loc in now && now == was[loc := now[loc]]
    ensures !(loc in was && was[loc].INSERT?) && !now[loc].INSERT? ==> Inserted(now) == Inserted(was)
    ensures HasWrite(now) <==> now[loc].UPDATE? || now[loc].DELETE? || HasWrite(was - {loc})
    ensures HasWrite(was) <==> (loc in was && (was[loc].UPDATE? || was[loc].DELETE?)) || HasWrite(was - {loc})
  {
    var rest := was - {loc};
    assert forall l | l in rest :: l in was && l in now && now[l] == was[l] == rest[l];
    assert forall l | l in was && l != loc :: l in rest;
  }
}
