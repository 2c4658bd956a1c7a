/** A transaction's read/write set and its state machine. */
module ReadWriteSet {
  import opened Types

  /** ItemPointer: a tuple slot, named by tile group and offset. */
  datatype Loc = Loc(block: nat, offset: nat)

  type RWSet = map<Loc, RWType>

  function RecordRead(rw: RWSet, loc: Loc): RWSet {
    if loc in rw then rw else rw[loc := READ]
  }

  function RecordReadOwn(rw: RWSet, loc: Loc): RWSet {
    if loc !in rw || rw[loc].READ? then rw[loc := READ_OWN] else rw
  }

  function RecordUpdate(rw: RWSet, loc: Loc): RWSet {
    if loc !in rw || rw[loc].READ? || rw[loc].READ_OWN? then rw[loc := UPDATE] else rw
  }

  function RecordInsert(rw: RWSet, loc: Loc): RWSet {
    if loc in rw then rw else rw[loc := INSERT]
  }

  function RecordDelete(rw: RWSet, loc: Loc): RWSet {
    if loc !in rw || rw[loc].READ? || rw[loc].READ_OWN? || rw[loc].UPDATE? then rw[loc := DELETE]
    else if rw[loc].INSERT? then rw[loc := INS_DEL]
    else rw
  }
}
