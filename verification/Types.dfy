/** Identifiers, constants and the visibility decision shared by the whole model. */
module Types {

  /** src/include/type/types.h fixes the reserved ids. Transaction ids and commit ids share
      one 64-bit space, because a transaction's id is its commit id. */
  const INVALID_TXN_ID: nat := 0
  const INITIAL_TXN_ID: nat := 1
  const INVALID_CID: nat := 0
  const MAX_CID: nat := 0xFFFF_FFFF_FFFF_FFFF

  /** A commit id that an epoch manager can hand out (epoch ids start at one). */
  predicate IsIssued(c: nat) {
    INITIAL_TXN_ID < c < MAX_CID
  }

  datatype Option<+T> = None | Some(value: T)

  datatype RWType = READ | READ_OWN | UPDATE | INSERT | DELETE | INS_DEL

  datatype Visibility = INVISIBLE | DELETED | OK

  /** The decision of TransactionManager::IsVisible. `id` is the viewer's transaction id,
      `vis` its read id, and `readOwn` says that the viewer's read/write set holds the version
      as READ_OWN. The dirty range left by recovery is empty. */
  function IsVisible(id: nat, vis: nat, txn: nat, begin: nat, end: nat, readOwn: bool): Visibility {
    var activated := vis >= begin;
    var invalidated := vis >= end;
    if txn == INVALID_TXN_ID then
      if activated && !invalidated then DELETED else INVISIBLE
    else if id == txn then
      if begin == MAX_CID && end != INVALID_CID then OK
      else if readOwn then OK
      else if end == INVALID_CID then DELETED
      else INVISIBLE
    else if txn != INITIAL_TXN_ID && begin == MAX_CID then
      INVISIBLE
    else
      if activated && !invalidated then OK else INVISIBLE
  }
}
