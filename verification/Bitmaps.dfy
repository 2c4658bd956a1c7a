/** A packed null bitmap: eight bits per byte. */
module Bitmaps {
  import opened Types

  type Byte = bv8

  function Mask(k: nat): Byte
    requires k < 8
  {
    (1 as bv8) << k
  }

  predicate TestBit(b: Byte, k: nat)
    requires k < 8
  {
    b & Mask(k) != 0
  }

  function OrBit(b: Byte, k: nat, on: bool): Byte
    requires k < 8
  {
    b | ((if on then 1 as bv8 else 0) << k)
  }

  lemma OrBitTests(b: Byte, k: nat, on: bool, j: nat)
    requires k < 8 && j < 8
    ensures TestBit(OrBit(b, k, on), j) <==> TestBit(b, j) || (j == k && on)
    ensures !TestBit(0, j)
  {
  }

  /** Bits held in bytes that have not all been touched yet. */
  predicate PendingBit(bytes: seq<Option<Byte>>, i: nat)
    requires i < 8 * |bytes|
  {
    bytes[i / 8].Some? && TestBit(bytes[i / 8].value, i % 8)
  }

  predicate GetBit(bytes: seq<Byte>, i: nat)
    requires i < 8 * |bytes|
  {
    TestBit(bytes[i / 8], i % 8)
  }

  /** Bytes needed for `n` bits. */
  function BytesFor(n: nat): nat {
    (n + 7) / 8
  }

  class BitmapWriter {
    var bytes: seq<Option<Byte>>

    constructor (bits: nat)
      ensures |bytes| == BytesFor(bits) && forall i | 0 <= i < 8 * |bytes| :: !PendingBit(bytes, i)
    {
      bytes := seq(BytesFor(bits), _ => None);
    }

    /** Or a bit into its byte; every other bit stays. */
    method SetBit(i: nat, on: bool)
      requires i < 8 * |bytes|
      modifies this
      ensures |bytes| == |old(bytes)|
      ensures forall j | 0 <= j < 8 * |bytes| :: PendingBit(bytes, j) <==> PendingBit(old(bytes), j) || (j == i && on)
    {
      var pos := i / 8;
      var was := if bytes[pos].None? then 0 else bytes[pos].value;
      ghost var before := bytes;
      bytes := bytes[pos := Some(OrBit(was, i % 8, on))];
      forall j | 0 <= j < 8 * |bytes| ensures PendingBit(bytes, j) <==> PendingBit(before, j) || (j == i && on) {
        if j / 8 == pos {
          OrBitTests(was, i % 8, on, j % 8);
        }
      }
    }

    /** Store the bytes; those never touched become zero. */
    method Write(area: array<Byte>, start: nat)
      requires start + |bytes| <= area.Length
      modifies area
      ensures forall i | 0 <= i < 8 * |bytes| :: GetBit(area[start..start + |bytes|], i) <==> PendingBit(bytes, i)
      ensures forall k | 0 <= k < area.Length && !(start <= k < start + |bytes|) :: area[k] == old(area[k])
    {
      for idx := 0 to |bytes|
        invariant forall k | 0 <= k < idx :: area[start + k] == if bytes[k].Some? then bytes[k].value else 0
        invariant forall k | 0 <= k < area.Length && !(start <= k < start + |bytes|) :: area[k] == old(area[k])
      {
        area[start + idx] := if bytes[idx].Some? then bytes[idx].value else 0;
      }
      forall i | 0 <= i < 8 * |bytes| ensures GetBit(area[start..start + |bytes|], i) <==> PendingBit(bytes, i) {
        OrBitTests(0, 0, false, i % 8);
      }
    }
  }
}
