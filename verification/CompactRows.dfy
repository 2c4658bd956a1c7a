/** The compact row format: null bitmap first, then values and lengths by decreasing size. */
module CompactRows {
  import opened Types
  import opened Bitmaps

  /** The materialized form of a column type: bytes of the value and, for variable-length
      types, of the length. */
  datatype ColumnType = ColumnType(value: nat, length: Option<nat>)

  /** A column's raw value, its length component and its null bit. */
  datatype Datum = Datum(value: seq<Byte>, length: seq<Byte>, isNull: bool)

  /** A stored component of a column and its size. */
  datatype Entry = Entry(column: nat, isLength: bool, size: nat)

  predicate ValidRow(schema: seq<ColumnType>, row: seq<Datum>) {
    && |row| == |schema|
    && forall c | 0 <= c < |schema| ::
         && |row[c].value| == schema[c].value
         && |row[c].length| == if schema[c].length.Some? then schema[c].length.value else 0
  }

  function ColumnEntries(schema: seq<ColumnType>, c: nat): seq<Entry>
    requires c < |schema|
  {
    [Entry(c, false, schema[c].value)] +
    if schema[c].length.Some? then [Entry(c, true, schema[c].length.value)] else []
  }

  function Entries(schema: seq<ColumnType>, n: nat): seq<Entry>
    requires n <= |schema|
  {
    if n == 0 then [] else Entries(schema, n - 1) + ColumnEntries(schema, n - 1)
  }

  /** Each value, and each length of a variable-length column, has exactly one entry. */
  ghost predicate IsFormat(schema: seq<ColumnType>, format: seq<Entry>) {
    && (forall i | 0 <= i < |format| ::
          format[i].column < |schema| && format[i] in ColumnEntries(schema, format[i].column))
    && (forall c | 0 <= c < |schema| :: Entry(c, false, schema[c].value) in format)
    && (forall c | 0 <= c < |schema| && schema[c].length.Some? :: Entry(c, true, schema[c].length.value) in format)
    && (forall i, j | 0 <= i < j < |format| :: format[i] != format[j])
  }

  ghost predicate BySize(format: seq<Entry>) {
    forall i, j | 0 <= i < j < |format| :: format[j].size <= format[i].size
  }

  function SizeOf(format: seq<Entry>, n: nat): nat
    requires n <= |format|
  {
    if n == 0 then 0 else SizeOf(format, n - 1) + format[n - 1].size
  }

  lemma {:induction false} SizesGrow(format: seq<Entry>, i: nat, j: nat)
    requires i <= j <= |format|
    ensures SizeOf(format, i) <= SizeOf(format, j)
  {
    if i < j {
      SizesGrow(format, i, j - 1);
    }
  }

  function Component(row: seq<Datum>, e: Entry): seq<Byte>
    requires e.column < |row|
  {
    if e.isLength then row[e.column].length else row[e.column].value
  }

  lemma ComponentSize(schema: seq<ColumnType>, row: seq<Datum>, e: Entry)
    requires ValidRow(schema, row) && e.column < |schema| && e in ColumnEntries(schema, e.column)
    ensures |Component(row, e)| == e.size
  {
  }

  /** Total bytes of a row. */
  function RowSize(schema: seq<ColumnType>, format: seq<Entry>): nat {
    BytesFor(|schema|) + SizeOf(format, |format|)
  }

  /** Bytes `b` are the stored form of `row`: each entry's component at its place, and each
      column's null bit in the bitmap. */
  ghost predicate Holds(schema: seq<ColumnType>, format: seq<Entry>, b: seq<Byte>, row: seq<Datum>) {
    && |b| == RowSize(schema, format) && |row| == |schema|
    && (forall i | 0 <= i < |format| :: HoldsEntry(schema, format, b, row, i))
    && (forall c | 0 <= c < |schema| :: HoldsNull(schema, b, row, c))
  }

  predicate HoldsEntry(schema: seq<ColumnType>, format: seq<Entry>, b: seq<Byte>, row: seq<Datum>, i: nat)
    requires i < |format|
  {
    var at := BytesFor(|schema|) + SizeOf(format, i);
    && format[i].column < |row| && at + format[i].size <= |b|
    && b[at..at + format[i].size] == Component(row, format[i])
  }

  predicate HoldsNull(schema: seq<ColumnType>, b: seq<Byte>, row: seq<Datum>, c: nat) {
    && c < |row| && BytesFor(|schema|) <= |b| && c < 8 * BytesFor(|schema|)
    && GetBit(b[..BytesFor(|schema|)], c) == row[c].isNull
  }

  /** ROUND TRIP, in its strongest form: stored bytes determine the row, so whatever is loaded
      from where a row was stored is that row. */
  lemma {:induction false} StoredIsUnique(schema: seq<ColumnType>, format: seq<Entry>, b: seq<Byte>, row: seq<Datum>,
                                          other: seq<Datum>)
    requires IsFormat(schema, format) && ValidRow(schema, row) && ValidRow(schema, other)
    requires Holds(schema, format, b, row) && Holds(schema, format, b, other)
    ensures row == other
  {
    forall c | 0 <= c < |schema| ensures row[c] == other[c] {
      SameDatum(schema, format, b, row, other, c);
    }
  }

  lemma {:induction false} SameDatum(schema: seq<ColumnType>, format: seq<Entry>, b: seq<Byte>, row: seq<Datum>,
                                     other: seq<Datum>, c: nat)
    requires IsFormat(schema, format) && ValidRow(schema, row) && ValidRow(schema, other) && c < |schema|
    requires Holds(schema, format, b, row) && Holds(schema, format, b, other)
    ensures row[c] == other[c]
  {
    hide Holds, HoldsNull;
    SameNull(schema, format, b, row, other, c);
    var value := Entry(c, false, schema[c].value);
    assert value in format;
    SameComponent(schema, format, b, row, other, value);
    if schema[c].length.Some? {
      var length := Entry(c, true, schema[c].length.value);
      assert length in format;
      SameComponent(schema, format, b, row, other, length);
    }
  }

  lemma {:induction false} SameNull(schema: seq<ColumnType>, format: seq<Entry>, b: seq<Byte>, row: seq<Datum>,
                                    other: seq<Datum>, c: nat)
    requires Holds(schema, format, b, row) && Holds(schema, format, b, other) && c < |schema|
    ensures |row| == |other| == |schema| && row[c].isNull == other[c].isNull
  {
    assert HoldsNull(schema, b, row, c) && HoldsNull(schema, b, other, c);
  }

  lemma {:induction false} SameComponent(
      schema: seq<ColumnType>, format: seq<Entry>, b: seq<Byte>, row: seq<Datum>, other: seq<Datum>, e: Entry)
    requires Holds(schema, format, b, row) && Holds(schema, format, b, other) && e in format
    ensures e.column < |row| && e.column < |other| && Component(row, e) == Component(other, e)
  {
    var i :| 0 <= i < |format| && format[i] == e;
    assert HoldsEntry(schema, format, b, row, i) && HoldsEntry(schema, format, b, other, i);
  }

  // ----- The layout -----

  lemma {:induction false} EntriesOfPrefix(schema: seq<ColumnType>, n: nat)
    requires n <= |schema|
    ensures forall e: Entry | e in Entries(schema, n) :: e.column < n && e in ColumnEntries(schema, e.column)
    ensures forall c, e | 0 <= c < n && e in ColumnEntries(schema, c) :: e in Entries(schema, n)
    ensures forall i, j | 0 <= i < j < |Entries(schema, n)| :: Entries(schema, n)[i] != Entries(schema, n)[j]
  {
    if n > 0 {
      EntriesOfPrefix(schema, n - 1);
      var before, more := Entries(schema, n - 1), ColumnEntries(schema, n - 1);
      var all: seq<Entry> := before + more;
      forall i, j | 0 <= i < j < |all| ensures all[i] != all[j] {
        if i < |before| <= j {
          assert all[i].column < n - 1 && all[j].column == n - 1;
        }
      }
      forall e: Entry | e in all ensures e.column < n && e in ColumnEntries(schema, e.column) {
        assert e in before || e in more;
      }
      forall c, e | 0 <= c < n && e in ColumnEntries(schema, c) ensures e in all {
        assert c < n - 1 ==> e in before;
      }
    }
  }

  lemma EntriesFormat(schema: seq<ColumnType>)
    ensures IsFormat(schema, Entries(schema, |schema|))
  {
    EntriesOfPrefix(schema, |schema|);
    forall c | 0 <= c < |schema| ensures Entry(c, false, schema[c].value) in Entries(schema, |schema|) {
      assert Entry(c, false, schema[c].value) in ColumnEntries(schema, c);
    }
    forall c | 0 <= c < |schema| && schema[c].length.Some?
      ensures Entry(c, true, schema[c].length.value) in Entries(schema, |schema|)
    {
      assert Entry(c, true, schema[c].length.value) in ColumnEntries(schema, c);
    }
  }

  lemma {:induction false} DistinctOnce(format: seq<Entry>, e: Entry)
    requires forall i, j | 0 <= i < j < |format| :: format[i] != format[j]
    ensures multiset(format)[e] <= 1
  {
    if |format| > 0 {
      var n := |format| - 1;
      DistinctOnce(format[..n], e);
      assert format == format[..n] + [format[n]];
      if e == format[n] {
        assert e !in format[..n];
      }
    }
  }

  lemma TwiceCounted(format: seq<Entry>, i: nat, j: nat)
    requires i < j < |format| && format[i] == format[j]
    ensures multiset(format)[format[i]] >= 2
  {
    assert format == format[..j] + [format[j]] + format[j + 1..];
    assert format[i] in format[..j];
  }

  /** Any order of the entries will do. */
  lemma PermutedFormat(schema: seq<ColumnType>, a: seq<Entry>, b: seq<Entry>)
    requires IsFormat(schema, a) && multiset(a) == multiset(b)
    ensures IsFormat(schema, b)
  {
    assert forall e :: e in a <==> e in multiset(b);
    forall i | 0 <= i < |b| ensures b[i].column < |schema| && b[i] in ColumnEntries(schema, b[i].column) {
      assert b[i] in multiset(b) && b[i] in a;
    }
    forall i, j | 0 <= i < j < |b| ensures b[i] != b[j] {
      DistinctOnce(a, b[i]);
      if b[i] == b[j] {
        TwiceCounted(b, i, j);
      }
    }
  }

  function InsertBySize(sorted: seq<Entry>, e: Entry): seq<Entry> {
    if |sorted| == 0 || e.size <= sorted[|sorted| - 1].size then sorted + [e]
    else InsertBySize(sorted[..|sorted| - 1], e) + [sorted[|sorted| - 1]]
  }

  lemma {:induction false} InsertedMembers(sorted: seq<Entry>, e: Entry)
    ensures multiset(InsertBySize(sorted, e)) == multiset(sorted) + multiset{e}
    ensures forall x | x in InsertBySize(sorted, e) :: x == e || x in sorted
  {
    var n := |sorted| - 1;
    if n >= 0 && e.size > sorted[n].size {
      InsertedMembers(sorted[..n], e);
      assert sorted == sorted[..n] + [sorted[n]];
    }
  }

  lemma {:induction false} InsertedBySize(sorted: seq<Entry>, e: Entry)
    requires BySize(sorted)
    ensures BySize(InsertBySize(sorted, e))
  {
    var n := |sorted| - 1;
    if n >= 0 && e.size > sorted[n].size {
      InsertedBySize(sorted[..n], e);
      InsertedMembers(sorted[..n], e);
      var before := InsertBySize(sorted[..n], e);
      forall i | 0 <= i < |before| ensures sorted[n].size <= before[i].size {
        assert before[i] in before;
      }
    }
  }

  /** Sort entries by decreasing size. */
  method SortBySize(entries: seq<Entry>) returns (sorted: seq<Entry>)
    ensures BySize(sorted) && multiset(sorted) == multiset(entries)
  {
    sorted := [];
    for i := 0 to |entries|
      invariant BySize(sorted) && multiset(sorted) == multiset(entries[..i])
    {
      InsertedBySize(sorted, entries[i]);
      InsertedMembers(sorted, entries[i]);
      sorted := InsertBySize(sorted, entries[i]);
      assert entries[..i + 1] == entries[..i] + [entries[i]];
    }
    assert entries[..|entries|] == entries;
  }

  // ----- Storing and loading -----

  /** The value of column `c` is among the first `n` entries. */
  ghost predicate ValueAmong(format: seq<Entry>, n: nat, c: nat)
    requires n <= |format|
  {
    exists i :: 0 <= i < n && format[i].column == c && !format[i].isLength
  }

  /** `b` with `bytes` written at `at`. */
  function Overwrite<T>(b: seq<T>, at: nat, bytes: seq<T>): seq<T>
    requires at + |bytes| <= |b|
  {
    b[..at] + bytes + b[at + |bytes|..]
  }

  /** The first `n` entries are in place. */
  ghost predicate HoldsFirst(schema: seq<ColumnType>, format: seq<Entry>, b: seq<Byte>, row: seq<Datum>, n: nat) {
    && n <= |format| && |b| == RowSize(schema, format)
    && forall i | 0 <= i < n :: HoldsEntry(schema, format, b, row, i)
  }

  lemma OverwriteAround<T>(b: seq<T>, at: nat, bytes: seq<T>, from: nat, to: nat)
    requires at + |bytes| <= |b| && from <= to <= |b|
    ensures |Overwrite(b, at, bytes)| == |b| && Overwrite(b, at, bytes)[at..at + |bytes|] == bytes
    ensures to <= at || at + |bytes| <= from ==> Overwrite(b, at, bytes)[from..to] == b[from..to]
  {
  }

  lemma {:induction false} StoresEntry(schema: seq<ColumnType>, format: seq<Entry>, b: seq<Byte>, row: seq<Datum>,
                                       n: nat)
    requires n < |format| && format[n].column < |row| && |Component(row, format[n])| == format[n].size
    requires BytesFor(|schema|) + SizeOf(format, n) + format[n].size <= |b|
    ensures HoldsEntry(schema, format,
                       Overwrite(b, BytesFor(|schema|) + SizeOf(format, n), Component(row, format[n])), row, n)
  {
    hide Overwrite;
    var at := BytesFor(|schema|) + SizeOf(format, n);
    OverwriteAround(b, at, Component(row, format[n]), at, at);
  }

  lemma {:induction false} StoreKeepsEntry(schema: seq<ColumnType>, format: seq<Entry>, b: seq<Byte>, row: seq<Datum>,
                                           n: nat, i: nat)
    requires i < n < |format| && format[n].column < |row| && |Component(row, format[n])| == format[n].size
    requires BytesFor(|schema|) + SizeOf(format, n) + format[n].size <= |b| && HoldsEntry(schema, format, b, row, i)
    ensures HoldsEntry(schema, format,
                       Overwrite(b, BytesFor(|schema|) + SizeOf(format, n), Component(row, format[n])), row, i)
  {
    hide Overwrite;
    SizesGrow(format, i + 1, n);
    var from := BytesFor(|schema|) + SizeOf(format, i);
    OverwriteAround(b, BytesFor(|schema|) + SizeOf(format, n), Component(row, format[n]), from, from + format[i].size);
  }

  lemma {:induction false} StoreOneMore(schema: seq<ColumnType>, format: seq<Entry>, b: seq<Byte>, row: seq<Datum>,
                                        n: nat)
    requires HoldsFirst(schema, format, b, row, n) && n < |format| && format[n].column < |row|
    requires |Component(row, format[n])| == format[n].size
    ensures BytesFor(|schema|) + SizeOf(format, n) + format[n].size <= |b|
    ensures HoldsFirst(schema, format,
                       Overwrite(b, BytesFor(|schema|) + SizeOf(format, n), Component(row, format[n])), row, n + 1)
  {
    hide HoldsEntry, Overwrite;
    var at := BytesFor(|schema|) + SizeOf(format, n);
    SizesGrow(format, n + 1, |format|);
    var b' := Overwrite(b, at, Component(row, format[n]));
    OverwriteAround(b, at, Component(row, format[n]), at, at);
    StoresEntry(schema, format, b, row, n);
    forall i | 0 <= i < n ensures HoldsEntry(schema, format, b', row, i) {
      StoreKeepsEntry(schema, format, b, row, n, i);
    }
  }

  /** The bitmap lies in front of all entries. */
  lemma {:induction false} BitmapApart(schema: seq<ColumnType>, format: seq<Entry>, b: seq<Byte>, b': seq<Byte>,
                                       row: seq<Datum>)
    requires HoldsFirst(schema, format, b, row, |format|) && |b'| == |b|
    requires forall k | BytesFor(|schema|) <= k < |b| :: b'[k] == b[k]
    ensures HoldsFirst(schema, format, b', row, |format|)
  {
    forall i | 0 <= i < |format| ensures HoldsEntry(schema, format, b', row, i) {
      assert HoldsEntry(schema, format, b, row, i);
      var from := BytesFor(|schema|) + SizeOf(format, i);
      assert b'[from..from + format[i].size] == b[from..from + format[i].size];
    }
  }

  /** The null bits of the columns whose values have been stored. */
  ghost predicate BitsFirst(schema: seq<ColumnType>, format: seq<Entry>, bytes: seq<Option<Byte>>, row: seq<Datum>,
                            n: nat) {
    && n <= |format| && |bytes| == BytesFor(|schema|) && |row| == |schema|
    && forall c | 0 <= c < 8 * |bytes| ::
         PendingBit(bytes, c) <==> c < |row| && row[c].isNull && ValueAmong(format, n, c)
  }

  lemma {:induction false} NothingStored(schema: seq<ColumnType>, format: seq<Entry>, b: seq<Byte>,
                                         bytes: seq<Option<Byte>>, row: seq<Datum>)
    requires |b| == RowSize(schema, format) && |row| == |schema| && |bytes| == BytesFor(|schema|)
    requires forall c | 0 <= c < 8 * |bytes| :: !PendingBit(bytes, c)
    ensures HoldsFirst(schema, format, b, row, 0) && BitsFirst(schema, format, bytes, row, 0) && SizeOf(format, 0) == 0
  {
  }

  lemma RowLength(schema: seq<ColumnType>, row: seq<Datum>)
    requires ValidRow(schema, row)
    ensures |row| == |schema|
  {
  }

  lemma {:induction false} SizeNext(format: seq<Entry>, i: nat)
    requires i < |format|
    ensures SizeOf(format, i + 1) == SizeOf(format, i) + format[i].size
  {
  }

  lemma BitsOneMore(schema: seq<ColumnType>, format: seq<Entry>, bytes: seq<Option<Byte>>, bytes': seq<Option<Byte>>,
                    row: seq<Datum>, n: nat)
    requires BitsFirst(schema, format, bytes, row, n) && n < |format| && format[n].column < |row| && |bytes'| == |bytes|
    requires forall c | 0 <= c < 8 * |bytes| ::
               PendingBit(bytes', c) <==>
               PendingBit(bytes, c) || (c == format[n].column && !format[n].isLength && row[c].isNull)
    ensures BitsFirst(schema, format, bytes', row, n + 1)
  {
    forall c | 0 <= c < 8 * |bytes'|
      ensures PendingBit(bytes', c) <==> c < |row| && row[c].isNull && ValueAmong(format, n + 1, c)
    {
      if ValueAmong(format, n, c) {
        var i :| 0 <= i < n && format[i].column == c && !format[i].isLength;
        assert ValueAmong(format, n + 1, c);
      }
      if format[n].column == c && !format[n].isLength {
        assert ValueAmong(format, n + 1, c);
      }
    }
  }

  lemma AllBits(schema: seq<ColumnType>, format: seq<Entry>, bytes: seq<Option<Byte>>, row: seq<Datum>, c: nat)
    requires IsFormat(schema, format) && BitsFirst(schema, format, bytes, row, |format|) && c < |schema|
    ensures c < 8 * |bytes| && PendingBit(bytes, c) == row[c].isNull
  {
    var value := Entry(c, false, schema[c].value);
    assert value in format;
    var i :| 0 <= i < |format| && format[i] == value;
    assert ValueAmong(format, |format|, c);
  }

  /** Writing inside a window changes the window alone. */
  lemma WindowOverwrite<T>(m: seq<T>, from: nat, to: nat, at: nat, bytes: seq<T>)
    requires from <= to <= |m| && from + at + |bytes| <= to
    ensures var m' := Overwrite(m, from + at, bytes);
            |m'| == |m| && m'[from..to] == Overwrite(m[from..to], at, bytes) && m'[..from] == m[..from] &&
            m'[to..] == m[to..]
  {
  }

  /** Writing entry `i` of the row that starts at `start` in `m`. */
  lemma {:induction false} StoreWindow(schema: seq<ColumnType>, format: seq<Entry>, m: seq<Byte>, start: nat,
                                       row: seq<Datum>, i: nat)
    requires IsFormat(schema, format) && ValidRow(schema, row) && start + RowSize(schema, format) <= |m| && i < |format|
    requires HoldsFirst(schema, format, m[start..start + RowSize(schema, format)], row, i)
    ensures var at, to := BytesFor(|schema|) + SizeOf(format, i), start + RowSize(schema, format);
            && format[i].column < |row| && start + at + |Component(row, format[i])| <= to
            && var m' := Overwrite(m, start + at, Component(row, format[i]));
               && |m'| == |m| && HoldsFirst(schema, format, m'[start..to], row, i + 1)
               && m'[..start] == m[..start] && m'[to..] == m[to..]
  {
    hide Overwrite, HoldsFirst;
    var at, to := BytesFor(|schema|) + SizeOf(format, i), start + RowSize(schema, format);
    ComponentSize(schema, row, format[i]);
    StoreOneMore(schema, format, m[start..to], row, i);
    WindowOverwrite(m, start, to, at, Component(row, format[i]));
  }

  lemma Windows(area: array<Byte>, from: nat, to: nat)
    requires from <= to <= area.Length
    ensures area[..][from..to] == area[from..to] && area[..][..from] == area[..from] && area[..][to..] == area[to..]
  {
  }

  lemma SliceOfSlice(area: array<Byte>, start: nat, end: nat, from: nat, to: nat)
    requires start <= end <= area.Length && from <= to <= end - start
    ensures area[start..end][from..to] == area[start + from..start + to]
  {
    assert forall k | 0 <= k < to - from :: area[start..end][from..to][k] == area[start..end][from + k];
  }

  lemma {:induction false} EntryInside(schema: seq<ColumnType>, format: seq<Entry>, i: nat)
    requires i < |format|
    ensures BytesFor(|schema|) <= BytesFor(|schema|) + SizeOf(format, i) + format[i].size <= RowSize(schema, format)
  {
    SizesGrow(format, i + 1, |format|);
  }

  class CompactStorage {
    var schema: seq<ColumnType>
    var format: seq<Entry>
    var isSetUp: bool

    ghost predicate Valid()
      reads this
    {
      isSetUp && IsFormat(schema, format) && BySize(format)
    }

    constructor ()
      ensures !isSetUp
    {
      schema, format, isSetUp := [], [], false;
    }

    /** Lay out the components; a storage that is already set up keeps its layout. */
    method Setup(types: seq<ColumnType>)
      requires isSetUp ==> Valid()
      modifies this
      ensures Valid() && schema == if old(isSetUp) then old(schema) else types
      ensures old(isSetUp) ==> format == old(format)
    {
      if isSetUp {
        return;
      }
      schema := types;
      var entries := [];
      for c := 0 to |schema|
        invariant schema == types && entries == Entries(schema, c)
      {
        entries := entries + [Entry(c, false, schema[c].value)];
        if schema[c].length.Some? {
          entries := entries + [Entry(c, true, schema[c].length.value)];
        }
        assert entries == Entries(schema, c) + ColumnEntries(schema, c);
      }
      EntriesFormat(schema);
      format := SortBySize(entries);
      PermutedFormat(schema, entries, format);
      isSetUp := true;
    }

    method CopyBytes(area: array<Byte>, at: nat, bytes: seq<Byte>)
      requires at + |bytes| <= area.Length
      modifies area
      ensures area[..] == Overwrite(old(area[..]), at, bytes)
    {
      for k := 0 to |bytes|
        invariant area[..] == Overwrite(old(area[..]), at, bytes[..k])
      {
        area[at + k] := bytes[k];
        assert bytes[..k + 1] == bytes[..k] + [bytes[k]];
      }
      assert bytes[..|bytes|] == bytes;
    }

    /** Write one component to its place. */
    method StoreComponent(area: array<Byte>, start: nat, at: nat, i: nat, row: seq<Datum>)
      requires Valid() && ValidRow(schema, row) && start + RowSize(schema, format) <= area.Length && i < |format|
      requires at == BytesFor(|schema|) + SizeOf(format, i)
      requires HoldsFirst(schema, format, area[start..start + RowSize(schema, format)], row, i)
      modifies area
      ensures HoldsFirst(schema, format, area[start..start + RowSize(schema, format)], row, i + 1)
      ensures area[..start] == old(area[..start]) &&
              area[start + RowSize(schema, format)..] == old(area[start + RowSize(schema, format)..])
    {
      hide HoldsFirst, Overwrite, IsFormat, BySize, ValidRow, RowSize, SizeOf, BytesFor;
      ghost var m, to := area[..], start + RowSize(schema, format);
      Windows(area, start, to);
      StoreWindow(schema, format, m, start, row, i);
      var e := format[i];
      CopyBytes(area, start + at, if e.isLength then row[e.column].length else row[e.column].value);
      Windows(area, start, to);
    }

    /** A value entry also sets its column's null bit. */
    method StoreNullBit(i: nat, row: seq<Datum>, writer: BitmapWriter)
      requires Valid() && ValidRow(schema, row) && i < |format| && BitsFirst(schema, format, writer.bytes, row, i)
      modifies writer
      ensures BitsFirst(schema, format, writer.bytes, row, i + 1)
    {
      var e := format[i];
      ghost var bytes := writer.bytes;
      if !e.isLength {
        BitInRange(schema, e.column);
        writer.SetBit(e.column, row[e.column].isNull);
      }
      BitsOneMore(schema, format, bytes, writer.bytes, row, i);
    }

    /** Store a row: the components by format order, then the bitmap in front. */
    method StoreValues(area: array<Byte>, start: nat, row: seq<Datum>) returns (end: nat)
      requires Valid() && ValidRow(schema, row) && start + RowSize(schema, format) <= area.Length
      modifies area
      ensures end == start + RowSize(schema, format) && Holds(schema, format, area[start..end], row)
      ensures area[..start] == old(area[..start]) && area[end..] == old(area[end..])
    {
      hide HoldsFirst, BitsFirst, IsFormat, BySize, ValidRow, Holds, RowSize, SizeOf, BytesFor, PendingBit;
      RowLength(schema, row);
      end := start + RowSize(schema, format);
      var writer := new BitmapWriter(|schema|);
      var at := BytesFor(|schema|);
      NothingStored(schema, format, area[start..end], writer.bytes, row);
      for i := 0 to |format|
        invariant at == BytesFor(|schema|) + SizeOf(format, i)
        invariant HoldsFirst(schema, format, area[start..end], row, i)
        invariant BitsFirst(schema, format, writer.bytes, row, i)
        invariant area[..start] == old(area[..start]) && area[end..] == old(area[end..])
      {
        StoreComponent(area, start, at, i, row);
        StoreNullBit(i, row, writer);
        SizeNext(format, i);
        at := at + format[i].size;
      }
      WriteBitmap(area, start, end, row, writer);
    }

    method WriteBitmap(area: array<Byte>, start: nat, end: nat, row: seq<Datum>, writer: BitmapWriter)
      requires Valid() && |row| == |schema| && end == start + RowSize(schema, format) <= area.Length
      requires HoldsFirst(schema, format, area[start..end], row, |format|) &&
               BitsFirst(schema, format, writer.bytes, row, |format|)
      modifies area
      ensures Holds(schema, format, area[start..end], row)
      ensures area[..start] == old(area[..start]) && area[end..] == old(area[end..])
    {
      ghost var b := area[start..end];
      writer.Write(area, start);
      ghost var b' := area[start..end];
      BitmapApart(schema, format, b, b', row);
      assert b'[..BytesFor(|schema|)] == area[start..start + BytesFor(|schema|)];
      forall c | 0 <= c < |schema| ensures HoldsNull(schema, b', row, c) {
        AllBits(schema, format, writer.bytes, row, c);
      }
    }

    /** Read one component and, with a value, its column's null bit. */
    method ReadEntry(area: array<Byte>, start: nat, at: nat, i: nat, row: seq<Datum>) returns (row': seq<Datum>)
      requires start + RowSize(schema, format) <= area.Length && i < |format|
      requires at == BytesFor(|schema|) + SizeOf(format, i) && format[i].column < |row| == |schema|
      ensures row' == LoadEntry(schema, format, area[start..start + RowSize(schema, format)], row, i)
    {
      hide RowSize, SizeOf, BytesFor, GetBit;
      var e := format[i];
      EntryInside(schema, format, i);
      SliceOfSlice(area, start, start + RowSize(schema, format), at, at + e.size);
      var bytes := area[start + at..start + at + e.size];
      if e.isLength {
        row' := row[e.column := row[e.column].(length := bytes)];
      } else {
        BitInRange(schema, e.column);
        SliceOfSlice(area, start, start + RowSize(schema, format), 0, BytesFor(|schema|));
        var isNull := GetBit(area[start..start + BytesFor(|schema|)], e.column);
        row' := row[e.column := row[e.column].(value := bytes, isNull := isNull)];
      }
    }

    /** Read every component and null bit back. */
    method LoadValues(area: array<Byte>, start: nat) returns (row: seq<Datum>, end: nat)
      requires Valid() && start + RowSize(schema, format) <= area.Length
      ensures end == start + RowSize(schema, format)
      ensures ValidRow(schema, row) && Holds(schema, format, area[start..end], row)
    {
      hide Loaded, LoadEntry, IsFormat, Holds, ValidRow, RowSize, SizeOf, BytesFor, BySize;
      end := start + RowSize(schema, format);
      ghost var b := area[start..end];
      row := seq(|schema|, _ => Datum([], [], false));
      var at := BytesFor(|schema|);
      NothingLoaded(schema, format, b, row);
      for i := 0 to |format|
        invariant at == BytesFor(|schema|) + SizeOf(format, i)
        invariant Loaded(schema, format, b, row, i)
      {
        LoadOneMore(schema, format, b, row, i);
        row := ReadEntry(area, start, at, i, row);
        SizeNext(format, i);
        at := at + format[i].size;
      }
      LoadedHolds(schema, format, b, row);
    }
  }

  // ----- Loading -----

  /** The components of the first `n` entries have been read; lengths that have no entry stay
      empty. */
  ghost predicate Loaded(schema: seq<ColumnType>, format: seq<Entry>, b: seq<Byte>, row: seq<Datum>, n: nat) {
    && n <= |format| && |row| == |schema| && |b| == RowSize(schema, format)
    && (forall i | 0 <= i < n :: HoldsEntry(schema, format, b, row, i))
    && (forall i | 0 <= i < n && !format[i].isLength :: HoldsNull(schema, b, row, format[i].column))
    && (forall c | 0 <= c < |schema| && schema[c].length.None? :: row[c].length == [])
  }

  lemma {:induction false} NothingLoaded(schema: seq<ColumnType>, format: seq<Entry>, b: seq<Byte>, row: seq<Datum>)
    requires |b| == RowSize(schema, format) && |row| == |schema| && forall c | 0 <= c < |row| :: row[c].length == []
    ensures Loaded(schema, format, b, row, 0) && SizeOf(format, 0) == 0
  {
  }

  /** The row after reading entry `n`. */
  function LoadEntry(schema: seq<ColumnType>, format: seq<Entry>, b: seq<Byte>, row: seq<Datum>, n: nat): seq<Datum>
    requires n < |format| && |b| == RowSize(schema, format) && format[n].column < |row| == |schema|
  {
    SizesGrow(format, n + 1, |format|);
    BitInRange(schema, format[n].column);
    var e, at := format[n], BytesFor(|schema|) + SizeOf(format, n);
    if e.isLength then row[e.column := row[e.column].(length := b[at..at + e.size])]
    else row[e.column := row[e.column].(value := b[at..at + e.size],
                                        isNull := GetBit(b[..BytesFor(|schema|)], e.column))]
  }

  lemma {:induction false} LoadKeepsEntry(schema: seq<ColumnType>, format: seq<Entry>, b: seq<Byte>, row: seq<Datum>,
                                          n: nat, i: nat)
    requires IsFormat(schema, format) && i < n < |format| && |b| == RowSize(schema, format)
    requires format[n].column < |row| == |schema| && HoldsEntry(schema, format, b, row, i)
    ensures HoldsEntry(schema, format, b, LoadEntry(schema, format, b, row, n), i)
  {
    SameKind(schema, format, i, n);
  }

  lemma {:induction false} LoadPutsEntry(schema: seq<ColumnType>, format: seq<Entry>, b: seq<Byte>, row: seq<Datum>,
                                         n: nat)
    requires n < |format| && |b| == RowSize(schema, format) && format[n].column < |row| == |schema|
    ensures var row' := LoadEntry(schema, format, b, row, n);
            && |row'| == |row| && HoldsEntry(schema, format, b, row', n)
            && (!format[n].isLength ==> HoldsNull(schema, b, row', format[n].column))
            && (forall c | HoldsNull(schema, b, row, c) :: HoldsNull(schema, b, row', c))
            && (forall c | 0 <= c < |row| && !(c == format[n].column && format[n].isLength) ::
                  row'[c].length == row[c].length)
  {
    SizesGrow(format, n + 1, |format|);
    BitInRange(schema, format[n].column);
  }

  lemma {:induction false} LoadOneMore(schema: seq<ColumnType>, format: seq<Entry>, b: seq<Byte>, row: seq<Datum>,
                                       n: nat)
    requires IsFormat(schema, format) && Loaded(schema, format, b, row, n) && n < |format|
    ensures format[n].column < |row| == |schema| &&
            Loaded(schema, format, b, LoadEntry(schema, format, b, row, n), n + 1)
  {
    hide HoldsEntry, HoldsNull, LoadEntry;
    var row' := LoadEntry(schema, format, b, row, n);
    LoadPutsEntry(schema, format, b, row, n);
    assert format[n] in ColumnEntries(schema, format[n].column);
    forall i | 0 <= i < n ensures HoldsEntry(schema, format, b, row', i) {
      assert HoldsEntry(schema, format, b, row, i);
      LoadKeepsEntry(schema, format, b, row, n, i);
    }
  }

  /** Different entries are different components. */
  lemma SameKind(schema: seq<ColumnType>, format: seq<Entry>, i: nat, j: nat)
    requires IsFormat(schema, format) && i < j < |format|
    ensures format[i].column != format[j].column || format[i].isLength != format[j].isLength
  {
    assert format[i] in ColumnEntries(schema, format[i].column) && format[j] in ColumnEntries(schema, format[j].column);
  }

  lemma {:induction false} LoadedHolds(schema: seq<ColumnType>, format: seq<Entry>, b: seq<Byte>, row: seq<Datum>)
    requires IsFormat(schema, format) && Loaded(schema, format, b, row, |format|)
    ensures ValidRow(schema, row) && Holds(schema, format, b, row)
  {
    forall c | 0 <= c < |schema|
      ensures HoldsNull(schema, b, row, c) && |row[c].value| == schema[c].value
      ensures |row[c].length| == if schema[c].length.Some? then schema[c].length.value else 0
    {
      var value := Entry(c, false, schema[c].value);
      assert value in format;
      var i :| 0 <= i < |format| && format[i] == value;
      assert HoldsEntry(schema, format, b, row, i) && HoldsNull(schema, b, row, format[i].column);
      if schema[c].length.Some? {
        var length := Entry(c, true, schema[c].length.value);
        assert length in format;
        var j :| 0 <= j < |format| && format[j] == length;
        assert HoldsEntry(schema, format, b, row, j);
      }
    }
  }

  /** ROUND TRIP: storing a row and loading it back returns the same values, lengths and null
      bits, and both operations end at the same position. */
  method RoundTrip(storage: CompactStorage, area: array<Byte>, start: nat, row: seq<Datum>) returns (loaded: seq<Datum>)
    requires storage.Valid() && ValidRow(storage.schema, row) &&
             start + RowSize(storage.schema, storage.format) <= area.Length
    modifies area
    ensures loaded == row
  {
    hide IsFormat, BySize, ValidRow, RowSize, Holds;
    var stored := storage.StoreValues(area, start, row);
    var end;
    loaded, end := storage.LoadValues(area, start);
    StoredIsUnique(storage.schema, storage.format, area[start..end], row, loaded);
  }

  lemma BitInRange(schema: seq<ColumnType>, c: nat)
    requires c < |schema|
    ensures c < 8 * BytesFor(|schema|)
  {
  }
}
