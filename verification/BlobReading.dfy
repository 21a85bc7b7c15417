/** What CDBStaticRecordSet makes of any bytes at all: a column info or an int that is cut
    short is not read and not stepped over, so it stays zero. */
module BlobReading {
  import opened Basics
  import opened Memory
  import opened RecordCodec
  import opened DBValues

  const DBERR_SUCCEED := 0
  const DBERR_NO_RECORDS := 6

  // ---------------------------------------------------------------- columns

  function ColumnAt(b: seq<byte>, p: nat): ColumnInfo {
    if p + COLUMN_INFO_SIZE <= |b| then b[p..p + COLUMN_INFO_SIZE] else NO_COLUMN
  }

  function PastColumn(b: seq<byte>, p: nat): nat {
    if p + COLUMN_INFO_SIZE <= |b| then p + COLUMN_INFO_SIZE else p
  }

  function ColumnsAt(b: seq<byte>, p: nat, n: nat): (cs: seq<ColumnInfo>)
    ensures |cs| == n
    decreases n
  {
    if n == 0 then [] else [ColumnAt(b, p)] + ColumnsAt(b, PastColumn(b, p), n - 1)
  }

  function PastColumns(b: seq<byte>, p: nat, n: nat): (next: nat)
    ensures p <= |b| ==> next <= |b|
    decreases n
  {
    if n == 0 then p else PastColumns(b, PastColumn(b, p), n - 1)
  }

  // ---------------------------------------------------------------- fields

  function Behind(b: seq<byte>, p: nat): seq<byte> {
    if p <= |b| then b[p..] else []
  }

  function PastField(b: seq<byte>, p: nat): nat {
    PastInt(b, p) + if IntAt(b, p) < 0 then 0 else IntAt(b, p)
  }

  /** The value is read inside the bytes, and the position behind it is in the range of UINT. */
  ghost predicate SafeField(b: seq<byte>, p: nat, c: ColumnInfo) {
    && (IntAt(b, p) >= 0 ==> CanRead(ColumnType(c), Behind(b, PastInt(b, p)), IntAt(b, p)))
    && PastField(b, p) + INT_SIZE < UINT_LIMIT
  }

  function FieldAt(b: seq<byte>, p: nat, c: ColumnInfo): DBValue
    requires SafeField(b, p, c)
  {
    if IntAt(b, p) < 0 then SetValue(EMPTY, ColumnType(c), None, 0)
    else SetValue(EMPTY, ColumnType(c), Some(Behind(b, PastInt(b, p))), IntAt(b, p))
  }

  ghost predicate SafeFields(b: seq<byte>, p: nat, cs: seq<ColumnInfo>)
    decreases |cs|
  {
    cs == [] || (SafeField(b, p, cs[0]) && SafeFields(b, PastField(b, p), cs[1..]))
  }

  function FieldsAt(b: seq<byte>, p: nat, cs: seq<ColumnInfo>): (row: seq<DBValue>)
    requires SafeFields(b, p, cs)
    ensures |row| == |cs|
    decreases |cs|
  {
    if cs == [] then [] else [FieldAt(b, p, cs[0])] + FieldsAt(b, PastField(b, p), cs[1..])
  }

  function PastFields(b: seq<byte>, p: nat, n: nat): nat
    decreases n
  {
    if n == 0 then p else PastFields(b, PastField(b, p), n - 1)
  }

  // ---------------------------------------------------------------- rows

  ghost predicate SafeRows(b: seq<byte>, p: nat, cs: seq<ColumnInfo>, n: nat)
    decreases n
  {
    n == 0 || (SafeFields(b, p, cs) && SafeRows(b, PastFields(b, p, |cs|), cs, n - 1))
  }

  function RowsAt(b: seq<byte>, p: nat, cs: seq<ColumnInfo>, n: nat): (rows: seq<seq<DBValue>>)
    requires SafeRows(b, p, cs, n)
    ensures |rows| == n
    decreases n
  {
    if n == 0 then [] else [FieldsAt(b, p, cs)] + RowsAt(b, PastFields(b, p, |cs|), cs, n - 1)
  }

  function PastRows(b: seq<byte>, p: nat, cols: nat, n: nat): nat
    decreases n
  {
    if n == 0 then p else PastRows(b, PastFields(b, p, cols), cols, n - 1)
  }

  lemma {:induction false} RowsOn(b: seq<byte>, p: nat, cs: seq<ColumnInfo>, n: nat)
    requires n > 0 && SafeRows(b, p, cs, n)
    ensures SafeFields(b, p, cs) && SafeRows(b, PastFields(b, p, |cs|), cs, n - 1)
    ensures RowsAt(b, p, cs, n) == [FieldsAt(b, p, cs)] + RowsAt(b, PastFields(b, p, |cs|), cs, n - 1)
    ensures PastRows(b, p, |cs|, n) == PastRows(b, PastFields(b, p, |cs|), |cs|, n - 1)
  {
  }

  // ---------------------------------------------------------------- a whole blob

  /** The column count of a blob. */
  function ColumnCount(b: seq<byte>): Int32 { IntAt(b, 0) }

  /** Where the record count is looked for. */
  function CountPlace(b: seq<byte>): (p: nat)
    ensures p <= |b|
  {
    if ColumnCount(b) <= 0 then 0 else PastColumns(b, PastInt(b, 0), ColumnCount(b))
  }

  /** The record count of a blob, 0 if it has no columns. */
  function RecordCount(b: seq<byte>): Int32 {
    if ColumnCount(b) <= 0 then 0 else IntAt(b, CountPlace(b))
  }

  function Columns(b: seq<byte>): seq<ColumnInfo> {
    if ColumnCount(b) <= 0 then [] else ColumnsAt(b, PastInt(b, 0), ColumnCount(b))
  }

  /** Decoding reads nothing outside the bytes. */
  ghost predicate Safe(b: seq<byte>) {
    RecordCount(b) > 0 ==> SafeRows(b, PastInt(b, CountPlace(b)), Columns(b), RecordCount(b))
  }

  function Rows(b: seq<byte>): seq<seq<DBValue>>
    requires Safe(b)
  {
    if RecordCount(b) <= 0 then [] else RowsAt(b, PastInt(b, CountPlace(b)), Columns(b), RecordCount(b))
  }

  /** Where the reader stands in the end. */
  function End(b: seq<byte>): nat {
    if ColumnCount(b) <= 0 then PastInt(b, 0)
    else if RecordCount(b) <= 0 then PastInt(b, CountPlace(b))
    else PastRows(b, PastInt(b, CountPlace(b)), |Columns(b)|, RecordCount(b))
  }

  function Code(b: seq<byte>): int {
    if RecordCount(b) <= 0 then DBERR_NO_RECORDS else DBERR_SUCCEED
  }

  // ---------------------------------------------------------------- one element more

  /** A vector that is filled in from the front: what is done, and what `rest` is still to come. */
  ghost predicate Filling<T>(v: seq<T>, i: nat, rest: seq<T>, want: seq<T>) {
    i <= |v| == |want| && v[..i] + rest == want
  }

  lemma {:induction false} FillOne<T>(v: seq<T>, i: nat, x: T, rest: seq<T>, want: seq<T>)
    requires i < |v| && Filling(v, i, [x] + rest, want)
    ensures Filling(v[i := x], i + 1, rest, want)
  {
    assert v[i := x][..i + 1] == v[..i] + [x];
    assert v[..i] + ([x] + rest) == v[..i] + [x] + rest;
  }

  lemma {:induction false} Filled<T>(v: seq<T>, want: seq<T>)
    requires Filling(v, |v|, [], want)
    ensures v == want
  {
    assert v[..|v|] == v;
  }
}
