/** Init on data that end inside the header: it goes on with whatever is left. */
module CutShort {
  import opened Basics
  import opened Memory
  import opened RecordCodec
  import opened DBValues
  import opened BlobReading

  /** How many column infos are whole in what follows position `p`. */
  function Whole(b: seq<byte>, p: nat): nat
    requires p <= |b|
  {
    (|b| - p) / COLUMN_INFO_SIZE
  }

  function Min(a: nat, b: nat): nat { if a < b then a else b }

  /** The reader steps over the column infos that are whole, and no further. */
  lemma {:induction false} PastColumnsIs(b: seq<byte>, p: nat, n: nat)
    requires p <= |b|
    ensures PastColumns(b, p, n) == p + COLUMN_INFO_SIZE * Min(n, Whole(b, p)) <= |b|
    decreases n
  {
    if n > 0 && p + COLUMN_INFO_SIZE <= |b| {
      assert Whole(b, p + COLUMN_INFO_SIZE) == Whole(b, p) - 1;
      PastColumnsIs(b, p + COLUMN_INFO_SIZE, n - 1);
    } else if n > 0 {
      PastColumnsIs(b, p, n - 1);
    }
  }

  /** The column infos that are whole are read, the others are zero. */
  lemma {:induction false} ColumnsAre(b: seq<byte>, p: nat, n: nat, i: nat)
    requires p <= |b| && i < n
    ensures i < Whole(b, p) ==>
      && p + COLUMN_INFO_SIZE * (i + 1) <= |b|
      && ColumnsAt(b, p, n)[i] == b[p + COLUMN_INFO_SIZE * i..p + COLUMN_INFO_SIZE * (i + 1)]
    ensures i >= Whole(b, p) ==> ColumnsAt(b, p, n)[i] == NO_COLUMN
    decreases n
  {
    if i > 0 {
      var q := PastColumn(b, p);
      ColumnsAre(b, q, n - 1, i - 1);
      assert q > p ==> Whole(b, q) == Whole(b, p) - 1;
    }
  }

  /** When the data end before the record count, Init succeeds if and only if a column info is
      cut and the first four bytes of what is left of it are a positive int: these are taken
      for the record count. */
  lemma {:induction false} SucceedsOnCutHeader(b: seq<byte>)
    requires 0 < ColumnCount(b) && |b| < HeaderSize(ColumnCount(b))
    ensures
      var fit := Whole(b, INT_SIZE);
      var at := INT_SIZE + COLUMN_INFO_SIZE * fit;
      Code(b) == DBERR_SUCCEED
      <==> fit < ColumnCount(b) && at + INT_SIZE <= |b| && DecodeInt(b[at..at + INT_SIZE]) > 0
  {
    PastColumnsIs(b, INT_SIZE, ColumnCount(b));
  }

  /** What it then reports: columns that are zero from the cut one on, and as many rows as the
      bytes of the cut one say. */
  lemma {:induction false} ReportsOnCutHeader(b: seq<byte>)
    requires 0 < ColumnCount(b) && |b| < HeaderSize(ColumnCount(b)) && Safe(b) && Code(b) == DBERR_SUCCEED
    ensures
      var fit := Whole(b, INT_SIZE);
      var at := INT_SIZE + COLUMN_INFO_SIZE * fit;
      && fit < ColumnCount(b) == |Columns(b)| && at + INT_SIZE <= |b|
      && (forall i :: fit <= i < |Columns(b)| ==> Columns(b)[i] == NO_COLUMN)
      && |Rows(b)| == DecodeInt(b[at..at + INT_SIZE])
  {
    SucceedsOnCutHeader(b);
    ZeroFromTheCut(b);
    PastColumnsIs(b, INT_SIZE, ColumnCount(b));
  }

  lemma {:induction false} ZeroFromTheCut(b: seq<byte>)
    requires 0 < ColumnCount(b)
    ensures forall i :: Whole(b, INT_SIZE) <= i < |Columns(b)| ==> Columns(b)[i] == NO_COLUMN
  {
    forall i | Whole(b, INT_SIZE) <= i < |Columns(b)|
      ensures Columns(b)[i] == NO_COLUMN
    {
      ColumnsAre(b, INT_SIZE, ColumnCount(b), i);
    }
  }

  lemma {:induction false} ZeroType(c: ColumnInfo)
    requires c[32] == 0 && c[33] == 0
    ensures ColumnType(c) == 0
  {
  }

  /** Behind the data a zero column finds an empty value. */
  lemma {:induction false} FieldBehind(b: seq<byte>, c: ColumnInfo)
    requires |b| == 2 * INT_SIZE && ColumnType(c) == 0
    ensures SafeField(b, |b|, c) && FieldAt(b, |b|, c) == EMPTY
  {
    assert SizeOf(0) == Unknown;
  }

  lemma {:induction false} OneFieldRow(b: seq<byte>, p: nat, c: ColumnInfo)
    requires SafeField(b, p, c)
    ensures SafeRows(b, p, [c], 1) && RowsAt(b, p, [c], 1) == [[FieldAt(b, p, c)]]
  {
    var cs, q, next := [c], PastField(b, p), PastFields(b, p, 1);
    assert cs[1..] == [] && SafeFields(b, q, []) && FieldsAt(b, q, []) == [];
    assert SafeFields(b, p, cs) && FieldsAt(b, p, cs) == [FieldAt(b, p, c)];
    assert SafeRows(b, next, cs, 0) && RowsAt(b, next, cs, 0) == [];
    assert SafeRows(b, p, cs, 1);
  }

  lemma {:induction false} OneColumn(b: seq<byte>, p: nat)
    requires p <= |b| < p + COLUMN_INFO_SIZE
    ensures ColumnsAt(b, p, 1) == [NO_COLUMN] && PastColumns(b, p, 1) == p
  {
    assert ColumnsAt(b, p, 0) == [];
  }

  /** The shortest case: a column count of 1 and four more bytes that say 1.  Init reports one
      column, all zero, and one row with one empty value. */
  lemma {:induction false} EightBytesAreATable(b: seq<byte>)
    requires b == EncodeInt(1) + EncodeInt(1)
    ensures |b| < HeaderSize(1) && ColumnCount(b) == 1
    ensures Safe(b) && Code(b) == DBERR_SUCCEED && Columns(b) == [NO_COLUMN] && Rows(b) == [[EMPTY]]
  {
    IntRoundTrip(1);
    var one := EncodeInt(1);
    assert b[0..INT_SIZE] == one && b[INT_SIZE..2 * INT_SIZE] == one;
    OneColumn(b, INT_SIZE);
    ZeroType(NO_COLUMN);
    FieldBehind(b, NO_COLUMN);
    OneFieldRow(b, |b|, NO_COLUMN);
    assert ColumnCount(b) == 1 && CountPlace(b) == INT_SIZE && RecordCount(b) == 1;
  }
}
