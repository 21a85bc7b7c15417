/** What decoding makes of an encoding: which tables can be read back without leaving the bytes,
    which values come out, and when these are the ones that went in. */
module Decoding {
  import opened Basics
  import opened Memory
  import opened RecordCodec
  import opened DBValues
  import opened BlobReading

  // ---------------------------------------------------------------- what an encoding says

  /** A fixed-size value is read whole even if its field is shorter; it must not be read past
      the end of the blob. */
  ghost predicate Readable(c: ColumnInfo, f: Field, after: seq<byte>) {
    f.Value? ==> CanRead(ColumnType(c), f.bytes + after, |f.bytes|)
  }

  function FieldValue(c: ColumnInfo, f: Field, after: seq<byte>): DBValue
    requires Readable(c, f, after)
  {
    match f
    case Null(_) => SetValue(EMPTY, ColumnType(c), None, 0)
    case Value(bytes) => SetValue(EMPTY, ColumnType(c), Some(bytes + after), |bytes|)
  }

  /** What follows field `j` of a record in the blob. */
  function AfterField(r: Record, j: nat, after: seq<byte>): seq<byte>
    requires j < |r| && ValidFields(r)
  {
    EncodeFields(r[j + 1..]) + after
  }

  ghost predicate ReadableRecord(cs: seq<ColumnInfo>, r: Record, after: seq<byte>) {
    |r| == |cs| && ValidFields(r) && forall j :: 0 <= j < |r| ==> ReadableField(cs, r, after, j)
  }

  ghost predicate ReadableField(cs: seq<ColumnInfo>, r: Record, after: seq<byte>, j: nat)
    requires j < |r| == |cs| && ValidFields(r)
  {
    Readable(cs[j], r[j], AfterField(r, j, after))
  }

  ghost predicate ReadableRecords(cs: seq<ColumnInfo>, rs: seq<Record>) {
    && ValidRecords(rs, |cs|)
    && forall i :: 0 <= i < |rs| ==> ReadableRow(cs, rs, i)
  }

  ghost predicate ReadableRow(cs: seq<ColumnInfo>, rs: seq<Record>, i: nat)
    requires i < |rs| && ValidRecords(rs, |cs|)
  {
    ReadableRecord(cs, rs[i], EncodeRecords(rs[i + 1..], |cs|))
  }

  function RecordValues(cs: seq<ColumnInfo>, r: Record, after: seq<byte>): (v: seq<DBValue>)
    requires ReadableRecord(cs, r, after)
    ensures |v| == |r|
  {
    seq(|r|, j requires 0 <= j < |r| =>
      assert ReadableField(cs, r, after, j);
      FieldValue(cs[j], r[j], AfterField(r, j, after)))
  }

  function TableValues(cs: seq<ColumnInfo>, rs: seq<Record>): (v: seq<seq<DBValue>>)
    requires ReadableRecords(cs, rs)
    ensures |v| == |rs|
  {
    seq(|rs|, i requires 0 <= i < |rs| =>
      assert ReadableRow(cs, rs, i);
      RecordValues(cs, rs[i], EncodeRecords(rs[i + 1..], |cs|)))
  }

  // ---------------------------------------------------------------- stepping through an encoding

  lemma {:induction false} NextField(bytes: seq<byte>, peek: nat, r: Record, j: nat, after: seq<byte>)
    requires ValidFields(r) && j < |r| && peek <= |bytes|
    requires bytes[peek..] == EncodeFields(r[j..]) + after
    ensures
      var f, mid := r[j], peek + INT_SIZE;
      && mid + |FieldBytes(f)| <= |bytes|
      && bytes[peek..mid] == EncodeInt(FieldInt(f))
      && bytes[mid..] == FieldBytes(f) + AfterField(r, j, after)
      && bytes[mid + |FieldBytes(f)|..] == AfterField(r, j, after)
  {
    assert r[j..][1..] == r[j + 1..];
    Cut3(bytes, peek, EncodeInt(FieldInt(r[j])), FieldBytes(r[j]), EncodeFields(r[j + 1..]), after);
  }

  lemma {:induction false} Cut3(b: seq<byte>, at: nat, x: seq<byte>, y: seq<byte>, z: seq<byte>, w: seq<byte>)
    requires at <= |b| && b[at..] == x + y + z + w
    ensures at + |x| + |y| <= |b|
    ensures b[at..at + |x|] == x && b[at + |x|..] == y + (z + w)
    ensures b[at + |x| + |y|..] == z + w
  {
    var s := b[at..];
    assert s == x + (y + (z + w));
    assert b[at..at + |x|] == s[..|x|] && b[at + |x|..] == s[|x|..];
    assert b[at + |x| + |y|..] == s[|x|..][|y|..];
  }

  /** The header in its three parts. */
  lemma {:induction false} HeaderParts(bytes: seq<byte>, cs: seq<ColumnInfo>, count: Int32, body: seq<byte>)
    requires |cs| < INT_LIMIT && bytes == Header(cs, count) + body
    ensures |bytes| >= HeaderSize(|cs|)
    ensures bytes[..INT_SIZE] == EncodeInt(|cs|)
    ensures bytes[INT_SIZE..] == EncodeColumns(cs[0..]) + (EncodeInt(count) + body)
    ensures bytes[HeaderSize(|cs|) - INT_SIZE..HeaderSize(|cs|)] == EncodeInt(count)
    ensures bytes[HeaderSize(|cs|)..] == body
  {
    assert cs[0..] == cs;
    assert bytes == EncodeInt(|cs|) + (EncodeColumns(cs) + (EncodeInt(count) + body));
    Cut3(bytes[INT_SIZE..], 0, EncodeColumns(cs), EncodeInt(count), body, []);
    var at := HeaderSize(|cs|) - INT_SIZE;
    assert bytes[INT_SIZE..][0..] == bytes[INT_SIZE..] == EncodeColumns(cs) + EncodeInt(count) + body + [];
    assert bytes[at..at + INT_SIZE] == bytes[INT_SIZE..][|EncodeColumns(cs)|..][..INT_SIZE];
    assert bytes[at + INT_SIZE..] == bytes[INT_SIZE..][|EncodeColumns(cs)| + INT_SIZE..];
  }

  /** `row[j]` is the value of field `j`. */
  ghost predicate FieldOf(cs: seq<ColumnInfo>, r: Record, after: seq<byte>, row: seq<DBValue>, j: nat)
    requires ReadableRecord(cs, r, after) && j < |r| == |row|
  {
    ReadableField(cs, r, after, j) && row[j] == FieldValue(cs[j], r[j], AfterField(r, j, after))
  }

  ghost predicate RowOf(cs: seq<ColumnInfo>, r: Record, after: seq<byte>, row: seq<DBValue>) {
    ReadableRecord(cs, r, after) && |row| == |r| && forall j :: 0 <= j < |r| ==> FieldOf(cs, r, after, row, j)
  }

  /** `table[i]` is the row of record `i`. */
  ghost predicate RecordOf(cs: seq<ColumnInfo>, rs: seq<Record>, table: seq<seq<DBValue>>, i: nat)
    requires ValidRecords(rs, |cs|) && i < |rs| == |table|
  {
    RowOf(cs, rs[i], EncodeRecords(rs[i + 1..], |cs|), table[i])
  }

  ghost predicate TableOf(cs: seq<ColumnInfo>, rs: seq<Record>, table: seq<seq<DBValue>>) {
    ValidRecords(rs, |cs|) && |table| == |rs| && forall i :: 0 <= i < |rs| ==> RecordOf(cs, rs, table, i)
  }

  lemma {:induction false} RowAt(cs: seq<ColumnInfo>, rs: seq<Record>, i: nat)
    requires ReadableRecords(cs, rs) && i < |rs|
    ensures ReadableRecord(cs, rs[i], EncodeRecords(rs[i + 1..], |cs|))
    ensures TableValues(cs, rs)[i] == RecordValues(cs, rs[i], EncodeRecords(rs[i + 1..], |cs|))
  {
    assert ReadableRow(cs, rs, i);
  }

  lemma {:induction false} TableValuesAreOf(cs: seq<ColumnInfo>, rs: seq<Record>)
    requires ReadableRecords(cs, rs)
    ensures TableOf(cs, rs, TableValues(cs, rs))
  {
    forall i | 0 <= i < |rs|
      ensures RecordOf(cs, rs, TableValues(cs, rs), i)
    {
      assert ReadableRow(cs, rs, i);
      RecordValuesAreOf(cs, rs[i], EncodeRecords(rs[i + 1..], |cs|));
    }
  }

  lemma {:induction false} RecordValuesAreOf(cs: seq<ColumnInfo>, r: Record, after: seq<byte>)
    requires ReadableRecord(cs, r, after)
    ensures RowOf(cs, r, after, RecordValues(cs, r, after))
  {
    forall j | 0 <= j < |r|
      ensures FieldOf(cs, r, after, RecordValues(cs, r, after), j)
    {
      assert ReadableField(cs, r, after, j);
    }
  }

  // ---------------------------------------------------------------- the bytes of an encoding, decoded

  lemma {:induction false} RecordFirst(cs: seq<ColumnInfo>, r: Record, after: seq<byte>)
    requires |r| == |cs| > 0 && ValidFields(r)
    ensures ReadableRecord(cs, r, after)
      <==> ReadableField(cs, r, after, 0) && ReadableRecord(cs[1..], r[1..], after)
    ensures ReadableRecord(cs, r, after) ==>
      RecordValues(cs, r, after)
      == [FieldValue(cs[0], r[0], AfterField(r, 0, after))] + RecordValues(cs[1..], r[1..], after)
  {
    forall j | 0 <= j < |r| - 1
      ensures ReadableField(cs[1..], r[1..], after, j) <==> ReadableField(cs, r, after, j + 1)
    {
      assert r[1..][j + 1..] == r[j + 2..];
    }
    if ReadableField(cs, r, after, 0) && ReadableRecord(cs[1..], r[1..], after) {
      forall j | 0 <= j < |r|
        ensures ReadableField(cs, r, after, j)
      {
        assert j > 0 ==> ReadableField(cs[1..], r[1..], after, j - 1);
      }
    }
    if ReadableRecord(cs, r, after) {
      RecordFirstValue(cs, r, after);
    }
  }

  lemma {:induction false} RecordFirstValue(cs: seq<ColumnInfo>, r: Record, after: seq<byte>)
    requires |r| > 0 && ReadableRecord(cs, r, after) && ReadableRecord(cs[1..], r[1..], after)
    requires ReadableField(cs, r, after, 0)
    ensures RecordValues(cs, r, after)
      == [FieldValue(cs[0], r[0], AfterField(r, 0, after))] + RecordValues(cs[1..], r[1..], after)
  {
    var whole, rest := RecordValues(cs, r, after), RecordValues(cs[1..], r[1..], after);
    RecordValuesAreOf(cs, r, after);
    RecordValuesAreOf(cs[1..], r[1..], after);
    assert FieldOf(cs, r, after, whole, 0);
    forall j | 1 <= j < |r|
      ensures whole[j] == rest[j - 1]
    {
      assert FieldOf(cs, r, after, whole, j) && FieldOf(cs[1..], r[1..], after, rest, j - 1);
      assert r[1..][j..] == r[j + 1..];
    }
  }

  lemma {:induction false} FieldIsPeeked(b: seq<byte>, p: nat, f: Field, after: seq<byte>)
    requires p <= |b| && ValidField(f) && b[p..] == EncodeField(f) + after
    ensures IntAt(b, p) == FieldInt(f) && PastInt(b, p) == p + INT_SIZE
    ensures Behind(b, p + INT_SIZE) == FieldBytes(f) + after
    ensures PastField(b, p) == p + |EncodeField(f)| <= |b| && b[PastField(b, p)..] == after
  {
    IntRoundTrip(FieldInt(f));
    assert EncodeField(f) + after == EncodeInt(FieldInt(f)) + FieldBytes(f) + after + [];
    Cut3(b, p, EncodeInt(FieldInt(f)), FieldBytes(f), after, []);
  }

  /** One field of an encoding: it can be read safely exactly when it is readable. */
  lemma {:induction false} FieldOfEncoding(b: seq<byte>, p: nat, c: ColumnInfo, f: Field, after: seq<byte>)
    requires |b| < INT_LIMIT && p <= |b| && ValidField(f) && b[p..] == EncodeField(f) + after
    ensures PastField(b, p) == p + |EncodeField(f)| <= |b| && b[PastField(b, p)..] == after
    ensures SafeField(b, p, c) <==> Readable(c, f, after)
    ensures SafeField(b, p, c) ==> FieldAt(b, p, c) == FieldValue(c, f, after)
  {
    FieldIsPeeked(b, p, f, after);
  }

  /** One record of an encoding: it can be read safely exactly when it is readable. */
  lemma {:induction false} FieldsOfEncoding(b: seq<byte>, p: nat, cs: seq<ColumnInfo>, r: Record, after: seq<byte>)
    requires |b| < INT_LIMIT && p <= |b| && |r| == |cs| && ValidFields(r) && b[p..] == EncodeFields(r) + after
    ensures PastFields(b, p, |cs|) == p + |EncodeFields(r)| <= |b| && b[PastFields(b, p, |cs|)..] == after
    ensures SafeFields(b, p, cs) <==> ReadableRecord(cs, r, after)
    ensures SafeFields(b, p, cs) ==> FieldsAt(b, p, cs) == RecordValues(cs, r, after)
    decreases |r|
  {
    if r == [] {
      assert EncodeFields(r) + after == after;
    } else {
      var rest := EncodeFields(r[1..]) + after;
      assert b[p..] == EncodeField(r[0]) + rest;
      FieldOfEncoding(b, p, cs[0], r[0], rest);
      FieldsOfEncoding(b, PastField(b, p), cs[1..], r[1..], after);
      RecordFirst(cs, r, after);
    }
  }

  /** More bytes behind a field that can be read change nothing. */
  lemma {:induction false} FieldValueStays(c: ColumnInfo, f: Field, after: seq<byte>, after': seq<byte>)
    requires Readable(c, f, after) && after <= after'
    ensures Readable(c, f, after') && FieldValue(c, f, after') == FieldValue(c, f, after)
  {
    if f.Value? {
      var m, m' := f.bytes + after, f.bytes + after';
      assert forall n: nat :: n <= |m| ==> m'[..n] == m[..n];
    }
  }

  lemma {:induction false} RecordValuesStay(cs: seq<ColumnInfo>, r: Record, after: seq<byte>, after': seq<byte>)
    requires ReadableRecord(cs, r, after) && after <= after'
    ensures ReadableRecord(cs, r, after') && RecordValues(cs, r, after') == RecordValues(cs, r, after)
  {
    forall j | 0 <= j < |r|
      ensures Readable(cs[j], r[j], AfterField(r, j, after)) && Readable(cs[j], r[j], AfterField(r, j, after'))
      ensures ReadableField(cs, r, after', j)
      ensures FieldValue(cs[j], r[j], AfterField(r, j, after')) == FieldValue(cs[j], r[j], AfterField(r, j, after))
    {
      assert ReadableField(cs, r, after, j);
      FieldValueStays(cs[j], r[j], AfterField(r, j, after), AfterField(r, j, after'));
    }
    var v, v' := RecordValues(cs, r, after), RecordValues(cs, r, after');
    RecordValuesAreOf(cs, r, after);
    RecordValuesAreOf(cs, r, after');
    forall j | 0 <= j < |r|
      ensures v[j] == v'[j]
    {
      assert FieldOf(cs, r, after, v, j) && FieldOf(cs, r, after', v', j);
    }
  }

  lemma {:induction false} TableFirst(cs: seq<ColumnInfo>, rs: seq<Record>)
    requires ValidRecords(rs, |cs|) && rs != []
    ensures ReadableRecords(cs, rs)
      <==> ReadableRecord(cs, rs[0], EncodeRecords(rs[1..], |cs|)) && ReadableRecords(cs, rs[1..])
    ensures ReadableRecords(cs, rs) ==>
      TableValues(cs, rs)
      == [RecordValues(cs, rs[0], EncodeRecords(rs[1..], |cs|))] + TableValues(cs, rs[1..])
  {
    assert ReadableRow(cs, rs, 0) <==> ReadableRecord(cs, rs[0], EncodeRecords(rs[1..], |cs|));
    forall i | 0 <= i < |rs| - 1
      ensures ReadableRow(cs, rs[1..], i) <==> ReadableRow(cs, rs, i + 1)
    {
      assert rs[1..][i + 1..] == rs[i + 2..];
    }
    if ReadableRow(cs, rs, 0) && ReadableRecords(cs, rs[1..]) {
      forall i | 0 <= i < |rs|
        ensures ReadableRow(cs, rs, i)
      {
        assert i > 0 ==> ReadableRow(cs, rs[1..], i - 1);
      }
    }
    if ReadableRecords(cs, rs) {
      TableFirstRow(cs, rs);
    }
  }

  lemma {:induction false} TableFirstRow(cs: seq<ColumnInfo>, rs: seq<Record>)
    requires rs != [] && ReadableRecords(cs, rs) && ReadableRecords(cs, rs[1..])
    ensures ReadableRecord(cs, rs[0], EncodeRecords(rs[1..], |cs|))
    ensures TableValues(cs, rs) == [RecordValues(cs, rs[0], EncodeRecords(rs[1..], |cs|))] + TableValues(cs, rs[1..])
  {
    RowAt(cs, rs, 0);
    var whole, rest := TableValues(cs, rs), TableValues(cs, rs[1..]);
    forall i | 1 <= i < |rs|
      ensures whole[i] == rest[i - 1]
    {
      SameRow(cs, rs, i - 1);
    }
  }

  lemma {:induction false} SameRow(cs: seq<ColumnInfo>, rs: seq<Record>, j: nat)
    requires j + 1 < |rs| && ReadableRecords(cs, rs) && ReadableRecords(cs, rs[1..])
    ensures TableValues(cs, rs)[j + 1] == TableValues(cs, rs[1..])[j]
  {
    var i, rest := j + 1, rs[1..];
    RowAt(cs, rs, i);
    RowAt(cs, rest, j);
    assert rest[j] == rs[i] && rest[j + 1..] == rs[i + 1..];
  }

  /** The records of an encoding, decoded: the values of the table, whatever follows, and the
      reader stands behind the last record. */
  lemma {:induction false} RowsOfEncoding(b: seq<byte>, p: nat, cs: seq<ColumnInfo>, rs: seq<Record>, junk: seq<byte>)
    requires |b| < INT_LIMIT && p <= |b| && ReadableRecords(cs, rs) && b[p..] == EncodeRecords(rs, |cs|) + junk
    ensures SafeRows(b, p, cs, |rs|)
    ensures RowsAt(b, p, cs, |rs|) == TableValues(cs, rs)
    ensures PastRows(b, p, |cs|, |rs|) == |b| - |junk|
    decreases |rs|
  {
    if rs != [] {
      var rest := EncodeRecords(rs[1..], |cs|);
      TableFirst(cs, rs);
      assert b[p..] == EncodeFields(rs[0]) + (rest + junk);
      RecordValuesStay(cs, rs[0], rest, rest + junk);
      FieldsOfEncoding(b, p, cs, rs[0], rest + junk);
      RowsOfEncoding(b, PastFields(b, p, |cs|), cs, rs[1..], junk);
    }
  }

  /** With nothing behind the records, only a readable table can be read safely. */
  lemma {:induction false} SafeRowsAreReadable(b: seq<byte>, p: nat, cs: seq<ColumnInfo>, rs: seq<Record>)
    requires |b| < INT_LIMIT && p <= |b| && ValidRecords(rs, |cs|) && b[p..] == EncodeRecords(rs, |cs|)
    requires SafeRows(b, p, cs, |rs|)
    ensures ReadableRecords(cs, rs)
    decreases |rs|
  {
    if rs != [] {
      FieldsOfEncoding(b, p, cs, rs[0], EncodeRecords(rs[1..], |cs|));
      SafeRowsAreReadable(b, PastFields(b, p, |cs|), cs, rs[1..]);
      TableFirst(cs, rs);
    }
  }

  lemma {:induction false} ColumnsOfEncoding(b: seq<byte>, p: nat, cs: seq<ColumnInfo>, rest: seq<byte>)
    requires p <= |b| && b[p..] == EncodeColumns(cs) + rest
    ensures ColumnsAt(b, p, |cs|) == cs && PastColumns(b, p, |cs|) == p + |EncodeColumns(cs)| <= |b|
    ensures b[PastColumns(b, p, |cs|)..] == rest
    decreases |cs|
  {
    if cs == [] {
      assert EncodeColumns(cs) + rest == rest;
    } else {
      var q := p + COLUMN_INFO_SIZE;
      assert b[p..] == cs[0] + (EncodeColumns(cs[1..]) + rest);
      assert b[p..q] == b[p..][..COLUMN_INFO_SIZE] && b[q..] == b[p..][COLUMN_INFO_SIZE..];
      ColumnsOfEncoding(b, q, cs[1..], rest);
    }
  }

  /** What is peeked of the header of an encoding. */
  lemma {:induction false} HeaderOfEncoding(b: seq<byte>, cs: seq<ColumnInfo>, count: Int32, body: seq<byte>)
    requires 0 < |cs| < INT_LIMIT && b == Header(cs, count) + body
    ensures ColumnCount(b) == |cs| && Columns(b) == cs && RecordCount(b) == count
    ensures PastInt(b, CountPlace(b)) == HeaderSize(|cs|) <= |b| && b[HeaderSize(|cs|)..] == body
  {
    HeaderParts(b, cs, count, body);
    IntRoundTrip(|cs|);
    IntRoundTrip(count);
    assert b[0..INT_SIZE] == b[..INT_SIZE] && cs[0..] == cs;
    ColumnsOfEncoding(b, INT_SIZE, cs, EncodeInt(count) + body);
  }

  /** Decoding an encoding gives its columns and the values of its records, and consumes every
      byte of it; bytes behind the last record are not looked at. */
  lemma {:induction false} EncodingDecodes(b: seq<byte>, cs: seq<ColumnInfo>, rs: seq<Record>, junk: seq<byte>)
    requires 0 < |cs| < INT_LIMIT && 0 < |rs| < INT_LIMIT && ReadableRecords(cs, rs)
    requires b == Encode(Table(cs, rs)) + junk && |b| < INT_LIMIT
    ensures Safe(b) && Code(b) == DBERR_SUCCEED
    ensures Columns(b) == cs && Rows(b) == TableValues(cs, rs) && End(b) == |b| - |junk|
  {
    var body := EncodeRecords(rs, |cs|);
    assert b == Header(cs, |rs|) + (body + junk);
    HeaderOfEncoding(b, cs, |rs|, body + junk);
    RowsOfEncoding(b, HeaderSize(|cs|), cs, rs, junk);
  }

  /** An encoding can be decoded without reading outside it exactly when its table is readable. */
  lemma {:induction false} SafeExactlyWhenReadable(b: seq<byte>, cs: seq<ColumnInfo>, rs: seq<Record>)
    requires 0 < |cs| && 0 < |rs| && ValidTable(Table(cs, rs))
    requires b == Encode(Table(cs, rs)) && |b| < INT_LIMIT
    ensures Safe(b) <==> ReadableRecords(cs, rs)
  {
    var body := EncodeRecords(rs, |cs|);
    HeaderOfEncoding(b, cs, |rs|, body);
    if Safe(b) {
      SafeRowsAreReadable(b, HeaderSize(|cs|), cs, rs);
    } else if ReadableRecords(cs, rs) {
      assert b == b + [];
      EncodingDecodes(b, cs, rs, []);
    }
  }

  // ---------------------------------------------------------------- what decoding means

  /** The value says what the field says. */
  ghost predicate Represents(v: DBValue, c: ColumnInfo, f: Field) {
    && v.valueType == ColumnType(c)
    && match f
       case Null(_) => IsNull(v)
       case Value(bytes) => Holds(v, bytes)
  }

  /** NULL, or as many bytes as the column's type takes. */
  ghost predicate Natural(c: ColumnInfo, f: Field) {
    match f
    case Null(_) => true
    case Value(bytes) => SizeOf(ColumnType(c)) == AsGiven || SizeOf(ColumnType(c)) == Fixed(|bytes|)
  }

  ghost predicate NaturalTable(cs: seq<ColumnInfo>, rs: seq<Record>) {
    forall i, j :: 0 <= i < |rs| && 0 <= j < |cs| && |rs[i]| == |cs| ==> Natural(cs[j], rs[i][j])
  }

  /** A decoded field is what was encoded exactly when its size suits its column's type;
      NULL always is. */
  lemma {:induction false} FieldRebuilt(c: ColumnInfo, f: Field, after: seq<byte>)
    requires Readable(c, f, after)
    ensures Represents(FieldValue(c, f, after), c, f) <==> Natural(c, f)
  {
    match f
    case Null(_) =>
    case Value(bytes) => SetValueHolds(EMPTY, ColumnType(c), bytes, after);
  }

  /** Decoding rebuilds the whole table exactly when every field suits its column. */
  lemma {:induction false} TableRebuilt(cs: seq<ColumnInfo>, rs: seq<Record>)
    requires ReadableRecords(cs, rs)
    ensures |TableValues(cs, rs)| == |rs|
    ensures forall i :: 0 <= i < |rs| ==> |TableValues(cs, rs)[i]| == |cs|
    ensures forall i, j :: 0 <= i < |rs| && 0 <= j < |cs| ==>
      (Represents(TableValues(cs, rs)[i][j], cs[j], rs[i][j]) <==> Natural(cs[j], rs[i][j]))
  {
    forall i, j | 0 <= i < |rs| && 0 <= j < |cs|
      ensures Represents(TableValues(cs, rs)[i][j], cs[j], rs[i][j]) <==> Natural(cs[j], rs[i][j])
    {
      var after := EncodeRecords(rs[i + 1..], |cs|);
      TableValuesAreOf(cs, rs);
      assert RecordOf(cs, rs, TableValues(cs, rs), i);
      assert FieldOf(cs, rs[i], after, TableValues(cs, rs)[i], j);
      FieldRebuilt(cs[j], rs[i][j], AfterField(rs[i], j, after));
    }
  }

  /** Decoding such a table never reads outside the blob. */
  lemma {:induction false} NaturalIsReadable(cs: seq<ColumnInfo>, rs: seq<Record>)
    requires ValidRecords(rs, |cs|) && NaturalTable(cs, rs)
    ensures ReadableRecords(cs, rs)
  {
    forall i | 0 <= i < |rs|
      ensures ReadableRow(cs, rs, i)
    {
      assert forall j :: 0 <= j < |cs| ==> Natural(cs[j], rs[i][j]);
      NaturalRow(cs, rs[i], EncodeRecords(rs[i + 1..], |cs|));
    }
  }

  lemma {:induction false} NaturalRow(cs: seq<ColumnInfo>, r: Record, after: seq<byte>)
    requires |r| == |cs| && ValidFields(r)
    requires forall j :: 0 <= j < |cs| ==> Natural(cs[j], r[j])
    ensures ReadableRecord(cs, r, after)
  {
    forall j | 0 <= j < |cs|
      ensures ReadableField(cs, r, after, j)
    {
      assert Natural(cs[j], r[j]);
    }
  }
}
