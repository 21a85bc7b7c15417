/** What the bytes of a record set mean, said without the encoder and the decoder: ints by the
    value of their bytes, columns and values by their numbers in the source. */
module WireFormat {
  import opened Basics
  import opened Memory
  import opened RecordCodec
  import opened DBValues
  import opened BlobReading
  import opened Decoding
  import opened CutShort

  // ---------------------------------------------------------------- ints

  /** The number that bytes stand for, the least significant first. */
  function Number(b: seq<byte>): nat {
    if b == [] then 0 else b[0] as int + 0x100 * Number(b[1..])
  }

  /** The signed number of `size` bytes, in two's complement. */
  function Signed(n: nat, range: nat): int {
    if 2 * n < range then n else n - range
  }

  lemma {:induction false} NumberOfTwo(b: seq<byte>)
    requires |b| == 2
    ensures Number(b) == b[0] as int + 0x100 * (b[1] as int)
  {
    assert b[1..][1..] == [] && Number(b[1..]) == b[1];
  }

  lemma {:induction false} NumberOfFour(b: seq<byte>)
    requires |b| == INT_SIZE
    ensures Number(b) == b[0] as int + 0x100 * (b[1] as int) + 0x1_0000 * (b[2] as int) + 0x100_0000 * (b[3] as int)
  {
    NumberOfTwo(b[2..]);
    assert b[1..][1..] == b[2..];
    assert Number(b[1..]) == b[1] as int + 0x100 * Number(b[2..]);
  }

  /** Four bytes are read as their signed number. */
  lemma {:induction false} IntIsNumber(b: seq<byte>)
    requires |b| == INT_SIZE
    ensures DecodeInt(b) == Signed(Number(b), 0x1_0000_0000)
  {
    NumberOfFour(b);
  }

  /** An int is stored as the four bytes of that number. */
  lemma {:induction false} NumberOfInt(n: Int32)
    ensures Number(EncodeInt(n)) == if n >= 0 then n else n + 0x1_0000_0000
  {
    NumberOfFour(EncodeInt(n));
    Digits(if n < 0 then n + 0x1_0000_0000 else n);
  }

  /** Type in DB_COLUMN_INFO: the two bytes behind the name of 32 characters. */
  lemma {:induction false} TypeIsNumber(c: ColumnInfo)
    ensures ColumnType(c) == Signed(Number(c[32..34]), 0x1_0000)
  {
    NumberOfTwo(c[32..34]);
  }

  // ---------------------------------------------------------------- counts

  /** The column count is the number of the first four bytes, and the record count that of the
      four bytes behind the column infos. */
  lemma {:induction false} CountsAreNumbers(b: seq<byte>)
    ensures |b| >= INT_SIZE ==> ColumnCount(b) == Signed(Number(b[..INT_SIZE]), 0x1_0000_0000)
    ensures ColumnCount(b) > 0 ==> |Columns(b)| == ColumnCount(b)
    ensures ColumnCount(b) > 0 && |b| >= HeaderSize(ColumnCount(b)) ==>
      var end := HeaderSize(ColumnCount(b));
      RecordCount(b) == Signed(Number(b[end - INT_SIZE..end]), 0x1_0000_0000)
  {
    if |b| >= INT_SIZE {
      IntIsNumber(b[..INT_SIZE]);
      assert b[0..INT_SIZE] == b[..INT_SIZE];
    }
    var n := ColumnCount(b);
    if n > 0 && |b| >= HeaderSize(n) {
      PastColumnsIs(b, INT_SIZE, n);
      IntIsNumber(b[HeaderSize(n) - INT_SIZE..HeaderSize(n)]);
    }
  }

  lemma {:induction false} SmallInt(n: nat)
    requires n < 0x100
    ensures EncodeInt(n) == [n, 0, 0, 0] && DecodeInt([n, 0, 0, 0]) == n
  {
    IntRoundTrip(n);
    assert n % 0x100 == n && n / 0x100 == 0 && n / 0x1_0000 == 0 && n / 0x100_0000 == 0;
    assert EncodeInt(n) == [n, 0, 0, 0];
  }

  /** Data that start with a small number and three zero bytes have that many columns. */
  lemma {:induction false} FewColumns(b: seq<byte>, n: nat)
    requires 0 < n < 0x100 && [n, 0, 0, 0] <= b
    ensures ColumnCount(b) == |Columns(b)| == n
  {
    SmallInt(n);
    assert b[0..INT_SIZE] == [n, 0, 0, 0];
  }

  // ---------------------------------------------------------------- values

  /** The size of a value by the number of its type: char, short, int, a 64-bit integer, float,
      double, three shorts twice, sixteen bytes twice. */
  function SizeByNumber(t: int): Option<nat> {
    match t
    case 3 => Some(1)
    case 4 => Some(2)
    case 5 => Some(4)
    case 6 => Some(8)
    case 7 => Some(4)
    case 8 => Some(8)
    case 9 => Some(6)
    case 10 => Some(6)
    case 11 => Some(16)
    case 12 => Some(16)
    case _ => None
  }

  /** Narrow and wide strings and binary data. */
  predicate IsText(t: int) {
    t == 1 || t == 2 || t == 13
  }

  /** What a field is read as: of a type with a size, that many bytes; of a string or binary
      data, the bytes of the field and two zero bytes; of any other type, NULL. */
  function ValueByNumber(t: int, bytes: seq<byte>): DBValue
    requires SizeByNumber(t).Some? ==> |bytes| == SizeByNumber(t).value
  {
    if SizeByNumber(t).Some? then DBValue(t, 0, Some(bytes), |bytes|)
    else if IsText(t) then DBValue(t, 0, Some(bytes + [0, 0]), |bytes|)
    else DBValue(t, 0, None, 0)
  }

  lemma {:induction false} ValueOfEachType(t: int, bytes: seq<byte>, after: seq<byte>)
    requires SizeByNumber(t).Some? ==> |bytes| == SizeByNumber(t).value
    ensures CanRead(t, bytes + after, |bytes|)
    ensures SetValue(EMPTY, t, Some(bytes + after), |bytes|) == ValueByNumber(t, bytes)
  {
    assert (bytes + after)[..|bytes|] == bytes;
    assert SizeOf(t) == if SizeByNumber(t).Some? then Fixed(|bytes|) else if IsText(t) then AsGiven else Unknown;
  }

  lemma {:induction false} IntAtIsNumber(b: seq<byte>, p: nat, n: nat)
    requires p + INT_SIZE <= |b| && Number(b[p..p + INT_SIZE]) == n < 0x8000_0000
    ensures IntAt(b, p) == n && PastInt(b, p) == p + INT_SIZE
  {
    IntIsNumber(b[p..p + INT_SIZE]);
  }

  /** A field at position `p`, of any type and of the length that suits it: its length in four
      bytes and its bytes are read as just those bytes, and the reader ends behind them. */
  lemma {:induction false} FieldOfEachType(b: seq<byte>, p: nat, c: ColumnInfo, bytes: seq<byte>)
    requires SizeByNumber(ColumnType(c)).Some? ==> |bytes| == SizeByNumber(ColumnType(c)).value
    requires |bytes| < 0x8000_0000 && p + INT_SIZE + |bytes| <= |b| < INT_LIMIT
    requires Number(b[p..p + INT_SIZE]) == |bytes| && b[p + INT_SIZE..p + INT_SIZE + |bytes|] == bytes
    ensures SafeField(b, p, c) && FieldAt(b, p, c) == ValueByNumber(ColumnType(c), bytes)
    ensures PastField(b, p) == p + INT_SIZE + |bytes|
  {
    var q := p + INT_SIZE;
    IntAtIsNumber(b, p, |bytes|);
    assert Behind(b, q) == bytes + b[q + |bytes|..];
    ValueOfEachType(ColumnType(c), bytes, b[q + |bytes|..]);
  }

  /** A field with a negative length is NULL, whatever its type, and has no bytes. */
  lemma {:induction false} NullOfEachType(b: seq<byte>, p: nat, c: ColumnInfo)
    requires p + INT_SIZE <= |b| < INT_LIMIT && Number(b[p..p + INT_SIZE]) >= 0x8000_0000
    ensures SafeField(b, p, c) && FieldAt(b, p, c) == DBValue(ColumnType(c), 0, None, 0)
    ensures PastField(b, p) == p + INT_SIZE
  {
    IntIsNumber(b[p..p + INT_SIZE]);
    NumberOfFour(b[p..p + INT_SIZE]);
  }

  // ---------------------------------------------------------------- a whole table

  /** A table of two columns and two rows, byte by byte: the column count, the column infos,
      the record count, and row by row a length and the bytes of each field.  The columns are
      of type TINY, the last field is NULL. */
  lemma {:induction false} TwoByTwo(b: seq<byte>, c: ColumnInfo, d: ColumnInfo, x: byte, y: byte, z: byte)
    requires ColumnType(c) == ColumnType(d) == 3
    requires b == [2, 0, 0, 0] + c + d + [2, 0, 0, 0]
               + [1, 0, 0, 0, x] + [1, 0, 0, 0, y] + [1, 0, 0, 0, z] + [255, 255, 255, 255]
    ensures |b| == 107 && Safe(b) && Code(b) == 0 && Columns(b) == [c, d]
    ensures Rows(b) == [[Tiny(x), Tiny(y)], [Tiny(z), DBValue(3, 0, None, 0)]]
  {
    var h, body := HeaderSize(2), Cells(x, y, z);
    assert b == [2, 0, 0, 0] + c + d + [2, 0, 0, 0] + body;
    HeaderOfTwo(b, c, d, body);
    FirstRow(b, h, c, d, x, y, z);
    SecondRow(b, h, c, d, x, y, z);
    TwoRows(b, h, [c, d]);
  }

  function Cells(x: byte, y: byte, z: byte): seq<byte> {
    [1, 0, 0, 0, x] + [1, 0, 0, 0, y] + [1, 0, 0, 0, z] + [255, 255, 255, 255]
  }

  lemma {:induction false} FirstRow(b: seq<byte>, h: nat, c: ColumnInfo, d: ColumnInfo, x: byte, y: byte, z: byte)
    requires ColumnType(c) == ColumnType(d) == 3
    requires h <= |b| < INT_LIMIT && b[h..] == Cells(x, y, z)
    ensures SafeFields(b, h, [c, d]) && FieldsAt(b, h, [c, d]) == [Tiny(x), Tiny(y)]
    ensures PastFields(b, h, 2) == h + 10
  {
    assert Cells(x, y, z)[0..5] == [1, 0, 0, 0, x] && Cells(x, y, z)[5..10] == [1, 0, 0, 0, y];
    Within(b, h, Cells(x, y, z), 0, 5);
    Within(b, h, Cells(x, y, z), 5, 10);
    TinyAt(b, h, c, x);
    TinyAt(b, h + 5, d, y);
    RowOfTwo(b, h, c, d);
  }

  lemma {:induction false} SecondRow(b: seq<byte>, h: nat, c: ColumnInfo, d: ColumnInfo, x: byte, y: byte, z: byte)
    requires ColumnType(c) == ColumnType(d) == 3
    requires h <= |b| < INT_LIMIT && b[h..] == Cells(x, y, z)
    ensures SafeFields(b, h + 10, [c, d])
    ensures FieldsAt(b, h + 10, [c, d]) == [Tiny(z), DBValue(3, 0, None, 0)]
  {
    assert Cells(x, y, z)[10..15] == [1, 0, 0, 0, z] && Cells(x, y, z)[15..19] == [255, 255, 255, 255];
    Within(b, h, Cells(x, y, z), 10, 15);
    Within(b, h, Cells(x, y, z), 15, 19);
    TinyAt(b, h + 10, c, z);
    NullAt(b, h + 15, d);
    RowOfTwo(b, h + 10, c, d);
  }

  lemma {:induction false} Within(b: seq<byte>, h: nat, body: seq<byte>, i: nat, j: nat)
    requires h <= |b| && b[h..] == body && i <= j <= |body|
    ensures h + j <= |b| && b[h + i..h + j] == body[i..j]
  {
    assert b[h + i..h + j] == b[h..][i..j];
  }

  function Tiny(x: byte): DBValue {
    DBValue(3, 0, Some([x]), 1)
  }

  lemma {:induction false} HeaderOfTwo(b: seq<byte>, c: ColumnInfo, d: ColumnInfo, body: seq<byte>)
    requires b == [2, 0, 0, 0] + c + d + [2, 0, 0, 0] + body
    ensures ColumnCount(b) == 2 && Columns(b) == [c, d] && RecordCount(b) == 2
    ensures PastInt(b, CountPlace(b)) == HeaderSize(2) <= |b| && b[HeaderSize(2)..] == body
  {
    var cs: seq<ColumnInfo> := [c, d];
    SmallInt(2);
    assert cs[1..] == [d] && [d][1..] == [] && EncodeColumns([d]) == d + [];
    assert EncodeColumns(cs) == c + d;
    assert b == Header(cs, 2) + body;
    HeaderOfEncoding(b, cs, 2, body);
  }

  lemma {:induction false} TinyAt(b: seq<byte>, p: nat, c: ColumnInfo, x: byte)
    requires ColumnType(c) == 3 && p + 5 <= |b| < INT_LIMIT && b[p..p + 5] == [1, 0, 0, 0, x]
    ensures SafeField(b, p, c) && FieldAt(b, p, c) == Tiny(x) && PastField(b, p) == p + 5
  {
    var part := b[p..p + 5];
    assert b[p..p + INT_SIZE] == part[..INT_SIZE] == [1, 0, 0, 0];
    assert b[p + INT_SIZE..p + INT_SIZE + 1] == part[INT_SIZE..] == [x];
    NumberOfFour([1, 0, 0, 0]);
    FieldOfEachType(b, p, c, [x]);
  }

  lemma {:induction false} NullAt(b: seq<byte>, p: nat, c: ColumnInfo)
    requires ColumnType(c) == 3 && p + 4 <= |b| < INT_LIMIT && b[p..p + 4] == [255, 255, 255, 255]
    ensures SafeField(b, p, c) && FieldAt(b, p, c) == DBValue(3, 0, None, 0) && PastField(b, p) == p + 4
  {
    NumberOfFour(b[p..p + 4]);
    NullOfEachType(b, p, c);
  }

  lemma {:induction false} RowOfTwo(b: seq<byte>, p: nat, c: ColumnInfo, d: ColumnInfo)
    requires SafeField(b, p, c) && SafeField(b, PastField(b, p), d)
    ensures SafeFields(b, p, [c, d])
    ensures FieldsAt(b, p, [c, d]) == [FieldAt(b, p, c), FieldAt(b, PastField(b, p), d)]
    ensures PastFields(b, p, 2) == PastField(b, PastField(b, p))
  {
    var cs: seq<ColumnInfo>, rest: seq<ColumnInfo>, q := [c, d], [d], PastField(b, p);
    assert cs[1..] == rest && rest[1..] == [];
    assert SafeFields(b, PastField(b, q), []) && FieldsAt(b, PastField(b, q), []) == [];
    assert SafeFields(b, q, rest) && FieldsAt(b, q, rest) == [FieldAt(b, q, d)];
    assert PastFields(b, q, 1) == PastFields(b, PastField(b, q), 0);
  }

  lemma {:induction false} TwoRows(b: seq<byte>, p: nat, cs: seq<ColumnInfo>)
    requires SafeFields(b, p, cs) && SafeFields(b, PastFields(b, p, |cs|), cs)
    ensures SafeRows(b, p, cs, 2)
    ensures RowsAt(b, p, cs, 2) == [FieldsAt(b, p, cs), FieldsAt(b, PastFields(b, p, |cs|), cs)]
  {
    var q := PastFields(b, p, |cs|);
    var r := PastFields(b, q, |cs|);
    assert SafeRows(b, r, cs, 0) && RowsAt(b, r, cs, 0) == [];
    assert SafeRows(b, q, cs, 1) && RowsAt(b, q, cs, 1) == [FieldsAt(b, q, cs)];
  }

  // ---------------------------------------------------------------- tables without rows

  /** The code says whether there is anything: for every encoded table, DBERR_SUCCEED if and
      only if it has columns and records, and otherwise no rows. */
  lemma {:induction false} CodeOfEncoding(t: Table)
    requires ValidTable(t)
    ensures var b := Encode(t);
      && (Code(b) == DBERR_SUCCEED <==> t.columns != [] && t.records != [])
      && (t.columns == [] || t.records == [] ==>
            Safe(b) && Code(b) == 6 && Columns(b) == t.columns && Rows(b) == [])
  {
    var b, body := Encode(t), EncodeRecords(t.records, |t.columns|);
    if t.columns == [] {
      NoColumns(b, EncodeInt(|t.records|) + body);
      NothingFound(b);
    } else {
      HeaderOfEncoding(b, t.columns, |t.records|, body);
      if t.records == [] {
        NothingFound(b);
      }
    }
  }

  lemma {:induction false} NoColumns(b: seq<byte>, rest: seq<byte>)
    requires b == EncodeInt(0) + EncodeColumns([]) + rest
    ensures ColumnCount(b) == RecordCount(b) == 0 && Columns(b) == []
  {
    var zero := EncodeInt(0);
    assert b == zero + (EncodeColumns([]) + rest);
    FrontOf(b, zero, EncodeColumns([]) + rest);
    IntRoundTrip(0);
  }

  lemma {:induction false} FrontOf(b: seq<byte>, first: seq<byte>, rest: seq<byte>)
    requires b == first + rest && |first| == INT_SIZE
    ensures IntAt(b, 0) == DecodeInt(first)
  {
    assert b[0..INT_SIZE] == first;
  }

  lemma {:induction false} NothingFound(b: seq<byte>)
    requires RecordCount(b) <= 0
    ensures Safe(b) && Code(b) == DBERR_NO_RECORDS && Rows(b) == []
  {
  }
}
