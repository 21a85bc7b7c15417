/** The record-set format: a column count, the fixed-size column infos, a record count, then
    for every field a signed length and as many bytes, NULL being any negative length.  Ints
    are 32-bit, least significant byte first. */
module RecordCodec {
  import opened Basics
  import opened Memory

  const INT_SIZE: nat := 4

  // ---------------------------------------------------------------- ints

  function EncodeInt(n: Int32): (b: seq<byte>)
    ensures |b| == INT_SIZE
  {
    var u: int := if n < 0 then n + 0x1_0000_0000 else n;
    [u % 0x100, u / 0x100 % 0x100, u / 0x1_0000 % 0x100, u / 0x100_0000]
  }

  function Word(b0: int, b1: int, b2: int, b3: int): int {
    b0 + b1 * 0x100 + b2 * 0x1_0000 + b3 * 0x100_0000
  }

  function DecodeInt(b: seq<byte>): (n: Int32)
    requires |b| == INT_SIZE
  {
    var u := Word(b[0], b[1], b[2], b[3]);
    if u < 0x8000_0000 then u else u - 0x1_0000_0000
  }

  /** An int peeked at a position, and the position then: 0, and no step, without room. */
  function IntAt(b: seq<byte>, p: nat): Int32 {
    if p + INT_SIZE <= |b| then DecodeInt(b[p..p + INT_SIZE]) else 0
  }

  function PastInt(b: seq<byte>, p: nat): nat {
    if p + INT_SIZE <= |b| then p + INT_SIZE else p
  }

  /** Every int survives being stored and loaded, and every four bytes are some int. */
  lemma {:induction false} IntRoundTrip(n: Int32)
    ensures DecodeInt(EncodeInt(n)) == n
  {
    var u: int := if n < 0 then n + 0x1_0000_0000 else n;
    Digits(u);
  }

  lemma {:induction false} Digits(u: nat)
    requires u < 0x1_0000_0000
    ensures u == u % 0x100 + (u / 0x100 % 0x100) * 0x100 + (u / 0x1_0000 % 0x100) * 0x1_0000
              + (u / 0x100_0000) * 0x100_0000
  {
    assert u / 0x1_0000 == u / 0x100 / 0x100;
    assert u / 0x100_0000 == u / 0x1_0000 / 0x100;
  }

  lemma {:induction false} IntBytes(b: seq<byte>)
    requires |b| == INT_SIZE
    ensures EncodeInt(DecodeInt(b)) == b
  {
    var u, u1, u2 := Word(b[0], b[1], b[2], b[3]), Word(b[1], b[2], b[3], 0), Word(b[2], b[3], 0, 0);
    LowByte(b[0], u1);
    LowByte(b[1], u2);
    LowByte(b[2], b[3]);
    assert u == b[0] + u1 * 0x100 && u1 == b[1] + u2 * 0x100;
    assert u / 0x1_0000 == u2 && u / 0x100_0000 == b[3];
  }

  lemma {:induction false} LowByte(low: byte, high: nat)
    ensures (low as int + high * 0x100) % 0x100 == low && (low as int + high * 0x100) / 0x100 == high
  {
  }

  // ---------------------------------------------------------------- columns

  const COLUMN_INFO_SIZE: nat := 40

  /** DB_COLUMN_INFO: a name of 32 characters, then Type and DigitSize as shorts, then Size. */
  type ColumnInfo = c: seq<byte> | |c| == COLUMN_INFO_SIZE witness Zeros(COLUMN_INFO_SIZE)

  const NO_COLUMN: ColumnInfo := Zeros(COLUMN_INFO_SIZE)

  function Zeros(n: nat): (b: seq<byte>)
    ensures |b| == n && forall i :: 0 <= i < n ==> b[i] == 0
  {
    if n == 0 then [] else [0] + Zeros(n - 1)
  }

  function DecodeShort(b: seq<byte>): int
    requires |b| == 2
  {
    var u := Word(b[0], b[1], 0, 0);
    if u < 0x8000 then u else u - 0x1_0000
  }

  function ColumnType(c: ColumnInfo): int { DecodeShort(c[32..34]) }

  function EncodeColumns(cs: seq<ColumnInfo>): (b: seq<byte>)
    ensures |b| == |cs| * COLUMN_INFO_SIZE
  {
    if cs == [] then [] else cs[0] + EncodeColumns(cs[1..])
  }

  // ---------------------------------------------------------------- records

  datatype Field = Null(code: Int32) | Value(bytes: seq<byte>)

  type Record = seq<Field>

  ghost predicate ValidField(f: Field) {
    match f
    case Null(code) => code < 0
    case Value(bytes) => |bytes| < INT_LIMIT
  }

  ghost predicate ValidFields(r: seq<Field>) {
    forall j :: 0 <= j < |r| ==> ValidField(r[j])
  }

  /** Every record has a field for every column. */
  ghost predicate ValidRecords(rs: seq<Record>, cols: nat) {
    forall i :: 0 <= i < |rs| ==> |rs[i]| == cols && ValidFields(rs[i])
  }

  function FieldInt(f: Field): Int32
    requires ValidField(f)
  {
    match f
    case Null(code) => code
    case Value(bytes) => |bytes|
  }

  function FieldBytes(f: Field): seq<byte> {
    if f.Null? then [] else f.bytes
  }

  function EncodeField(f: Field): (b: seq<byte>)
    requires ValidField(f)
    ensures |b| == INT_SIZE + |FieldBytes(f)|
  {
    EncodeInt(FieldInt(f)) + FieldBytes(f)
  }

  function EncodeFields(r: seq<Field>): seq<byte>
    requires ValidFields(r)
  {
    if r == [] then [] else EncodeField(r[0]) + EncodeFields(r[1..])
  }

  function EncodeRecords(rs: seq<Record>, cols: nat): seq<byte>
    requires ValidRecords(rs, cols)
  {
    if rs == [] then [] else EncodeFields(rs[0]) + EncodeRecords(rs[1..], cols)
  }

  /** Everything before the records. */
  function Header(cs: seq<ColumnInfo>, count: Int32): (b: seq<byte>)
    requires |cs| < INT_LIMIT
    ensures |b| == HeaderSize(|cs|)
  {
    EncodeInt(|cs|) + EncodeColumns(cs) + EncodeInt(count)
  }

  function HeaderSize(cols: nat): nat {
    2 * INT_SIZE + cols * COLUMN_INFO_SIZE
  }

  datatype Table = Table(columns: seq<ColumnInfo>, records: seq<Record>)

  ghost predicate ValidTable(t: Table) {
    |t.columns| < INT_LIMIT && |t.records| < INT_LIMIT && ValidRecords(t.records, |t.columns|)
  }

  function Encode(t: Table): seq<byte>
    requires ValidTable(t)
  {
    Header(t.columns, |t.records|) + EncodeRecords(t.records, |t.columns|)
  }

  // ---------------------------------------------------------------- pieces of encodings

  lemma {:induction false} RecordsConcat(rs: seq<Record>, ss: seq<Record>, cols: nat)
    requires ValidRecords(rs, cols) && ValidRecords(ss, cols)
    ensures ValidRecords(rs + ss, cols)
    ensures EncodeRecords(rs + ss, cols) == EncodeRecords(rs, cols) + EncodeRecords(ss, cols)
  {
    if rs == [] {
      assert rs + ss == ss;
    } else {
      RecordsConcat(rs[1..], ss, cols);
      assert (rs + ss)[1..] == rs[1..] + ss && (rs + ss)[0] == rs[0];
      assert ValidRecords(rs + ss, cols);
      assert EncodeFields(rs[0]) + (EncodeRecords(rs[1..], cols) + EncodeRecords(ss, cols))
          == EncodeFields(rs[0]) + EncodeRecords(rs[1..], cols) + EncodeRecords(ss, cols);
    }
  }

  /** A record takes at least a length for every field. */
  lemma {:induction false} FieldsTakeRoom(r: seq<Field>)
    requires ValidFields(r)
    ensures |EncodeFields(r)| >= |r| * INT_SIZE
  {
    if r != [] {
      FieldsTakeRoom(r[1..]);
    }
  }

  lemma {:induction false} RecordsTakeRoom(rs: seq<Record>, cols: nat)
    requires ValidRecords(rs, cols) && cols > 0
    ensures |EncodeRecords(rs, cols)| >= |rs|
  {
    if rs != [] {
      FieldsTakeRoom(rs[0]);
      RecordsTakeRoom(rs[1..], cols);
    }
  }
}
