/** CDBFakeRecordSet: cuts a record-set blob into pages, each a blob of its own. */
module FakeRecordSets {
  import opened Basics
  import opened Memory
  import opened RecordCodec
  import opened EasyBuffers
  import opened BlobReading
  import opened Decoding
  import opened Paging

  datatype GetDataCode = NO_MORE_DATA | BUFFER_FULL

  /** The record count of a blob as GetRecordSetDataEx finds it: 0 without columns, and 0 when
      the blob ends before it. */
  function CountFound(b: seq<byte>): Int32 {
    if ColumnCount(b) <= 0 then 0 else IntAt(b, INT_SIZE + ColumnCount(b) * COLUMN_INFO_SIZE)
  }

  /** The blobs GetRecordSetDataEx can page through without leaving them: no columns, no
      records or a header cut short, or else records to the end of the data; the output must
      hold the header.  The size of the column infos must be in the range of UINT. */
  ghost predicate Pageable(b: seq<byte>, cs: seq<ColumnInfo>, rs: seq<Record>, room: int) {
    && (ColumnCount(b) > 0 ==> ColumnCount(b) * COLUMN_INFO_SIZE < INT_LIMIT)
    && (CountFound(b) > 0 ==>
          && 0 < |cs| < INT_LIMIT && ValidRecords(rs, |cs|) && HeaderSize(|cs|) <= room
          && b == Header(cs, CountFound(b)) + EncodeRecords(rs, |cs|))
  }

  /** A blob that ends before its record count does not say that it has records. */
  lemma {:induction false} CutShortHasNone(b: seq<byte>)
    requires 0 < ColumnCount(b) && |b| < HeaderSize(ColumnCount(b))
    ensures CountFound(b) == 0
  {
  }

  lemma {:induction false} CountIsFound(b: seq<byte>, cs: seq<ColumnInfo>, count: Int32, body: seq<byte>)
    requires 0 < |cs| < INT_LIMIT && b == Header(cs, count) + body
    ensures ColumnCount(b) == |cs| && CountFound(b) == count
  {
    HeaderParts(b, cs, count, body);
    IntRoundTrip(|cs|);
    IntRoundTrip(count);
    assert b[0..INT_SIZE] == b[..INT_SIZE];
  }

  /** `pos` is where record `k` starts; 0 stands for the start of the first one. */
  ghost predicate AtRecord(pos: int, cs: seq<ColumnInfo>, rs: seq<Record>, k: nat) {
    ValidRecords(rs, |cs|) && k <= |rs| && (pos == OffsetOf(cs, rs, k) || (pos == 0 && k == 0))
  }

  // ---------------------------------------------------------------- the blob from a record on

  lemma {:induction false} FromRecord(bytes: seq<byte>, cs: seq<ColumnInfo>, count: Int32, rs: seq<Record>, k: nat)
    requires |cs| < INT_LIMIT && ValidRecords(rs, |cs|) && k <= |rs|
    requires bytes == Header(cs, count) + EncodeRecords(rs, |cs|)
    ensures OffsetOf(cs, rs, k) <= |bytes|
    ensures bytes[OffsetOf(cs, rs, k)..] == EncodeRecords(rs[k..], |cs|)
    ensures OffsetOf(cs, rs, |rs|) == |bytes|
  {
    assert rs == rs[..k] + rs[k..] && rs[..|rs|] == rs;
    RecordsConcat(rs[..k], rs[k..], |cs|);
    var h, a, b := Header(cs, count), EncodeRecords(rs[..k], |cs|), EncodeRecords(rs[k..], |cs|);
    assert bytes == h + (a + b) && |h| == HeaderSize(|cs|);
    assert (h + (a + b))[|h| + |a|..] == b;
  }

  lemma {:induction false} BetweenRecords(bytes: seq<byte>, cs: seq<ColumnInfo>, count: Int32, rs: seq<Record>,
                                          k: nat, m: nat)
    requires |cs| < INT_LIMIT && ValidRecords(rs, |cs|) && k <= m <= |rs|
    requires bytes == Header(cs, count) + EncodeRecords(rs, |cs|)
    ensures OffsetOf(cs, rs, k) <= OffsetOf(cs, rs, m) <= |bytes|
    ensures bytes[OffsetOf(cs, rs, k)..OffsetOf(cs, rs, m)] == EncodeRecords(rs[k..m], |cs|)
  {
    FromRecord(bytes, cs, count, rs, k);
    OffsetsDiffer(cs, rs, k, m);
    assert rs[k..] == rs[k..m] + rs[m..];
    RecordsConcat(rs[k..m], rs[m..], |cs|);
    Front(bytes, OffsetOf(cs, rs, k), EncodeRecords(rs[k..m], |cs|), EncodeRecords(rs[m..], |cs|));
  }

  lemma {:induction false} OffsetsDiffer(cs: seq<ColumnInfo>, rs: seq<Record>, k: nat, m: nat)
    requires ValidRecords(rs, |cs|) && k <= m <= |rs|
    ensures OffsetOf(cs, rs, m) == OffsetOf(cs, rs, k) + |EncodeRecords(rs[k..m], |cs|)|
  {
    assert rs[..m] == rs[..k] + rs[k..m];
    RecordsConcat(rs[..k], rs[k..m], |cs|);
  }

  lemma {:induction false} Front(b: seq<byte>, at: nat, x: seq<byte>, y: seq<byte>)
    requires at <= |b| && b[at..] == x + y
    ensures at + |x| <= |b| && b[at..at + |x|] == x
  {
    assert b[at..at + |x|] == b[at..][..|x|];
  }

  /** One turn of the outer loop, before the end of the data. */
  lemma {:induction false} NextOf(bytes: seq<byte>, cs: seq<ColumnInfo>, count: Int32, rs: seq<Record>, k: nat,
                                  m: nat, room: nat)
    requires 0 < |cs| < INT_LIMIT && ValidRecords(rs, |cs|) && k + m <= |rs|
    requires bytes == Header(cs, count) + EncodeRecords(rs, |cs|)
    requires OffsetOf(cs, rs, k + m) < |bytes| < INT_LIMIT
    ensures k + m < |rs| && m + 1 < INT_LIMIT && |rs[k + m]| == |cs| && ValidFields(rs[k + m])
    ensures bytes[OffsetOf(cs, rs, k + m)..] == EncodeFields(rs[k + m]) + EncodeRecords(rs[k + m + 1..], |cs|)
    ensures OffsetOf(cs, rs, k + m + 1) == OffsetOf(cs, rs, k + m) + RecordSize(rs[k + m])
    ensures Fit(rs[k..][m..], |cs|, room) ==
      if RecordSize(rs[k + m]) > room then 0 else 1 + Fit(rs[k..][m + 1..], |cs|, room - RecordSize(rs[k + m]))
  {
    var i := k + m;
    FromRecord(bytes, cs, count, rs, i);
    RecordsTakeRoom(rs, |cs|);
    assert rs[i..][0] == rs[i] && rs[i..][1..] == rs[i + 1..];
    OffsetsDiffer(cs, rs, i, i + 1);
    assert rs[i..i + 1] == [rs[i]] && [rs[i]][1..] == [];
    assert EncodeFields(rs[i]) + [] == EncodeFields(rs[i]);
    assert rs[k..][m..] == rs[i..] && rs[k..][m + 1..] == rs[i + 1..];
  }

  lemma {:induction false} EndReached(bytes: seq<byte>, cs: seq<ColumnInfo>, count: Int32, rs: seq<Record>, i: nat)
    requires 0 < |cs| < INT_LIMIT && ValidRecords(rs, |cs|) && i <= |rs|
    requires bytes == Header(cs, count) + EncodeRecords(rs, |cs|)
    requires OffsetOf(cs, rs, i) >= |bytes|
    ensures i == |rs|
  {
    FromRecord(bytes, cs, count, rs, i);
    RecordsTakeRoom(rs[i..], |cs|);
  }

  /** The place of a record lies before the end of the data exactly when there is one. */
  lemma {:induction false} BehindPeek(bytes: seq<byte>, cs: seq<ColumnInfo>, count: Int32, rs: seq<Record>, i: nat)
    requires 0 < |cs| < INT_LIMIT && ValidRecords(rs, |cs|) && i <= |rs|
    requires bytes == Header(cs, count) + EncodeRecords(rs, |cs|)
    ensures OffsetOf(cs, rs, i) < |bytes| <==> i < |rs|
  {
    FromRecord(bytes, cs, count, rs, i);
    RecordsTakeRoom(rs[i..], |cs|);
  }

  /** A header whose count bytes are overwritten is a header with the other count. */
  lemma {:induction false} HeaderPatched(b: seq<byte>, cs: seq<ColumnInfo>, count: Int32, n: Int32)
    requires |cs| < INT_LIMIT && |b| == HeaderSize(|cs|)
    requires forall i :: 0 <= i < |b| - INT_SIZE ==> b[i] == Header(cs, count)[i]
    requires b[|b| - INT_SIZE..] == EncodeInt(n)
    ensures b == Header(cs, n)
  {
    var front := EncodeInt(|cs|) + EncodeColumns(cs);
    assert Header(cs, count) == front + EncodeInt(count);
    assert b[..|front|] == front;
    assert b == b[..|front|] + b[|front|..];
  }

  lemma {:induction false} CountIsLast(b: seq<byte>, cs: seq<ColumnInfo>, n: Int32)
    requires |cs| < INT_LIMIT && b == Header(cs, n)
    ensures b[|b| - INT_SIZE..] == EncodeInt(n)
  {
  }

  // ---------------------------------------------------------------- counting the records that fit

  /** `m` records from record `k` on fit into `room` and end at `recordPtr`. */
  ghost predicate CountedTo(b: seq<byte>, cs: seq<ColumnInfo>, count: Int32, rs: seq<Record>, k: nat, m: nat,
                            room: nat, recordPtr: nat) {
    && 0 < |cs| < INT_LIMIT && ValidRecords(rs, |cs|) && k + m <= |rs| && m < INT_LIMIT
    && b == Header(cs, count) + EncodeRecords(rs, |cs|) && |b| < INT_LIMIT
    && recordPtr == OffsetOf(cs, rs, k + m) <= |b|
    && 0 <= recordPtr - OffsetOf(cs, rs, k) <= room
    && Fit(rs[k..], |cs|, room) == m + Fit(rs[k..][m..], |cs|, room - (recordPtr - OffsetOf(cs, rs, k)))
  }

  lemma {:induction false} CountedFirst(b: seq<byte>, cs: seq<ColumnInfo>, count: Int32, rs: seq<Record>, k: nat,
                                        room: nat, recordPtr: nat)
    requires 0 < |cs| < INT_LIMIT && ValidRecords(rs, |cs|) && k <= |rs|
    requires b == Header(cs, count) + EncodeRecords(rs, |cs|) && |b| < INT_LIMIT
    requires recordPtr == OffsetOf(cs, rs, k)
    ensures CountedTo(b, cs, count, rs, k, 0, room, recordPtr)
  {
    FromRecord(b, cs, count, rs, k);
    assert rs[k..][0..] == rs[k..];
  }

  /** The next record is counted exactly when it fits as well. */
  lemma {:induction false} CountedNext(b: seq<byte>, cs: seq<ColumnInfo>, count: Int32, rs: seq<Record>, k: nat, m: nat,
                                       room: nat, recordPtr: nat)
    requires CountedTo(b, cs, count, rs, k, m, room, recordPtr) && recordPtr < |b|
    ensures k + m < |rs| && m + 1 < INT_LIMIT
    ensures var next := OffsetOf(cs, rs, k + m + 1);
      if next - OffsetOf(cs, rs, k) <= room then CountedTo(b, cs, count, rs, k, m + 1, room, next)
      else Fit(rs[k..], |cs|, room) == m
  {
    NextOf(b, cs, count, rs, k, m, room - (recordPtr - OffsetOf(cs, rs, k)));
    FromRecord(b, cs, count, rs, k + m + 1);
  }

  lemma {:induction false} CountedLast(b: seq<byte>, cs: seq<ColumnInfo>, count: Int32, rs: seq<Record>, k: nat, m: nat,
                                       room: nat, recordPtr: nat)
    requires CountedTo(b, cs, count, rs, k, m, room, recordPtr) && recordPtr >= |b|
    ensures k + m == |rs| && Fit(rs[k..], |cs|, room) == m
  {
    EndReached(b, cs, count, rs, k + m);
    assert rs[k..][m..] == [];
  }

  /** What lies between the page's first record and the first one that did not fit, and whether
      a reader that has passed that one is at the end. */
  lemma {:induction false} PageHolds(b: seq<byte>, cs: seq<ColumnInfo>, count: Int32, rs: seq<Record>, k: nat, n: nat,
                                     m: nat, room: nat, from: nat, upto: nat, peek: nat)
    requires CountedTo(b, cs, count, rs, k, n, room, upto) && k < |rs| && from == OffsetOf(cs, rs, k)
    requires peek == OffsetOf(cs, rs, if k + n < |rs| then k + n + 1 else k + n) && m == k + n
    ensures ValidRecords(rs[k..m], |cs|) && upto == OffsetOf(cs, rs, m)
    ensures from <= upto <= |b| && b[from..upto] == EncodeRecords(rs[k..m], |cs|)
    ensures peek < |b| <==> |rs| - m > 1
  {
    BetweenRecords(b, cs, count, rs, k, m);
    BehindPeek(b, cs, count, rs, if m < |rs| then m + 1 else m);
  }

  // ---------------------------------------------------------------- the class

  class FakeRecordSet {
    const dataBuffer: EasyBuffer

    ghost predicate Valid()
      reads this, dataBuffer
    {
      dataBuffer.Valid() && dataBuffer.bufferSize < INT_LIMIT
    }

    ghost function Blob(): seq<byte>
      requires Valid()
      reads this, dataBuffer, dataBuffer.buffer
    {
      dataBuffer.Contents()
    }

    constructor ()
      ensures Valid() && fresh(dataBuffer) && dataBuffer.buffer == null && Blob() == []
    {
      dataBuffer := new EasyBuffer();
    }

    /** Takes a copy of the data, whatever was held before. */
    method Init(data: seq<byte>) returns (code: int)
      requires |data| < INT_LIMIT
      modifies dataBuffer
      ensures Valid() && dataBuffer.buffer != null && fresh(dataBuffer.buffer)
      ensures code == DBERR_SUCCEED && Blob() == data
    {
      dataBuffer.Destory();
      dataBuffer.Create(|data|);
      var _ := dataBuffer.PushBack(Some(data), |data|);
      code := DBERR_SUCCEED;
    }

    /** One turn of the inner loop: a length, and the bytes it announces. */
    method MeasureField(peek: nat, ghost r: Record, ghost j: nat, ghost after: seq<byte>) returns (valueSize: nat,
                        next: nat)
      requires Valid() && peek <= |Blob()| && ValidFields(r) && j < |r|
      requires Blob()[peek..] == EncodeFields(r[j..]) + after
      ensures next == peek + INT_SIZE + valueSize <= |Blob()|
      ensures |EncodeFields(r[j..])| == INT_SIZE + valueSize + |EncodeFields(r[j + 1..])|
      ensures Blob()[next..] == EncodeFields(r[j + 1..]) + after
    {
      NextField(Blob(), peek, r, j, after);
      IntRoundTrip(FieldInt(r[j]));
      assert r[j..][1..] == r[j + 1..];
      var n, at := dataBuffer.PeekInt(peek);
      if n < 0 {
        n := 0;
      }
      valueSize, next := n, at + n;
    }

    /** The inner loop: adds up the fields of the record at `peek`. */
    method MeasureRecord(peek: nat, colNum: nat, ghost r: Record, ghost after: seq<byte>)
        returns (recordLen: Int32, next: nat)
      requires Valid() && peek <= |Blob()|
      requires |r| == colNum && ValidFields(r) && Blob()[peek..] == EncodeFields(r) + after
      ensures recordLen == RecordSize(r) && next == peek + RecordSize(r) <= |Blob()|
      ensures Blob()[next..] == after
    {
      ghost var bytes := Blob();
      recordLen := 0;
      next := peek;
      var j := 0;
      assert r[0..] == r;
      while j < colNum
        invariant 0 <= j <= colNum
        invariant next == peek + recordLen <= |bytes| && recordLen + |EncodeFields(r[j..])| == RecordSize(r)
        invariant bytes[next..] == EncodeFields(r[j..]) + after
      {
        var valueSize, at := MeasureField(next, r, j, after);
        recordLen := recordLen + INT_SIZE + valueSize;
        next := at;
        j := j + 1;
      }
      assert r[j..] == [];
      assert EncodeFields([]) == [] && bytes[next..] == [] + after;
    }

    /** Measures record `i`. */
    method MeasureNext(peek: nat, colNum: nat, ghost cs: seq<ColumnInfo>, ghost count: Int32, ghost rs: seq<Record>,
                       ghost i: nat) returns (recordLen: Int32, next: nat)
      requires Valid() && 0 < colNum == |cs| < INT_LIMIT && ValidRecords(rs, |cs|) && i <= |rs|
      requires Blob() == Header(cs, count) + EncodeRecords(rs, |cs|)
      requires peek == OffsetOf(cs, rs, i) < |Blob()|
      ensures i < |rs| && recordLen >= 0
      ensures next == peek + recordLen == OffsetOf(cs, rs, i + 1) <= |Blob()|
    {
      NextOf(Blob(), cs, count, rs, i, 0, 0);
      recordLen, next := MeasureRecord(peek, colNum, rs[i], EncodeRecords(rs[i + 1..], |cs|));
    }

    /** *p = n, for an int pointer into the output. */
    method StoreInt(a: array<byte>, at: nat, n: Int32)
      requires at + INT_SIZE <= a.Length
      modifies a
      ensures a[at..at + INT_SIZE] == EncodeInt(n)
      ensures forall i :: 0 <= i < a.Length && !(at <= i < at + INT_SIZE) ==> a[i] == old(a[i])
    {
      CopyBytes(a, at, EncodeInt(n));
    }

    /** (*p)++ */
    method IncrementInt(a: array<byte>, at: nat, ghost m: nat)
      requires at + INT_SIZE <= a.Length && m + 1 < INT_LIMIT && a[at..at + INT_SIZE] == EncodeInt(m)
      modifies a
      ensures a[at..at + INT_SIZE] == EncodeInt(m + 1)
      ensures forall i :: 0 <= i < a.Length && !(at <= i < at + INT_SIZE) ==> a[i] == old(a[i])
    {
      IntRoundTrip(m);
      StoreInt(a, at, DecodeInt(a[at..at + INT_SIZE]) + 1);
    }

    /** The same, and the output says so. */
    ghost predicate Counted(pBuffer: array<byte>, countAt: nat, recordPtr: nat, room: nat,
                            cs: seq<ColumnInfo>, count: Int32, rs: seq<Record>, k: nat, m: nat)
      reads this, dataBuffer, dataBuffer.buffer, pBuffer
    {
      && Valid() && dataBuffer.buffer != pBuffer && CountedTo(Blob(), cs, count, rs, k, m, room, recordPtr)
      && countAt + INT_SIZE <= pBuffer.Length && pBuffer[countAt..countAt + INT_SIZE] == EncodeInt(m)
    }

    /** Nothing but the count changes in the output. */
    twostate predicate OnlyCountChanged(pBuffer: array<byte>, countAt: nat)
      reads pBuffer
    {
      forall i :: 0 <= i < pBuffer.Length && !(countAt <= i < countAt + INT_SIZE) ==> pBuffer[i] == old(pBuffer[i])
    }

    /** One turn of the outer loop: record `k + m` is counted if it fits.  `peek` runs ahead of
        `recordPtr` if it does not. */
    method CountOne(pBuffer: array<byte>, countAt: nat, pos: nat, recordPtr: nat, room: nat, colNum: nat,
                    ghost cs: seq<ColumnInfo>, ghost count: Int32, ghost rs: seq<Record>, ghost k: nat, ghost m: nat)
        returns (fits: bool, recordEnd: nat, peek: nat)
      requires Counted(pBuffer, countAt, recordPtr, room, cs, count, rs, k, m)
      requires colNum == |cs| && pos == OffsetOf(cs, rs, k) && recordPtr < |Blob()|
      modifies pBuffer
      ensures k + m < |rs| && peek == OffsetOf(cs, rs, k + m + 1)
      ensures fits ==> recordEnd == peek && Counted(pBuffer, countAt, recordEnd, room, cs, count, rs, k, m + 1)
      ensures !fits ==> recordEnd == recordPtr && Counted(pBuffer, countAt, recordEnd, room, cs, count, rs, k, m)
                        && Fit(rs[k..], |cs|, room) == m
      ensures OnlyCountChanged(pBuffer, countAt)
    {
      CountedNext(Blob(), cs, count, rs, k, m, room, recordPtr);
      var recordLen, next := MeasureNext(recordPtr, colNum, cs, count, rs, k + m);
      peek := next;
      fits := recordPtr + recordLen - pos <= room;
      if fits {
        recordEnd := recordPtr + recordLen;
        IncrementInt(pBuffer, countAt, m);
      } else {
        recordEnd := recordPtr;
      }
    }

    /** The outer loop: counts the records that fit, in the output's header, and finds where
        they end. */
    method CountRecords(pBuffer: array<byte>, countAt: nat, pos: nat, room: nat, colNum: nat,
                        ghost cs: seq<ColumnInfo>, ghost count: Int32, ghost rs: seq<Record>, ghost k: nat,
                        ghost n: nat)
        returns (recordPtr: nat, peek: nat)
      requires Counted(pBuffer, countAt, pos, room, cs, count, rs, k, 0)
      requires colNum == |cs| && pos == OffsetOf(cs, rs, k) && n == Fit(rs[k..], |cs|, room)
      modifies pBuffer
      ensures Counted(pBuffer, countAt, recordPtr, room, cs, count, rs, k, n)
      ensures peek == OffsetOf(cs, rs, if k + n < |rs| then k + n + 1 else k + n)
      ensures OnlyCountChanged(pBuffer, countAt)
    {
      ghost var bytes, m := Blob(), 0;
      recordPtr, peek := pos, pos;
      while peek < dataBuffer.usedSize
        invariant Counted(pBuffer, countAt, recordPtr, room, cs, count, rs, k, m)
        invariant peek == recordPtr && Blob() == bytes
        invariant OnlyCountChanged(pBuffer, countAt)
        decreases |rs| - m
      {
        var fits, recordEnd, next := CountOne(pBuffer, countAt, pos, recordPtr, room, colNum, cs, count, rs, k, m);
        recordPtr, peek := recordEnd, next;
        if !fits {
          return;
        }
        m := m + 1;
      }
      CountedLast(bytes, cs, count, rs, k, m, room, recordPtr);
    }

    /** Copies the header to the output and sets its count to 0. */
    method StartPage(output: EasyBuffer, headerSize: nat, ghost cs: seq<ColumnInfo>, ghost count: Int32,
                     ghost rest: seq<byte>)
      requires Valid() && dataBuffer.buffer != null
      requires output.Valid() && output.buffer != null && output.usedSize == 0
      requires output != dataBuffer && output.buffer != dataBuffer.buffer
      requires |cs| < INT_LIMIT && headerSize == HeaderSize(|cs|) <= output.bufferSize
      requires Blob() == Header(cs, count) + rest
      modifies output`usedSize, output.buffer
      ensures output.Valid() && output.Contents() == Header(cs, 0)
      ensures unchanged(dataBuffer) && Blob() == old(Blob())
    {
      var header := dataBuffer.buffer[..headerSize];
      assert header == Blob()[..headerSize] == Header(cs, count);
      var _ := output.PushBack(Some(header), headerSize);
      assert output.Contents() == header;
      ClearCount(output, headerSize, cs, count);
    }

    /** *pRecordNum = 0 */
    method ClearCount(output: EasyBuffer, headerSize: nat, ghost cs: seq<ColumnInfo>, ghost count: Int32)
      requires output.Valid() && output.buffer != null
      requires |cs| < INT_LIMIT && headerSize == HeaderSize(|cs|) && output.Contents() == Header(cs, count)
      modifies output.buffer
      ensures output.Valid() && output.Contents() == Header(cs, 0)
    {
      ghost var written := output.buffer[..headerSize];
      StoreInt(output.buffer, headerSize - INT_SIZE, 0);
      ghost var patched := output.buffer[..headerSize];
      forall i | 0 <= i < headerSize - INT_SIZE
        ensures patched[i] == written[i]
      {
        assert patched[i] == output.buffer[i];
      }
      assert patched[headerSize - INT_SIZE..] == EncodeInt(0);
      HeaderPatched(patched, cs, count, 0);
    }

    /** Appends the records to the header, whose count has been brought up to date. */
    method FinishPage(output: EasyBuffer, pos: nat, recordPtr: nat, ghost cs: seq<ColumnInfo>, ghost n: Int32,
                      ghost records: seq<byte>)
      requires Valid() && dataBuffer.buffer != null && output.Valid() && output.buffer != null
      requires output != dataBuffer && output.buffer != dataBuffer.buffer
      requires |cs| < INT_LIMIT && output.Contents() == Header(cs, n)
      requires pos <= recordPtr <= |Blob()| && Blob()[pos..recordPtr] == records
      requires recordPtr - pos <= output.FreeSize()
      modifies output`usedSize, output.buffer
      ensures output.Valid() && output.Contents() == Header(cs, n) + records
      ensures Blob() == old(Blob())
    {
      var data := dataBuffer.buffer[pos..recordPtr];
      assert data == Blob()[pos..recordPtr];
      var _ := output.PushBack(Some(data), recordPtr - pos);
    }

    /** Pages through the data.  `cs` and `rs` name what the blob says, and `k` is the record
        `pos` stands at. */
    method GetRecordSetDataEx(pos: nat, pBuffer: array<byte>, bufferSize: nat,
                              ghost cs: seq<ColumnInfo>, ghost rs: seq<Record>, ghost k: nat)
        returns (newPos: nat, newSize: nat, code: GetDataCode)
      requires Valid() && dataBuffer.buffer != pBuffer
      requires bufferSize <= pBuffer.Length && bufferSize < INT_LIMIT
      requires Pageable(Blob(), cs, rs, bufferSize)
      requires CountFound(Blob()) > 0 ==> AtRecord(pos, cs, rs, k)
      modifies pBuffer
      ensures Valid() && Blob() == old(Blob())
      ensures CountFound(Blob()) <= 0 ==>
        newPos == pos && newSize == 0 && code == NO_MORE_DATA && pBuffer[..] == old(pBuffer[..])
      ensures CountFound(Blob()) > 0 && k == |rs| ==>
        newPos == OffsetOf(cs, rs, k) && newSize == 0 && code == BUFFER_FULL
      ensures CountFound(Blob()) > 0 && k < |rs| ==>
        var m := PageEnd(rs, |cs|, bufferSize - HeaderSize(|cs|), k);
        && newPos == OffsetOf(cs, rs, m)
        && newSize <= bufferSize && m - k < INT_LIMIT && ValidRecords(rs[k..m], |cs|)
        && pBuffer[..newSize] == Header(cs, m - k) + EncodeRecords(rs[k..m], |cs|)
        && (code == NO_MORE_DATA <==> |rs| - m <= 1)
    {
      newPos, newSize, code := pos, 0, NO_MORE_DATA;
      var colNum, peek := dataBuffer.PeekInt(0);
      if colNum <= 0 {
        return;
      }
      var recordNum, headerSize := dataBuffer.PeekInt(peek + COLUMN_INFO_SIZE * colNum);
      if recordNum <= 0 {
        return;
      }
      HeaderParts(Blob(), cs, recordNum, EncodeRecords(rs, |cs|));
      CountIsFound(Blob(), cs, recordNum, EncodeRecords(rs, |cs|));
      newPos, newSize, code := GetPage(pos, pBuffer, bufferSize, colNum, headerSize, cs, recordNum, rs, k);
    }

    /** The rest of GetRecordSetDataEx, for a blob with columns and a positive count. */
    method GetPage(pos: nat, pBuffer: array<byte>, bufferSize: nat, colNum: nat, headerSize: nat,
                   ghost cs: seq<ColumnInfo>, ghost count: Int32, ghost rs: seq<Record>, ghost k: nat)
        returns (newPos: nat, newSize: nat, code: GetDataCode)
      requires Valid() && dataBuffer.buffer != null && dataBuffer.buffer != pBuffer
      requires bufferSize <= pBuffer.Length && bufferSize < INT_LIMIT
      requires 0 < colNum == |cs| < INT_LIMIT && headerSize == HeaderSize(|cs|) <= bufferSize
      requires AtRecord(pos, cs, rs, k) && Blob() == Header(cs, count) + EncodeRecords(rs, |cs|)
      modifies pBuffer
      ensures Valid() && Blob() == old(Blob())
      ensures k == |rs| ==> newPos == OffsetOf(cs, rs, k) && newSize == 0 && code == BUFFER_FULL
      ensures k < |rs| ==>
        var m := PageEnd(rs, |cs|, bufferSize - HeaderSize(|cs|), k);
        && newPos == OffsetOf(cs, rs, m)
        && newSize <= bufferSize && m - k < INT_LIMIT && ValidRecords(rs[k..m], |cs|)
        && pBuffer[..newSize] == Header(cs, m - k) + EncodeRecords(rs[k..m], |cs|)
        && (code == NO_MORE_DATA <==> |rs| - m <= 1)
    {
      ghost var bytes := Blob();
      var output := new EasyBuffer.Over(pBuffer, bufferSize);
      StartPage(output, headerSize, cs, count, EncodeRecords(rs, |cs|));
      var start := if pos != 0 then pos else headerSize;
      newPos := start;
      assert rs[..0] == [];
      BehindPeek(bytes, cs, count, rs, k);
      if start >= dataBuffer.usedSize {
        return newPos, 0, BUFFER_FULL;
      }
      ghost var m := PageEnd(rs, |cs|, bufferSize - headerSize, k);
      newPos, newSize, code := FillPage(start, output, headerSize, colNum, cs, count, rs, k, m);
      assert pBuffer[..newSize] == output.Contents();
    }

    /** From the header on: counts the records that fit, those before record `m`, and appends
        them. */
    method FillPage(start: nat, output: EasyBuffer, headerSize: nat, colNum: nat,
                    ghost cs: seq<ColumnInfo>, ghost count: Int32, ghost rs: seq<Record>, ghost k: nat, ghost m: nat)
        returns (newPos: nat, newSize: nat, code: GetDataCode)
      requires Valid() && dataBuffer.buffer != null && output.Valid() && output.buffer != null
      requires output != dataBuffer && output.buffer != dataBuffer.buffer
      requires 0 < colNum == |cs| < INT_LIMIT && headerSize == HeaderSize(|cs|)
      requires output.Contents() == Header(cs, 0) && ValidRecords(rs, |cs|)
      requires Blob() == Header(cs, count) + EncodeRecords(rs, |cs|)
      requires k < |rs| && start == OffsetOf(cs, rs, k)
      requires m == PageEnd(rs, |cs|, output.bufferSize - headerSize, k)
      modifies output`usedSize, output.buffer
      ensures Valid() && Blob() == old(Blob())
      ensures newPos == OffsetOf(cs, rs, m)
      ensures m - k < INT_LIMIT && ValidRecords(rs[k..m], |cs|)
      ensures output.Valid() && newSize == output.usedSize
      ensures output.Contents() == Header(cs, m - k) + EncodeRecords(rs[k..m], |cs|)
      ensures code == NO_MORE_DATA <==> |rs| - m <= 1
    {
      var room := output.FreeSize();
      assert |output.Contents()| == headerSize;
      CountedFirst(Blob(), cs, count, rs, k, room, start);
      CountIsLast(output.Contents(), cs, 0);
      var recordPtr, peek := CountPage(output, headerSize, start, room, colNum, cs, count, rs, k, m - k);
      PageHolds(Blob(), cs, count, rs, k, m - k, m, room, start, recordPtr, peek);
      code := if peek < dataBuffer.usedSize then BUFFER_FULL else NO_MORE_DATA;
      newPos := recordPtr;
      FinishPage(output, start, recordPtr, cs, m - k, EncodeRecords(rs[k..m], |cs|));
      newSize := output.usedSize;
    }

    /** CountRecords, seen from the header it updates. */
    method CountPage(output: EasyBuffer, headerSize: nat, start: nat, room: nat, colNum: nat,
                     ghost cs: seq<ColumnInfo>, ghost count: Int32, ghost rs: seq<Record>, ghost k: nat, ghost n: nat)
        returns (recordPtr: nat, peek: nat)
      requires output.Valid() && output.buffer != null && |cs| < INT_LIMIT && headerSize == HeaderSize(|cs|)
      requires output.Contents() == Header(cs, 0)
      requires Counted(output.buffer, headerSize - INT_SIZE, start, room, cs, count, rs, k, 0)
      requires colNum == |cs| && start == OffsetOf(cs, rs, k) && n == Fit(rs[k..], |cs|, room)
      modifies output.buffer
      ensures Counted(output.buffer, headerSize - INT_SIZE, recordPtr, room, cs, count, rs, k, n)
      ensures Blob() == old(Blob())
      ensures output.Contents() == Header(cs, n)
      ensures peek == OffsetOf(cs, rs, if k + n < |rs| then k + n + 1 else k + n)
    {
      ghost var before := output.buffer[..headerSize];
      CountIsLast(before, cs, 0);
      recordPtr, peek := CountRecords(output.buffer, headerSize - INT_SIZE, start, room, colNum, cs, count, rs, k, n);
      ghost var header := output.buffer[..headerSize];
      forall i | 0 <= i < headerSize - INT_SIZE
        ensures header[i] == before[i]
      {
        assert header[i] == output.buffer[i];
      }
      assert header[headerSize - INT_SIZE..] == EncodeInt(n);
      HeaderPatched(header, cs, 0, n);
    }
  }
}
