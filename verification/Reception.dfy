/** Both ends together: a record set paged out by CDBFakeRecordSet and taken in, page by page,
    by CDBStaticRecordSet. */
module Reception {
  import opened Basics
  import opened Memory
  import opened RecordCodec
  import opened DBValues
  import opened Decoding
  import opened StaticRecordSets
  import opened Paging
  import opened FakeRecordSets
  import opened PagedTransfer

  /** The source holds the table, and the caller's buffer has room for any single record. */
  ghost predicate Ready(source: FakeRecordSet, pBuffer: array<byte>, bufferSize: nat,
                        cs: seq<ColumnInfo>, rs: seq<Record>)
    reads source, source.dataBuffer, source.dataBuffer.buffer
  {
    && source.Valid() && source.dataBuffer.buffer != pBuffer
    && bufferSize <= pBuffer.Length && bufferSize < INT_LIMIT
    && 0 < |cs| < INT_LIMIT && 0 < |rs| < INT_LIMIT && HeaderSize(|cs|) <= bufferSize
    && RoomForAny(rs, |cs|, bufferSize - HeaderSize(|cs|))
    && source.Blob() == Encode(Table(cs, rs))
  }

  /** The next page, as it lies in the caller's buffer. */
  method FetchPage(source: FakeRecordSet, pos: nat, pBuffer: array<byte>, bufferSize: nat,
                   ghost cs: seq<ColumnInfo>, ghost rs: seq<Record>, ghost k: nat, ghost m: nat)
      returns (size: nat, newPos: nat)
    requires Ready(source, pBuffer, bufferSize, cs, rs)
    requires AtRecord(pos, cs, rs, k) && k < |rs| && m == PageEnd(rs, |cs|, bufferSize - HeaderSize(|cs|), k)
    modifies pBuffer
    ensures Ready(source, pBuffer, bufferSize, cs, rs) && AtRecord(newPos, cs, rs, m)
    ensures size <= bufferSize && IsPage(pBuffer[..size], cs, rs[k..m])
  {
    var page, at, _ := FetchOne(source, pos, pBuffer, bufferSize, cs, rs, k, m);
    size, newPos := |page|, at;
  }

  /** Init on a page that is not empty gives the rows of its records. */
  method DecodePage(target: StaticRecordSet, pBuffer: array<byte>, size: nat,
                    ghost cs: seq<ColumnInfo>, ghost rs: seq<Record>, ghost all: seq<seq<DBValue>>,
                    ghost k: nat, ghost m: nat)
    requires size <= pBuffer.Length && size < INT_LIMIT && 0 < |cs| && k < m <= |rs|
    requires ReadableRecords(cs, rs) && all == TableValues(cs, rs)
    requires ReadableRecords(cs, rs[k..m]) && IsPage(pBuffer[..size], cs, rs[k..m])
    modifies target
    ensures target.columnInfos == cs && target.records == all[k..m]
  {
    SliceDecodesToSlice(cs, rs, k, m);
    PageIsDecodable(pBuffer[..size], cs, rs[k..m]);
    var _, _ := target.Init(pBuffer, size);
  }

  /** GetRecordSetDataEx at one end, Init on its output at the other: if the page can be read,
      the receiver has the same columns and exactly the rows of the records between the old
      position and the new. */
  method FetchRows(source: FakeRecordSet, target: StaticRecordSet, pos: nat, pBuffer: array<byte>, bufferSize: nat,
                   ghost cs: seq<ColumnInfo>, ghost rs: seq<Record>, ghost all: seq<seq<DBValue>>,
                   ghost k: nat, ghost m: nat) returns (newPos: nat)
    requires Ready(source, pBuffer, bufferSize, cs, rs)
    requires AtRecord(pos, cs, rs, k) && k < |rs|
    requires k < m == PageEnd(rs, |cs|, bufferSize - HeaderSize(|cs|), k)
    requires ReadableRecords(cs, rs) && all == TableValues(cs, rs) && ReadableRecords(cs, rs[k..m])
    modifies pBuffer, target
    ensures Ready(source, pBuffer, bufferSize, cs, rs) && AtRecord(newPos, cs, rs, m)
    ensures target.columnInfos == cs && target.records == all[k..m]
  {
    var size, at := FetchPage(source, pos, pBuffer, bufferSize, cs, rs, k, m);
    newPos := at;
    DecodePage(target, pBuffer, size, cs, rs, all, k, m);
  }

  /** Every page that is to come can be read. */
  ghost predicate ToCome(cs: seq<ColumnInfo>, todo: seq<Record>, room: nat) {
    RoomForAny(todo, |cs|, room) && PagesReadable(cs, todo, room)
  }

  lemma {:induction false} NextToCome(cs: seq<ColumnInfo>, rs: seq<Record>, room: nat, k: nat, m: nat)
    requires k < |rs| && ToCome(cs, rs[k..], room) && ValidRecords(rs, |cs|) && m == PageEnd(rs, |cs|, room, k)
    ensures k < m && ReadableRecords(cs, rs[k..m]) && ToCome(cs, rs[m..], room)
  {
    PageFrom(rs, |cs|, room, k, m);
    SplitReadable(cs, rs[k..m], Pages(rs[m..], |cs|, room));
  }

  lemma {:induction false} Splice<T>(s: seq<T>, k: nat, m: nat)
    requires k <= m <= |s|
    ensures s[..k] + s[k..m] == s[..m]
  {
  }

  /** A receiver that goes on until the position reaches the end of the data, and keeps the
      rows of every page, ends up with the rows of the whole record set, as long as every page
      can be read. */
  method ReceiveAll(source: FakeRecordSet, pBuffer: array<byte>, bufferSize: nat,
                    ghost cs: seq<ColumnInfo>, ghost rs: seq<Record>) returns (rows: seq<seq<DBValue>>)
    requires Ready(source, pBuffer, bufferSize, cs, rs)
    requires PagesReadable(cs, rs, bufferSize - HeaderSize(|cs|))
    modifies pBuffer
    ensures ReadableRecords(cs, rs) && rows == TableValues(cs, rs)
  {
    PagesDecodeToWhole(cs, rs, bufferSize - HeaderSize(|cs|));
    rows := ReceiveRows(source, pBuffer, bufferSize, cs, rs, TableValues(cs, rs));
  }

  /** One turn of the receiver's loop. */
  method ReceiveNext(source: FakeRecordSet, target: StaticRecordSet, pos: nat, pBuffer: array<byte>, bufferSize: nat,
                     ghost cs: seq<ColumnInfo>, ghost rs: seq<Record>, ghost all: seq<seq<DBValue>>,
                     ghost k: nat, ghost m: nat) returns (newPos: nat)
    requires Ready(source, pBuffer, bufferSize, cs, rs)
    requires AtRecord(pos, cs, rs, k) && k < |rs| && m == PageEnd(rs, |cs|, bufferSize - HeaderSize(|cs|), k)
    requires ReadableRecords(cs, rs) && all == TableValues(cs, rs)
    requires ToCome(cs, rs[k..], bufferSize - HeaderSize(|cs|))
    modifies pBuffer, target
    ensures Ready(source, pBuffer, bufferSize, cs, rs) && AtRecord(newPos, cs, rs, m)
    ensures k < m && ToCome(cs, rs[m..], bufferSize - HeaderSize(|cs|))
    ensures all[..k] + target.records == all[..m]
  {
    NextToCome(cs, rs, bufferSize - HeaderSize(|cs|), k, m);
    newPos := FetchRows(source, target, pos, pBuffer, bufferSize, cs, rs, all, k, m);
    Splice(all, k, m);
  }

  /** The loop of ReceiveAll. */
  method ReceiveRows(source: FakeRecordSet, pBuffer: array<byte>, bufferSize: nat,
                     ghost cs: seq<ColumnInfo>, ghost rs: seq<Record>, ghost all: seq<seq<DBValue>>)
      returns (rows: seq<seq<DBValue>>)
    requires Ready(source, pBuffer, bufferSize, cs, rs)
    requires PagesReadable(cs, rs, bufferSize - HeaderSize(|cs|))
    requires ReadableRecords(cs, rs) && all == TableValues(cs, rs)
    modifies pBuffer
    ensures rows == all
  {
    ghost var k := 0;
    var target := new StaticRecordSet();
    rows := [];
    var pos: nat := 0;
    assert rs[0..] == rs && all[..0] == [];
    while pos < source.dataBuffer.usedSize
      invariant Ready(source, pBuffer, bufferSize, cs, rs)
      invariant AtRecord(pos, cs, rs, k)
      invariant k <= |rs| && ToCome(cs, rs[k..], bufferSize - HeaderSize(|cs|)) && rows == all[..k]
      decreases |rs| - k
    {
      NotAtEnd(source.Blob(), cs, |rs|, rs, k, pos);
      ghost var m := PageEnd(rs, |cs|, bufferSize - HeaderSize(|cs|), k);
      pos := ReceiveNext(source, target, pos, pBuffer, bufferSize, cs, rs, all, k, m);
      rows, k := rows + target.records, m;
    }
    AtEnd(source.Blob(), cs, |rs|, rs, k, pos);
    assert all[..|rs|] == all;
  }
}
