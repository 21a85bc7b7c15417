/** A record set sent in pages: what the pages hold, and that decoding them one by one is
    decoding the whole. */
module PagedTransfer {
  import opened Basics
  import opened Memory
  import opened RecordCodec
  import opened DBValues
  import opened BlobReading
  import opened Decoding
  import opened Paging
  import opened FakeRecordSets

  /** One call, from a position with records after it. */
  method FetchOne(source: FakeRecordSet, pos: nat, pBuffer: array<byte>, bufferSize: nat,
                  ghost cs: seq<ColumnInfo>, ghost rs: seq<Record>, ghost k: nat, ghost m: nat)
      returns (page: seq<byte>, newPos: nat, code: GetDataCode)
    requires source.Valid() && source.dataBuffer.buffer != pBuffer
    requires bufferSize <= pBuffer.Length && bufferSize < INT_LIMIT
    requires 0 < |cs| < INT_LIMIT && 0 < |rs| < INT_LIMIT && HeaderSize(|cs|) <= bufferSize
    requires AtRecord(pos, cs, rs, k) && k < |rs| && m == PageEnd(rs, |cs|, bufferSize - HeaderSize(|cs|), k)
    requires source.Blob() == Encode(Table(cs, rs))
    modifies pBuffer
    ensures source.Valid() && source.Blob() == old(source.Blob())
    ensures AtRecord(newPos, cs, rs, m) && IsPage(page, cs, rs[k..m])
    ensures |page| <= bufferSize && page == pBuffer[..|page|]
    ensures code == NO_MORE_DATA <==> |rs| - m <= 1
  {
    HeaderFits(source.Blob(), cs, |rs|, EncodeRecords(rs, |cs|));
    var at, newSize, answer := source.GetRecordSetDataEx(pos, pBuffer, bufferSize, cs, rs, k);
    page, newPos, code := pBuffer[..newSize], at, answer;
  }

  lemma {:induction false} FirstPage(rs: seq<Record>, cols: nat, room: nat)
    requires RoomForAny(rs, cols, room) && rs != []
    ensures 0 < Fit(rs, cols, room) && RoomForAny(rs[Fit(rs, cols, room)..], cols, room)
    ensures Pages(rs, cols, room) == [rs[..Fit(rs, cols, room)]] + Pages(rs[Fit(rs, cols, room)..], cols, room)
  {
    RoomForRest(rs, cols, room);
  }

  /** The blobs of all the pages, as a caller gets them who starts at position 0 and goes on
      until the position reaches the end of the data. */
  method FetchAll(source: FakeRecordSet, pBuffer: array<byte>, bufferSize: nat,
                  ghost cs: seq<ColumnInfo>, ghost rs: seq<Record>) returns (pages: seq<seq<byte>>)
    requires source.Valid() && source.dataBuffer.buffer != pBuffer
    requires bufferSize <= pBuffer.Length && bufferSize < INT_LIMIT
    requires 0 < |cs| < INT_LIMIT && 0 < |rs| < INT_LIMIT && HeaderSize(|cs|) <= bufferSize
    requires RoomForAny(rs, |cs|, bufferSize - HeaderSize(|cs|))
    requires source.Blob() == Encode(Table(cs, rs))
    modifies pBuffer
    ensures |pages| <= |rs|
    ensures ArePages(pages, cs, Pages(rs, |cs|, bufferSize - HeaderSize(|cs|)))
  {
    ghost var room := bufferSize - HeaderSize(|cs|);
    ghost var all, blob, k, got := Pages(rs, |cs|, room), source.Blob(), 0, [];
    PagesPartition(rs, |cs|, room);
    pages := [];
    var pos: nat := 0;
    assert rs[0..] == rs && [] + all == all;
    while pos < source.dataBuffer.usedSize
      invariant source.Valid() && source.Blob() == blob
      invariant AtRecord(pos, cs, rs, k)
      invariant InTransfer(cs, room, rs, k, all, pages, got)
      decreases |rs| - k
    {
      NotAtEnd(blob, cs, |rs|, rs, k, pos);
      ghost var m := PageEnd(rs, |cs|, room, k);
      var page, newPos, _ := FetchOne(source, pos, pBuffer, bufferSize, cs, rs, k, m);
      TransferAdvances(cs, room, rs, k, m, all, pages, got, page);
      pages, got := pages + [page], got + [rs[k..m]];
      pos, k := newPos, m;
    }
    AtEnd(blob, cs, |rs|, rs, k, pos);
    AllReceived(cs, room, rs, all, pages, got);
  }

  /** The pages received are the first of `all` the pages; those from record `k` on are to come. */
  ghost predicate InTransfer(cs: seq<ColumnInfo>, room: nat, rs: seq<Record>, k: nat, all: seq<seq<Record>>,
                             pages: seq<seq<byte>>, got: seq<seq<Record>>) {
    && k <= |rs| && RoomForAny(rs[k..], |cs|, room)
    && got + Pages(rs[k..], |cs|, room) == all && ArePages(pages, cs, got)
  }

  lemma {:induction false} TransferAdvances(cs: seq<ColumnInfo>, room: nat, rs: seq<Record>, k: nat, m: nat,
                                            all: seq<seq<Record>>, pages: seq<seq<byte>>, got: seq<seq<Record>>,
                                            page: seq<byte>)
    requires ValidRecords(rs, |cs|) && InTransfer(cs, room, rs, k, all, pages, got)
    requires k < |rs| && m == PageEnd(rs, |cs|, room, k) && IsPage(page, cs, rs[k..m])
    ensures k < m && InTransfer(cs, room, rs, m, all, pages + [page], got + [rs[k..m]])
  {
    PageFrom(rs, |cs|, room, k, m);
    Shift(got, rs[k..m], Pages(rs[m..], |cs|, room));
    OnePageMore(pages, cs, got, page, rs[k..m]);
  }

  /** The page from record `k` on and those behind it. */
  lemma {:induction false} PageFrom(rs: seq<Record>, cols: nat, room: nat, k: nat, m: nat)
    requires k < |rs| && ValidRecords(rs, cols) && RoomForAny(rs[k..], cols, room) && m == PageEnd(rs, cols, room, k)
    ensures k < m && RoomForAny(rs[m..], cols, room)
    ensures Pages(rs[k..], cols, room) == [rs[k..m]] + Pages(rs[m..], cols, room)
  {
    var todo, n := rs[k..], m - k;
    FirstPage(todo, cols, room);
    assert todo[..n] == rs[k..m] && todo[n..] == rs[m..];
  }

  lemma {:induction false} AllReceived(cs: seq<ColumnInfo>, room: nat, rs: seq<Record>, all: seq<seq<Record>>,
                                       pages: seq<seq<byte>>, got: seq<seq<Record>>)
    requires InTransfer(cs, room, rs, |rs|, all, pages, got)
    ensures ArePages(pages, cs, all)
  {
    assert rs[|rs|..] == [] && got + [] == got;
  }

  lemma {:induction false} OnePageMore(pages: seq<seq<byte>>, cs: seq<ColumnInfo>, tables: seq<seq<Record>>,
                                       page: seq<byte>, table: seq<Record>)
    requires ArePages(pages, cs, tables) && IsPage(page, cs, table)
    ensures ArePages(pages + [page], cs, tables + [table])
  {
    forall i | 0 <= i <= |pages|
      ensures IsPage((pages + [page])[i], cs, (tables + [table])[i])
    {
      if i < |pages| {
        assert IsPage(pages[i], cs, tables[i]);
      }
    }
  }

  lemma {:induction false} Shift<T>(a: seq<T>, x: T, b: seq<T>)
    ensures a + ([x] + b) == a + [x] + b
  {
  }

  ghost predicate ArePages(pages: seq<seq<byte>>, cs: seq<ColumnInfo>, tables: seq<seq<Record>>) {
    |pages| == |tables| && forall i :: 0 <= i < |pages| ==> IsPage(pages[i], cs, tables[i])
  }

  /** A page is the encoding of a table with the same columns. */
  ghost predicate IsPage(page: seq<byte>, cs: seq<ColumnInfo>, rs: seq<Record>) {
    ValidTable(Table(cs, rs)) && page == Encode(Table(cs, rs))
  }

  lemma {:induction false} HeaderFits(b: seq<byte>, cs: seq<ColumnInfo>, count: Int32, body: seq<byte>)
    requires 0 < |cs| < INT_LIMIT && b == Header(cs, count) + body && |b| < INT_LIMIT
    ensures ColumnCount(b) == |cs| && CountFound(b) == count && ColumnCount(b) * COLUMN_INFO_SIZE < INT_LIMIT
  {
    CountIsFound(b, cs, count, body);
  }

  lemma {:induction false} NotAtEnd(bytes: seq<byte>, cs: seq<ColumnInfo>, count: Int32, rs: seq<Record>, k: nat,
                                    pos: nat)
    requires 0 < |cs| < INT_LIMIT && AtRecord(pos, cs, rs, k)
    requires bytes == Header(cs, count) + EncodeRecords(rs, |cs|)
    requires pos < |bytes| && rs != []
    ensures k < |rs|
  {
    BehindPeek(bytes, cs, count, rs, k);
  }

  lemma {:induction false} AtEnd(bytes: seq<byte>, cs: seq<ColumnInfo>, count: Int32, rs: seq<Record>, k: nat, pos: nat)
    requires 0 < |cs| < INT_LIMIT && AtRecord(pos, cs, rs, k)
    requires bytes == Header(cs, count) + EncodeRecords(rs, |cs|)
    requires pos >= |bytes|
    ensures k == |rs|
  {
    BehindPeek(bytes, cs, count, rs, k);
  }

  // ---------------------------------------------------------------- decoding a page

  /** A page that is not empty is a record set of its own.  Init reads nothing outside it
      exactly when its records can be read there, and then finds the columns of the whole and
      the values of its records, and consumes every byte. */
  lemma {:induction false} PageIsDecodable(page: seq<byte>, cs: seq<ColumnInfo>, rs: seq<Record>)
    requires 0 < |cs| && rs != [] && IsPage(page, cs, rs) && |page| < INT_LIMIT
    ensures Safe(page) <==> ReadableRecords(cs, rs)
    ensures Safe(page) ==>
      && Code(page) == DBERR_SUCCEED && Columns(page) == cs
      && Rows(page) == TableValues(cs, rs) && End(page) == |page|
  {
    SafeExactlyWhenReadable(page, cs, rs);
    if ReadableRecords(cs, rs) {
      assert page == page + [];
      EncodingDecodes(page, cs, rs, []);
    }
  }

  /** A record that can be read in a slice has the same values in the whole: what is behind it
      in the slice is the front of what is behind it in the whole. */
  lemma {:induction false} RowInSlice(cs: seq<ColumnInfo>, rs: seq<Record>, slice: seq<Record>, i: nat, a: nat, b: nat)
    requires ValidRecords(rs, |cs|) && i + |slice| <= |rs| && slice == rs[i..i + |slice|]
    requires a < |slice| && b == i + a && ReadableRow(cs, slice, a)
    ensures ReadableRow(cs, rs, b) && rs[b] == slice[a]
    ensures RecordValues(cs, rs[b], EncodeRecords(rs[b + 1..], |cs|))
         == RecordValues(cs, slice[a], EncodeRecords(slice[a + 1..], |cs|))
  {
    var part, rest := slice[a + 1..], rs[i + |slice|..];
    BehindInSlice(rs, slice, part, rest, i, a, b);
    RecordsConcat(part, rest, |cs|);
    RecordValuesStay(cs, rs[b], EncodeRecords(part, |cs|), EncodeRecords(rs[b + 1..], |cs|));
  }

  lemma {:induction false} BehindInSlice<T>(s: seq<T>, slice: seq<T>, part: seq<T>, rest: seq<T>,
                                            i: nat, a: nat, b: nat)
    requires i + |slice| <= |s| && slice == s[i..i + |slice|] && a < |slice| && b == i + a
    requires part == slice[a + 1..] && rest == s[i + |slice|..]
    ensures s[b] == slice[a] && s[b + 1..] == part + rest
  {
  }

  lemma {:induction false} IsSlice<T>(slice: seq<T>, s: seq<T>, i: nat, j: nat)
    requires i <= j <= |s| && |slice| == j - i
    requires forall a :: 0 <= a < |slice| ==> SameAt(slice, s, i, a)
    ensures slice == s[i..j]
  {
    forall a | 0 <= a < |slice|
      ensures slice[a] == s[i..j][a]
    {
      assert SameAt(slice, s, i, a);
    }
  }

  ghost predicate SameAt<T>(slice: seq<T>, s: seq<T>, i: nat, a: nat) {
    a < |slice| && i + a < |s| && slice[a] == s[i + a]
  }

  /** A slice of the records, decoded by itself, gives the slice of the values. */
  lemma {:induction false} SliceDecodesToSlice(cs: seq<ColumnInfo>, rs: seq<Record>, i: nat, j: nat)
    requires i <= j <= |rs| && ReadableRecords(cs, rs) && ReadableRecords(cs, rs[i..j])
    ensures TableValues(cs, rs[i..j]) == TableValues(cs, rs)[i..j]
  {
    SliceValues(cs, rs, rs[i..j], i, j);
  }

  lemma {:induction false} SliceValues(cs: seq<ColumnInfo>, rs: seq<Record>, slice: seq<Record>, i: nat, j: nat)
    requires ReadableRecords(cs, rs) && ReadableRecords(cs, slice) && i <= j <= |rs| && slice == rs[i..j]
    ensures TableValues(cs, slice) == TableValues(cs, rs)[i..j]
  {
    var values, all := TableValues(cs, slice), TableValues(cs, rs);
    forall a | 0 <= a < |values|
      ensures SameAt(values, all, i, a)
    {
      SliceRow(cs, rs, slice, i, a, i + a);
    }
    IsSlice(values, all, i, j);
  }

  lemma {:induction false} SliceRow(cs: seq<ColumnInfo>, rs: seq<Record>, slice: seq<Record>, i: nat, a: nat, b: nat)
    requires ReadableRecords(cs, rs) && ReadableRecords(cs, slice)
    requires i + |slice| <= |rs| && slice == rs[i..i + |slice|] && a < |slice| && b == i + a
    ensures TableValues(cs, slice)[a] == TableValues(cs, rs)[b]
  {
    assert ReadableRow(cs, slice, a);
    RowInSlice(cs, rs, slice, i, a, b);
    RowAt(cs, rs, b);
    RowAt(cs, slice, a);
  }

  /** Two parts that can be read make a whole that can, and that has their values. */
  lemma {:induction false} PartsDecodeToWhole(cs: seq<ColumnInfo>, rs: seq<Record>, n: nat)
    requires ValidRecords(rs, |cs|) && n <= |rs|
    requires ReadableRecords(cs, rs[..n]) && ReadableRecords(cs, rs[n..])
    ensures ReadableRecords(cs, rs)
    ensures TableValues(cs, rs) == TableValues(cs, rs[..n]) + TableValues(cs, rs[n..])
  {
    assert rs[0..n] == rs[..n] && rs[n..|rs|] == rs[n..];
    forall i | 0 <= i < |rs|
      ensures ReadableRow(cs, rs, i)
    {
      if i < n {
        assert ReadableRow(cs, rs[..n], i);
        RowInSlice(cs, rs, rs[..n], 0, i, i);
      } else {
        assert ReadableRow(cs, rs[n..], i - n);
        RowInSlice(cs, rs, rs[n..], n, i - n, i);
      }
    }
    SliceDecodesToSlice(cs, rs, 0, n);
    SliceDecodesToSlice(cs, rs, n, |rs|);
    Halves(TableValues(cs, rs), n);
  }

  lemma {:induction false} Halves<T>(s: seq<T>, n: nat)
    requires n <= |s|
    ensures s == s[0..n] + s[n..|s|]
  {
  }

  /** Every page can be decoded without reading outside it. */
  ghost predicate PagesReadable(cs: seq<ColumnInfo>, rs: seq<Record>, room: nat)
    requires RoomForAny(rs, |cs|, room)
  {
    AllReadable(cs, Pages(rs, |cs|, room))
  }

  ghost predicate AllReadable(cs: seq<ColumnInfo>, pages: seq<seq<Record>>) {
    forall i :: 0 <= i < |pages| ==> ReadableRecords(cs, pages[i])
  }

  lemma {:induction false} FirstReadable(cs: seq<ColumnInfo>, rs: seq<Record>, room: nat)
    requires RoomForAny(rs, |cs|, room) && rs != [] && PagesReadable(cs, rs, room)
    ensures 0 < Fit(rs, |cs|, room) && RoomForAny(rs[Fit(rs, |cs|, room)..], |cs|, room)
    ensures ReadableRecords(cs, rs[..Fit(rs, |cs|, room)])
    ensures PagesReadable(cs, rs[Fit(rs, |cs|, room)..], room)
  {
    FirstPage(rs, |cs|, room);
    SplitReadable(cs, rs[..Fit(rs, |cs|, room)], Pages(rs[Fit(rs, |cs|, room)..], |cs|, room));
  }

  lemma {:induction false} SplitReadable(cs: seq<ColumnInfo>, first: seq<Record>, rest: seq<seq<Record>>)
    requires AllReadable(cs, [first] + rest)
    ensures ReadableRecords(cs, first) && AllReadable(cs, rest)
  {
    var pages := [first] + rest;
    assert pages[0] == first;
    assert forall i :: 0 <= i < |rest| ==> rest[i] == pages[i + 1];
  }

  function DecodePages(cs: seq<ColumnInfo>, pages: seq<seq<Record>>): seq<seq<DBValue>>
    requires AllReadable(cs, pages)
  {
    if pages == [] then [] else TableValues(cs, pages[0]) + DecodePages(cs, pages[1..])
  }

  /** If every page can be decoded, so can the whole, and decoding the pages one after the
      other gives the values of the whole. */
  lemma {:induction false} PagesDecodeToWhole(cs: seq<ColumnInfo>, rs: seq<Record>, room: nat)
    requires RoomForAny(rs, |cs|, room) && PagesReadable(cs, rs, room)
    ensures ReadableRecords(cs, rs)
    ensures DecodePages(cs, Pages(rs, |cs|, room)) == TableValues(cs, rs)
    decreases |rs|
  {
    if rs != [] {
      var n := Fit(rs, |cs|, room);
      FirstReadable(cs, rs, room);
      PagesDecodeToWhole(cs, rs[n..], room);
      PartsDecodeToWhole(cs, rs, n);
      FirstPage(rs, |cs|, room);
      OnePage(cs, rs[..n], Pages(rs[n..], |cs|, room));
    }
  }

  lemma {:induction false} OnePage(cs: seq<ColumnInfo>, first: seq<Record>, rest: seq<seq<Record>>)
    requires ReadableRecords(cs, first) && AllReadable(cs, rest)
    ensures AllReadable(cs, [first] + rest)
    ensures DecodePages(cs, [first] + rest) == TableValues(cs, first) + DecodePages(cs, rest)
  {
    assert ([first] + rest)[1..] == rest;
  }

  // ---------------------------------------------------------------- the return code

  /** In sizes: a page ends one record before the last exactly when all the records but the
      last fit and all of them do not. */
  lemma {:induction false} OneIsLeft(rs: seq<Record>, cols: nat, room: nat)
    requires ValidRecords(rs, cols) && rs != []
    ensures Fit(rs, cols, room) == |rs| - 1
       <==> |EncodeRecords(rs[..|rs| - 1], cols)| <= room < |EncodeRecords(rs, cols)|
  {
    var n, last := |rs| - 1, rs[|rs| - 1..];
    assert rs == rs[..n] + last && last[1..] == [];
    RecordsConcat(rs[..n], last, cols);
    assert EncodeFields(rs[n]) + [] == EncodeFields(rs[n]);
    if Fit(rs, cols, room) == n {
      FitIsGreedy(rs, cols, room);
    } else if |EncodeRecords(rs[..n], cols)| <= room < |EncodeRecords(rs, cols)| {
      GreedyIsFit(rs, cols, room, n);
    }
  }

  /** GetRecordSetDataEx says that there is no more data while a record is unsent exactly when
      the room behind the header holds all the records from `k` on but the last. */
  method AnswerComesEarly(source: FakeRecordSet, pos: nat, pBuffer: array<byte>, bufferSize: nat,
                          ghost cs: seq<ColumnInfo>, ghost rs: seq<Record>, ghost k: nat)
      returns (newPos: nat, code: GetDataCode)
    requires source.Valid() && source.dataBuffer.buffer != pBuffer
    requires bufferSize <= pBuffer.Length && bufferSize < INT_LIMIT
    requires 0 < |cs| < INT_LIMIT && 0 < |rs| < INT_LIMIT && HeaderSize(|cs|) <= bufferSize
    requires AtRecord(pos, cs, rs, k) && k < |rs|
    requires source.Blob() == Encode(Table(cs, rs))
    modifies pBuffer
    ensures source.Valid() && source.Blob() == old(source.Blob())
    ensures ValidRecords(rs[k..], |cs|) && ValidRecords(rs[k..][..|rs| - k - 1], |cs|)
    ensures code == NO_MORE_DATA && newPos < |source.Blob()|
       <==> |EncodeRecords(rs[k..][..|rs| - k - 1], |cs|)|
            <= bufferSize - HeaderSize(|cs|)
            < |EncodeRecords(rs[k..], |cs|)|
  {
    ghost var m := PageEnd(rs, |cs|, bufferSize - HeaderSize(|cs|), k);
    LastIsLeft(rs, |cs|, bufferSize - HeaderSize(|cs|), k, m);
    BehindPeek(source.Blob(), cs, |rs|, rs, m);
    var page, at, answer := FetchOne(source, pos, pBuffer, bufferSize, cs, rs, k, m);
    newPos, code := at, answer;
  }

  lemma {:induction false} LastIsLeft(rs: seq<Record>, cols: nat, room: nat, k: nat, m: nat)
    requires k < |rs| && ValidRecords(rs, cols) && m == PageEnd(rs, cols, room, k)
    ensures ValidRecords(rs[k..], cols) && ValidRecords(rs[k..][..|rs| - k - 1], cols)
    ensures |rs| - m == 1
       <==> |EncodeRecords(rs[k..][..|rs| - k - 1], cols)| <= room < |EncodeRecords(rs[k..], cols)|
  {
    OneIsLeft(rs[k..], cols, room);
  }

  lemma {:induction false} TwoRecords(r: Record, last: Record, cols: nat)
    requires |r| == |last| == cols && ValidFields(r) && ValidFields(last)
    ensures ValidRecords([r], cols) && |EncodeRecords([r], cols)| == RecordSize(r)
    ensures ValidRecords([r, last], cols) && |EncodeRecords([r, last], cols)| == RecordSize(r) + RecordSize(last)
  {
    assert [r][1..] == [] && [r, last][1..] == [last] && [last][1..] == [];
  }

  /** So it does for any two records of which only the first fits. */
  method NoMoreDataCanComeEarly(source: FakeRecordSet, pBuffer: array<byte>, bufferSize: nat,
                                ghost cs: seq<ColumnInfo>, ghost r: Record, ghost last: Record)
      returns (newPos: nat, code: GetDataCode)
    requires source.Valid() && source.dataBuffer.buffer != pBuffer
    requires bufferSize <= pBuffer.Length && bufferSize < INT_LIMIT
    requires 0 < |cs| < INT_LIMIT && ValidRecords([r, last], |cs|) && ValidFields(r) && ValidFields(last)
    requires RecordSize(r) <= bufferSize - HeaderSize(|cs|) < RecordSize(r) + RecordSize(last)
    requires source.Blob() == Encode(Table(cs, [r, last]))
    modifies pBuffer
    ensures source.Valid() && source.Blob() == old(source.Blob())
    ensures code == NO_MORE_DATA && newPos < |source.Blob()|
  {
    ghost var rs := [r, last];
    assert rs[0..] == rs && rs[..1] == [r];
    assert rs[0..][..|rs| - 0 - 1] == [r] && rs[..0] == [];
    assert rs[0] == r && rs[1] == last;
    TwoRecords(r, last, |cs|);
    newPos, code := AnswerComesEarly(source, 0, pBuffer, bufferSize, cs, rs, 0);
  }

  // ---------------------------------------------------------------- a caller who believes it

  /** The last of several pages holds one record. */
  ghost predicate LastIsOne(pages: seq<seq<Record>>) {
    |pages| > 1 && |pages[|pages| - 1]| == 1
  }

  /** The pages of a caller who goes on until the answer is NO_MORE_DATA: all of them but the
      last if there are several and the last holds one record, and otherwise all of them. */
  method FetchUntilTold(source: FakeRecordSet, pBuffer: array<byte>, bufferSize: nat,
                        ghost cs: seq<ColumnInfo>, ghost rs: seq<Record>)
      returns (pages: seq<seq<byte>>, newPos: nat)
    requires source.Valid() && source.dataBuffer.buffer != pBuffer
    requires bufferSize <= pBuffer.Length && bufferSize < INT_LIMIT
    requires 0 < |cs| < INT_LIMIT && 0 < |rs| < INT_LIMIT && HeaderSize(|cs|) <= bufferSize
    requires RoomForAny(rs, |cs|, bufferSize - HeaderSize(|cs|))
    requires source.Blob() == Encode(Table(cs, rs))
    modifies pBuffer
    ensures
      var all := Pages(rs, |cs|, bufferSize - HeaderSize(|cs|));
      && ArePages(pages, cs, if LastIsOne(all) then all[..|all| - 1] else all)
      && (newPos < |old(source.Blob())| <==> LastIsOne(all))
  {
    ghost var room := bufferSize - HeaderSize(|cs|);
    ghost var all, blob, k, got := Pages(rs, |cs|, room), source.Blob(), 0, [];
    pages, newPos := [], 0;
    var code := BUFFER_FULL;
    assert rs[0..] == rs && [] + all == all;
    while code != NO_MORE_DATA
      invariant source.Valid() && source.Blob() == blob
      invariant AtRecord(newPos, cs, rs, k) && InTransfer(cs, room, rs, k, all, pages, got)
      invariant Stage(code, rs, k, got) && (code == NO_MORE_DATA ==> newPos == OffsetOf(cs, rs, k))
      decreases |rs| - k, code != NO_MORE_DATA
    {
      ghost var m := PageEnd(rs, |cs|, room, k);
      var page, at, answer := FetchOne(source, newPos, pBuffer, bufferSize, cs, rs, k, m);
      TransferAdvances(cs, room, rs, k, m, all, pages, got, page);
      StageAdvances(rs, k, m, got, answer);
      pages, got := pages + [page], got + [rs[k..m]];
      newPos, code, k := at, answer, m;
    }
    BehindPeek(blob, cs, |rs|, rs, k);
    ToldIsLastIsOne(cs, room, rs, k, all, pages, got);
  }

  /** More than one record is to come, unless this is the start. */
  ghost predicate NotTold(rs: seq<Record>, k: nat, got: seq<seq<Record>>) {
    k < |rs| && (got != [] ==> |rs| - k > 1)
  }

  /** At most one record is to come; a page that ends the data is the first or holds several. */
  ghost predicate Told(rs: seq<Record>, k: nat, got: seq<seq<Record>>) {
    got != [] && |rs| - k <= 1 && (k == |rs| ==> !LastIsOne(got))
  }

  ghost predicate Stage(code: GetDataCode, rs: seq<Record>, k: nat, got: seq<seq<Record>>) {
    if code == NO_MORE_DATA then Told(rs, k, got) else NotTold(rs, k, got)
  }

  lemma {:induction false} StageAdvances(rs: seq<Record>, k: nat, m: nat, got: seq<seq<Record>>, answer: GetDataCode)
    requires NotTold(rs, k, got) && k < m <= |rs| && (answer == NO_MORE_DATA <==> |rs| - m <= 1)
    ensures Stage(answer, rs, m, got + [rs[k..m]])
  {
  }

  lemma {:induction false} ToldIsLastIsOne(cs: seq<ColumnInfo>, room: nat, rs: seq<Record>, k: nat,
                                           all: seq<seq<Record>>, pages: seq<seq<byte>>, got: seq<seq<Record>>)
    requires InTransfer(cs, room, rs, k, all, pages, got) && Told(rs, k, got)
    ensures k < |rs| <==> LastIsOne(all)
    ensures got == if LastIsOne(all) then all[..|all| - 1] else all
  {
    if k == |rs| {
      assert rs[k..] == [] && got + [] == got;
    } else {
      var last := rs[k..];
      FirstPage(last, |cs|, room);
      assert Fit(last, |cs|, room) == 1 && last[1..] == [] && last[..1] == last;
      assert all == got + [last];
    }
  }
}
