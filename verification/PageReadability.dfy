/** Which record sets can be read page by page, wherever the pages are cut? */
module PageReadability {
  import opened Basics
  import opened Memory
  import opened RecordCodec
  import opened DBValues
  import opened Decoding
  import opened Paging
  import opened PagedTransfer

  /** Record `i` can be read with nothing behind it. */
  ghost predicate Alone(cs: seq<ColumnInfo>, rs: seq<Record>, i: nat)
    requires i < |rs|
  {
    ReadableRecord(cs, rs[i], [])
  }

  ghost predicate EachAlone(cs: seq<ColumnInfo>, rs: seq<Record>) {
    forall i :: 0 <= i < |rs| ==> Alone(cs, rs, i)
  }

  ghost predicate EverySliceReadable(cs: seq<ColumnInfo>, rs: seq<Record>) {
    forall k: nat, m: nat :: k <= m <= |rs| ==> ReadableRecords(cs, rs[k..m])
  }

  lemma {:induction false} SliceOfAlone(cs: seq<ColumnInfo>, rs: seq<Record>, k: nat, m: nat)
    requires ValidRecords(rs, |cs|) && EachAlone(cs, rs) && k <= m <= |rs|
    ensures ReadableRecords(cs, rs[k..m])
  {
    var part := rs[k..m];
    forall i | 0 <= i < |part|
      ensures ReadableRow(cs, part, i)
    {
      assert Alone(cs, rs, k + i) && part[i] == rs[k + i];
      RecordValuesStay(cs, part[i], [], EncodeRecords(part[i + 1..], |cs|));
    }
  }

  lemma {:induction false} AloneIsASlice(cs: seq<ColumnInfo>, rs: seq<Record>, i: nat)
    requires i < |rs| && ReadableRecords(cs, rs[i..i + 1])
    ensures Alone(cs, rs, i)
  {
    var one := rs[i..i + 1];
    assert one[0] == rs[i] && one[1..] == [];
    assert ReadableRow(cs, one, 0);
  }

  /** Every slice of the records can be read by itself if and only if every record can. */
  lemma {:induction false} SlicesReadableExactly(cs: seq<ColumnInfo>, rs: seq<Record>)
    requires ValidRecords(rs, |cs|)
    ensures EverySliceReadable(cs, rs) <==> EachAlone(cs, rs)
  {
    if EachAlone(cs, rs) {
      forall k: nat, m: nat | k <= m <= |rs|
        ensures ReadableRecords(cs, rs[k..m])
      {
        SliceOfAlone(cs, rs, k, m);
      }
    }
    if EverySliceReadable(cs, rs) {
      forall i | 0 <= i < |rs|
        ensures Alone(cs, rs, i)
      {
        AloneIsASlice(cs, rs, i);
      }
    }
  }

  /** The page that a call from record `k` on gives into a buffer with that room. */
  ghost predicate PageReadable(cs: seq<ColumnInfo>, rs: seq<Record>, k: nat, room: nat)
    requires k <= |rs| && ValidRecords(rs, |cs|)
  {
    ReadableRecords(cs, rs[k..PageEnd(rs, |cs|, room, k)])
  }

  ghost predicate EveryPageReadable(cs: seq<ColumnInfo>, rs: seq<Record>)
    requires ValidRecords(rs, |cs|)
  {
    forall k: nat, room: nat :: k <= |rs| ==> PageReadable(cs, rs, k, room)
  }

  /** A buffer with room for record `i` and nothing else. */
  lemma {:induction false} PageOfOne(cs: seq<ColumnInfo>, rs: seq<Record>, i: nat)
    requires 0 < |cs| && ValidRecords(rs, |cs|) && i < |rs|
    ensures PageEnd(rs, |cs|, RecordSize(rs[i]), i) == i + 1
  {
    var todo, room := rs[i..], RecordSize(rs[i]);
    assert todo[0] == rs[i] && ValidRecords(todo, |cs|);
    var rest := todo[1..];
    if rest != [] {
      assert rest[0] == rs[i + 1];
      FieldsTakeRoom(rest[0]);
    }
    assert Fit(rest, |cs|, 0) == 0;
    assert Fit(todo, |cs|, room) == 1;
  }

  /** For any columns and records: a caller can read every page he may get, from any record on
      and with any buffer, if and only if every record can be read with nothing behind it. */
  lemma {:induction false} PagesReadableExactly(cs: seq<ColumnInfo>, rs: seq<Record>)
    requires 0 < |cs| && ValidRecords(rs, |cs|)
    ensures EveryPageReadable(cs, rs) <==> EachAlone(cs, rs)
  {
    if EachAlone(cs, rs) {
      forall k: nat, room: nat | k <= |rs|
        ensures PageReadable(cs, rs, k, room)
      {
        SliceOfAlone(cs, rs, k, PageEnd(rs, |cs|, room, k));
      }
    }
    if EveryPageReadable(cs, rs) {
      forall i | 0 <= i < |rs|
        ensures Alone(cs, rs, i)
      {
        PageOfOne(cs, rs, i);
        assert PageReadable(cs, rs, i, RecordSize(rs[i]));
        AloneIsASlice(cs, rs, i);
      }
    }
  }

  /** Then all the pages of a transfer can be read, whatever the size of the buffer. */
  lemma {:induction false} AloneMakesPagesReadable(cs: seq<ColumnInfo>, rs: seq<Record>, room: nat)
    requires RoomForAny(rs, |cs|, room) && EachAlone(cs, rs)
    ensures PagesReadable(cs, rs, room)
    decreases |rs|
  {
    if rs != [] {
      var n := Fit(rs, |cs|, room);
      FirstPage(rs, |cs|, room);
      SliceOfAlone(cs, rs, 0, n);
      assert rs[0..n] == rs[..n];
      assert forall i :: 0 <= i < |rs| - n ==> Alone(cs, rs, n + i) && rs[n..][i] == rs[n + i];
      AloneMakesPagesReadable(cs, rs[n..], room);
      OnePage(cs, rs[..n], Pages(rs[n..], |cs|, room));
    }
  }

  /** A field can be read with nothing behind it when its value is as long as its type takes,
      longer, or of a type that is not read at all. */
  lemma {:induction false} FieldAlone(c: ColumnInfo, f: Field)
    requires ValidField(f)
    ensures Readable(c, f, [])
       <==> f.Null? || SizeOf(ColumnType(c)).AsGiven? || SizeOf(ColumnType(c)).Unknown?
            || SizeOf(ColumnType(c)).n <= |f.bytes|
  {
    if f.Value? {
      assert f.bytes + [] == f.bytes;
    }
  }

  lemma {:induction false} NaturalIsAlone(cs: seq<ColumnInfo>, rs: seq<Record>)
    requires ValidRecords(rs, |cs|) && NaturalTable(cs, rs)
    ensures EachAlone(cs, rs)
  {
    forall i | 0 <= i < |rs|
      ensures Alone(cs, rs, i)
    {
      assert forall j :: 0 <= j < |cs| ==> Natural(cs[j], rs[i][j]);
      NaturalRow(cs, rs[i], []);
    }
  }

  /** Values of fitting lengths can be read in every page. */
  lemma {:induction false} NaturalPagesAreReadable(cs: seq<ColumnInfo>, rs: seq<Record>, room: nat)
    requires RoomForAny(rs, |cs|, room) && NaturalTable(cs, rs)
    ensures PagesReadable(cs, rs, room)
  {
    NaturalIsAlone(cs, rs);
    AloneMakesPagesReadable(cs, rs, room);
  }

  /** A readable record set with a page that is not: an INTEGER field without bytes, and one with
      four behind it, in a buffer that holds the first record only. */
  lemma {:induction false} PageMayBeUnreadable(c: ColumnInfo, v: seq<byte>)
    requires SizeOf(ColumnType(c)) == Fixed(4) && |v| == 4
    ensures
      var rs: seq<Record> := [[Value([])], [Value(v)]];
      && ReadableRecords([c], rs)
      && PageEnd(rs, 1, INT_SIZE, 0) == 1 && !PageReadable([c], rs, 0, INT_SIZE)
  {
    var cs: seq<ColumnInfo>, short: Record, long: Record := [c], [Value([])], [Value(v)];
    var rs: seq<Record> := [short, long];
    assert rs[1..] == [long] && [long][1..] == [] && short[1..] == [] && long[1..] == [];
    assert |EncodeFields(long)| == INT_SIZE + 4 && |EncodeFields(short)| == INT_SIZE;
    assert |EncodeRecords([long], 1)| == INT_SIZE + 4;
    OneField(c, short[0], EncodeRecords([long], 1));
    OneField(c, long[0], []);
    assert ReadableRow(cs, rs, 0) && ReadableRow(cs, rs, 1);
    PageOfOne(cs, rs, 0);
    OneField(c, short[0], []);
    if ReadableRecords(cs, rs[0..1]) {
      AloneIsASlice(cs, rs, 0);
      assert false;
    }
  }

  lemma {:induction false} OneField(c: ColumnInfo, f: Field, after: seq<byte>)
    requires ValidField(f)
    ensures ReadableRecord([c], [f], after) <==> Readable(c, f, after)
  {
    var r: Record := [f];
    assert r[1..] == [] && EncodeFields([]) + after == after;
    assert ValidFields(r) ==> AfterField(r, 0, after) == after;
    assert ReadableRecord([c], r, after) ==> ReadableField([c], r, after, 0);
  }
}
