/** Which records a page takes, and what the pages of a record set add up to. */
module Paging {
  import opened RecordCodec

  /** The size of one record in the blob. */
  function RecordSize(r: Record): nat
    requires ValidFields(r)
  {
    |EncodeFields(r)|
  }

  /** How many records from the front fit into `room` bytes. */
  function Fit(rs: seq<Record>, cols: nat, room: nat): (n: nat)
    requires ValidRecords(rs, cols)
    ensures n <= |rs|
  {
    if rs == [] || RecordSize(rs[0]) > room then 0
    else 1 + Fit(rs[1..], cols, room - RecordSize(rs[0]))
  }

  /** A page is as full as it can be: its records fit, and the next one, if any, would not. */
  lemma {:induction false} FitIsGreedy(rs: seq<Record>, cols: nat, room: nat)
    requires ValidRecords(rs, cols)
    ensures
      var n := Fit(rs, cols, room);
      && ValidRecords(rs[..n], cols) && |EncodeRecords(rs[..n], cols)| <= room
      && (n < |rs| ==> |EncodeRecords(rs[..n], cols)| + RecordSize(rs[n]) > room)
  {
    var n := Fit(rs, cols, room);
    if n == 0 {
      assert rs[..0] == [];
    } else {
      FitIsGreedy(rs[1..], cols, room - RecordSize(rs[0]));
      assert rs[..n][1..] == rs[1..][..n - 1] && rs[..n][0] == rs[0];
    }
  }

  /** Nothing else fits that well: the number is determined by being greedy. */
  lemma {:induction false} GreedyIsFit(rs: seq<Record>, cols: nat, room: nat, n: nat)
    requires ValidRecords(rs, cols) && n <= |rs|
    requires |EncodeRecords(rs[..n], cols)| <= room
    requires n < |rs| ==> |EncodeRecords(rs[..n], cols)| + RecordSize(rs[n]) > room
    ensures n == Fit(rs, cols, room)
  {
    if n == 0 {
      assert rs[..0] == [];
    } else {
      assert rs[..n][1..] == rs[1..][..n - 1] && rs[..n][0] == rs[0];
      GreedyIsFit(rs[1..], cols, room - RecordSize(rs[0]), n - 1);
    }
  }

  /** Where record `k` starts in the blob. */
  function OffsetOf(cs: seq<ColumnInfo>, rs: seq<Record>, k: nat): nat
    requires k <= |rs| && ValidRecords(rs, |cs|)
  {
    HeaderSize(|cs|) + |EncodeRecords(rs[..k], |cs|)|
  }

  /** The record behind the page that starts with record `k`. */
  function PageEnd(rs: seq<Record>, cols: nat, room: nat, k: nat): (m: nat)
    requires k <= |rs| && ValidRecords(rs, cols)
    ensures k <= m <= |rs|
  {
    k + Fit(rs[k..], cols, room)
  }

  // ---------------------------------------------------------------- all the pages

  /** Room for any single record. */
  ghost predicate RoomForAny(rs: seq<Record>, cols: nat, room: nat) {
    ValidRecords(rs, cols) && forall i :: 0 <= i < |rs| ==> RoomFor(rs, cols, room, i)
  }

  ghost predicate RoomFor(rs: seq<Record>, cols: nat, room: nat, i: nat)
    requires i < |rs| && ValidRecords(rs, cols)
  {
    RecordSize(rs[i]) <= room
  }

  lemma {:induction false} RoomForRest(rs: seq<Record>, cols: nat, room: nat)
    requires RoomForAny(rs, cols, room) && rs != []
    ensures 0 < Fit(rs, cols, room) && RoomForAny(rs[Fit(rs, cols, room)..], cols, room)
  {
    assert RoomFor(rs, cols, room, 0);
    var n := Fit(rs, cols, room);
    forall i | 0 <= i < |rs| - n
      ensures RoomFor(rs[n..], cols, room, i)
    {
      assert RoomFor(rs, cols, room, n + i);
    }
  }

  /** The records of the pages a caller gets who starts at record 0 and goes on until the end
      of the data. */
  function Pages(rs: seq<Record>, cols: nat, room: nat): (pages: seq<seq<Record>>)
    requires RoomForAny(rs, cols, room)
    decreases |rs|
  {
    if rs == [] then [] else
      RoomForRest(rs, cols, room);
      var n := Fit(rs, cols, room);
      [rs[..n]] + Pages(rs[n..], cols, room)
  }

  function Flatten(pages: seq<seq<Record>>): seq<Record> {
    if pages == [] then [] else pages[0] + Flatten(pages[1..])
  }

  /** No record is lost, duplicated, reordered or split, no page is empty, and so there are
      at most as many pages as records. */
  lemma {:induction false} PagesPartition(rs: seq<Record>, cols: nat, room: nat)
    requires RoomForAny(rs, cols, room)
    ensures Flatten(Pages(rs, cols, room)) == rs
    ensures forall p :: p in Pages(rs, cols, room) ==> p != []
    ensures |Pages(rs, cols, room)| <= |rs|
    decreases |rs|
  {
    if rs != [] {
      var n := Fit(rs, cols, room);
      RoomForRest(rs, cols, room);
      PagesPartition(rs[n..], cols, room);
      assert rs == rs[..n] + rs[n..];
    }
  }
}
