/** CDBStaticRecordSet: Init decodes a record-set blob into columns and values. */
module StaticRecordSets {
  import opened Basics
  import opened Memory
  import opened RecordCodec
  import opened DBValues
  import opened EasyBuffers
  import opened BlobReading

  class StaticRecordSet {
    var columnInfos: seq<ColumnInfo>
    var records: seq<seq<DBValue>>
    var curRow: int

    constructor ()
      ensures columnInfos == [] && records == [] && curRow == 0
    {
      columnInfos, records, curRow := [], [], 0;
    }

    method Destory()
      modifies this
      ensures columnInfos == [] && records == [] && curRow == 0
    {
      columnInfos := [];
      records := [];
      curRow := 0;
    }

    /** One turn of the inner loop: a length, then the value. */
    method ReadField(buf: EasyBuffer, peek: nat, c: ColumnInfo) returns (v: DBValue, next: nat)
      requires buf.Valid() && buf.buffer != null && peek + INT_SIZE < UINT_LIMIT && SafeField(buf.Contents(), peek, c)
      ensures v == FieldAt(buf.Contents(), peek, c) && next == PastField(buf.Contents(), peek)
    {
      var valueSize, at := buf.PeekInt(peek);
      if valueSize < 0 {
        v := SetValue(EMPTY, ColumnType(c), None, 0);
        valueSize := 0;
      } else {
        var mem := if at <= buf.usedSize then buf.buffer[at..buf.usedSize] else [];
        assert mem == Behind(buf.Contents(), at);
        v := SetValue(EMPTY, ColumnType(c), Some(mem), valueSize);
      }
      next := at + valueSize;
    }

    /** The inner loop: fills one row. */
    method ReadRecord(buf: EasyBuffer, start: nat, cs: seq<ColumnInfo>) returns (row: seq<DBValue>, next: nat)
      requires buf.Valid() && buf.buffer != null && start + INT_SIZE < UINT_LIMIT
      requires SafeFields(buf.Contents(), start, cs)
      ensures row == FieldsAt(buf.Contents(), start, cs) && next == PastFields(buf.Contents(), start, |cs|)
      ensures next + INT_SIZE < UINT_LIMIT
    {
      ghost var bytes, want := buf.Contents(), FieldsAt(buf.Contents(), start, cs);
      row := seq(|cs|, _ => EMPTY);
      next := start;
      var j := 0;
      assert cs[0..] == cs && row[..0] + want == want;
      while j < |cs|
        invariant 0 <= j <= |cs| == |row| && next + INT_SIZE < UINT_LIMIT
        invariant SafeFields(bytes, next, cs[j..])
        invariant Filling(row, j, FieldsAt(bytes, next, cs[j..]), want)
        invariant PastFields(bytes, next, |cs| - j) == PastFields(bytes, start, |cs|)
      {
        assert cs[j..][1..] == cs[j + 1..];
        var v, at := ReadField(buf, next, cs[j]);
        FillOne(row, j, v, FieldsAt(bytes, at, cs[j + 1..]), want);
        row := row[j := v];
        next := at;
        j := j + 1;
      }
      assert FieldsAt(bytes, next, cs[j..]) == [];
      Filled(row, want);
    }

    /** Init: decodes any bytes that can be decoded without reading outside them.  `end` is
        where the reader stands when it returns. */
    method Init(data: array<byte>, dataSize: nat) returns (code: int, ghost end: nat)
      requires dataSize <= data.Length && dataSize < INT_LIMIT && Safe(data[..dataSize])
      modifies this
      ensures curRow == 0 && code == Code(data[..dataSize]) && end == End(data[..dataSize])
      ensures columnInfos == Columns(data[..dataSize]) && records == Rows(data[..dataSize])
    {
      Destory();
      var buf := new EasyBuffer.Over(data, dataSize);
      var _ := buf.SetUsedSize(dataSize);
      assert buf.Contents() == data[..dataSize];
      var colNum, peek := buf.PeekInt(0);
      end := peek;
      if colNum <= 0 {
        return DBERR_NO_RECORDS, end;
      }
      code, end := ReadTable(buf, peek, colNum);
    }

    /** Init of a blob with columns. */
    method ReadTable(buf: EasyBuffer, start: nat, colNum: nat) returns (code: int, ghost end: nat)
      requires buf.Valid() && buf.buffer != null && buf.usedSize < INT_LIMIT
      requires colNum == ColumnCount(buf.Contents()) > 0 && start == PastInt(buf.Contents(), 0)
      requires Safe(buf.Contents()) && records == []
      modifies this`columnInfos, this`records
      ensures code == Code(buf.Contents()) && end == End(buf.Contents())
      ensures columnInfos == Columns(buf.Contents()) && records == Rows(buf.Contents())
    {
      var peek := ReadColumns(buf, start, colNum);
      var recordNum, at := buf.PeekInt(peek);
      end := at;
      if recordNum <= 0 {
        return DBERR_NO_RECORDS, end;
      }
      var next := ReadRecords(buf, at, recordNum);
      code, end := DBERR_SUCCEED, next;
    }

    /** Peek of a column info, which stays zero when there is no room for one. */
    method PeekColumn(buf: EasyBuffer, peek: nat) returns (column: ColumnInfo, next: nat)
      requires buf.Valid() && peek + COLUMN_INFO_SIZE < UINT_LIMIT
      ensures column == ColumnAt(buf.Contents(), peek) && next == PastColumn(buf.Contents(), peek)
    {
      column := NO_COLUMN;
      var ok, data, at := buf.Peek(peek, COLUMN_INFO_SIZE);
      next := at;
      if ok {
        column := data;
      }
    }

    method ReadColumns(buf: EasyBuffer, start: nat, colNum: nat) returns (next: nat)
      requires buf.Valid() && start <= |buf.Contents()| && buf.usedSize < INT_LIMIT
      modifies this`columnInfos
      ensures columnInfos == ColumnsAt(buf.Contents(), start, colNum)
      ensures next == PastColumns(buf.Contents(), start, colNum)
    {
      ghost var bytes, want := buf.Contents(), ColumnsAt(buf.Contents(), start, colNum);
      columnInfos := seq(colNum, _ => NO_COLUMN);
      next := start;
      var i := 0;
      assert columnInfos[..0] + want == want;
      while i < colNum
        invariant buf.Valid() && buf.Contents() == bytes && buf.usedSize < INT_LIMIT
        invariant 0 <= i <= colNum == |columnInfos| && next <= |bytes|
        invariant Filling(columnInfos, i, ColumnsAt(bytes, next, colNum - i), want)
        invariant PastColumns(bytes, next, colNum - i) == PastColumns(bytes, start, colNum)
      {
        var column, at := PeekColumn(buf, next);
        FillOne(columnInfos, i, column, ColumnsAt(bytes, at, colNum - i - 1), want);
        columnInfos := columnInfos[i := column];
        next := at;
        i := i + 1;
      }
      Filled(columnInfos, want);
    }

    /** The outer loop: fills the table. */
    method ReadRecords(buf: EasyBuffer, start: nat, recordNum: nat) returns (next: nat)
      requires buf.Valid() && buf.buffer != null && start + INT_SIZE < UINT_LIMIT
      requires SafeRows(buf.Contents(), start, columnInfos, recordNum)
      modifies this`records
      ensures records == RowsAt(buf.Contents(), start, columnInfos, recordNum)
      ensures next == PastRows(buf.Contents(), start, |columnInfos|, recordNum)
    {
      ghost var bytes, want := buf.Contents(), RowsAt(buf.Contents(), start, columnInfos, recordNum);
      records := seq(recordNum, _ => []);
      next := start;
      var i := 0;
      assert records[..0] + want == want;
      while i < recordNum
        invariant 0 <= i <= recordNum == |records| && next + INT_SIZE < UINT_LIMIT
        invariant SafeRows(bytes, next, columnInfos, recordNum - i)
        invariant Filling(records, i, RowsAt(bytes, next, columnInfos, recordNum - i), want)
        invariant PastRows(bytes, next, |columnInfos|, recordNum - i)
               == PastRows(bytes, start, |columnInfos|, recordNum)
      {
        RowsOn(bytes, next, columnInfos, recordNum - i);
        var row, at := ReadRecord(buf, next, columnInfos);
        FillOne(records, i, row, RowsAt(bytes, at, columnInfos, recordNum - i - 1), want);
        records := records[i := row];
        next := at;
        i := i + 1;
      }
      Filled(records, want);
    }

    /** The field of the current row, or the empty value outside the rows or columns. */
    method GetField(index: int) returns (v: DBValue)
      ensures 0 <= curRow < |records| && 0 <= index < |records[curRow]| ==> v == records[curRow][index]
      ensures !(0 <= curRow < |records| && 0 <= index < |records[curRow]|) ==> v == EMPTY
    {
      v := EMPTY;
      if 0 <= curRow < |records| {
        var record := records[curRow];
        if 0 <= index < |record| {
          v := record[index];
        }
      }
    }
  }
}
