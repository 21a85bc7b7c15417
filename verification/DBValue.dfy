/** CDBValue: a typed copy of some bytes, or NULL. */
module DBValues {
  import opened Basics
  import opened Memory

  const DB_TYPE_STRING := 1
  const DB_TYPE_WSTRING := 2
  const DB_TYPE_TINY := 3
  const DB_TYPE_SMALLINT := 4
  const DB_TYPE_INTEGER := 5
  const DB_TYPE_BIGINT := 6
  const DB_TYPE_FLOAT := 7
  const DB_TYPE_DOUBLE := 8
  const DB_TYPE_DATE := 9
  const DB_TYPE_TIME := 10
  const DB_TYPE_TIMESTAMP := 11
  const DB_TYPE_GUID := 12
  const DB_TYPE_BINARY := 13

  /** How many bytes a value of a type has: always the same, as many as given, or the type
      is none of those SetValue knows. */
  datatype Size = Fixed(n: nat) | AsGiven | Unknown

  function SizeOf(valueType: int): Size {
    if valueType == DB_TYPE_TINY then Fixed(1)
    else if valueType == DB_TYPE_SMALLINT then Fixed(2)
    else if valueType == DB_TYPE_INTEGER || valueType == DB_TYPE_FLOAT then Fixed(4)
    else if valueType == DB_TYPE_BIGINT || valueType == DB_TYPE_DOUBLE then Fixed(8)
    else if valueType == DB_TYPE_DATE || valueType == DB_TYPE_TIME then Fixed(6)
    else if valueType == DB_TYPE_TIMESTAMP || valueType == DB_TYPE_GUID then Fixed(16)
    else if valueType == DB_TYPE_STRING || valueType == DB_TYPE_WSTRING || valueType == DB_TYPE_BINARY then AsGiven
    else Unknown
  }

  /** `data` is the allocated block: the value's bytes, and two zero bytes after those of a
      type without a fixed size. */
  datatype DBValue = DBValue(valueType: int, digitSize: int, data: Option<seq<byte>>, dataSize: int)

  const EMPTY: DBValue := DBValue(0, 0, None, 0)

  predicate IsNull(v: DBValue) { v.data == None }

  function Destory(v: DBValue): DBValue {
    if v.data.Some? then EMPTY else v
  }

  /** `mem` is the memory from the data pointer on; a fixed-size type reads its own size from
      there whatever size is given. */
  ghost predicate CanRead(valueType: int, mem: seq<byte>, dataSize: int) {
    match SizeOf(valueType)
    case Fixed(n) => n <= |mem|
    case AsGiven => 0 <= dataSize <= |mem|
    case Unknown => true
  }

  function SetValue(v: DBValue, valueType: int, mem: Option<seq<byte>>, dataSize: int): DBValue
    requires mem.Some? ==> CanRead(valueType, mem.value, dataSize)
  {
    var w := Destory(v).(valueType := valueType);
    if mem == None then w
    else
      match SizeOf(valueType)
      case Fixed(n) => w.(dataSize := n, digitSize := 0, data := Some(mem.value[..n]))
      case AsGiven => w.(dataSize := dataSize, digitSize := 0, data := Some(mem.value[..dataSize] + [0, 0]))
      case Unknown => w
  }

  /** The value is not NULL and holds exactly these bytes. */
  ghost predicate Holds(v: DBValue, bytes: seq<byte>) {
    v.data.Some? && v.dataSize == |bytes| && bytes <= v.data.value
  }

  /** The value a type makes of `size` bytes at a pointer is those bytes exactly when the type
      is known and takes that size. */
  lemma {:induction false} SetValueHolds(v: DBValue, valueType: int, bytes: seq<byte>, after: seq<byte>)
    requires CanRead(valueType, bytes + after, |bytes|)
    requires Destory(v).data == None
    ensures
      Holds(SetValue(v, valueType, Some(bytes + after), |bytes|), bytes)
      <==> SizeOf(valueType) == AsGiven || SizeOf(valueType) == Fixed(|bytes|)
    ensures IsNull(SetValue(v, valueType, Some(bytes + after), |bytes|)) <==> SizeOf(valueType) == Unknown
  {
    assert (bytes + after)[..|bytes|] == bytes;
  }
}
