/** CEasyBuffer: a bounded byte buffer over storage of its own or of the caller. */
module EasyBuffers {
  import opened Basics
  import opened Memory
  import opened RecordCodec

  class EasyBuffer {
    var buffer: array?<byte>
    var bufferSize: nat
    var usedSize: nat
    var isSelfBuffer: bool

    ghost predicate Valid()
      reads this
    {
      && usedSize <= bufferSize < UINT_LIMIT
      && (buffer == null ==> bufferSize == 0)
      && (buffer != null ==> bufferSize <= buffer.Length)
    }

    ghost function Contents(): seq<byte>
      requires Valid()
      reads this, buffer
    {
      if buffer == null then [] else buffer[..usedSize]
    }

    constructor ()
      ensures Valid() && buffer == null && Contents() == [] && isSelfBuffer
    {
      buffer := null;
      bufferSize, usedSize := 0, 0;
      isSelfBuffer := true;
    }

    constructor Sized(size: nat)
      requires size < UINT_LIMIT
      ensures Valid() && buffer != null && fresh(buffer) && isSelfBuffer
      ensures bufferSize == size && Contents() == []
    {
      buffer := null;
      bufferSize, usedSize := 0, 0;
      isSelfBuffer := true;
      new;
      Create(size);
    }

    constructor Over(storage: array<byte>, size: nat)
      requires size <= storage.Length && size < UINT_LIMIT
      ensures Valid() && buffer == storage && !isSelfBuffer
      ensures bufferSize == size && Contents() == []
    {
      buffer := null;
      bufferSize, usedSize := 0, 0;
      isSelfBuffer := true;
      new;
      CreateOver(storage, size);
    }

    /** Frees storage of its own; the sizes stay as they were until the next Create. */
    method Destory()
      modifies this
      ensures buffer == if isSelfBuffer then null else old(buffer)
      ensures bufferSize == old(bufferSize) && usedSize == old(usedSize) && isSelfBuffer == old(isSelfBuffer)
    {
      if isSelfBuffer {
        buffer := null;
      }
    }

    method Create(size: nat)
      requires size < UINT_LIMIT
      modifies this
      ensures Valid() && buffer != null && fresh(buffer) && isSelfBuffer
      ensures bufferSize == size && Contents() == []
    {
      Destory();
      buffer := new byte[size];
      bufferSize := size;
      usedSize := 0;
      isSelfBuffer := true;
    }

    method CreateOver(storage: array<byte>, size: nat)
      requires size <= storage.Length && size < UINT_LIMIT
      modifies this
      ensures Valid() && buffer == storage && !isSelfBuffer
      ensures bufferSize == size && Contents() == []
    {
      Destory();
      buffer := storage;
      bufferSize := size;
      usedSize := 0;
      isSelfBuffer := false;
    }

    /** Declares bytes already in the storage to be contents, or drops contents from the end. */
    method SetUsedSize(size: nat) returns (ok: bool)
      requires Valid()
      modifies this`usedSize
      ensures Valid() && ok == (size <= bufferSize)
      ensures usedSize == if ok then size else old(usedSize)
    {
      ok := size <= bufferSize;
      if ok {
        usedSize := size;
      }
    }

    function FreeSize(): (n: int)
      requires Valid()
      reads this
      ensures 0 <= n <= bufferSize
    {
      bufferSize - usedSize
    }

    /** Puts `size` bytes in front; a NULL pointer moves the contents and leaves the first
        bytes of the storage as they are. */
    method PushFront(data: Option<seq<byte>>, size: nat) returns (ok: bool)
      requires Valid() && usedSize + size < UINT_LIMIT && (data.Some? ==> |data.value| == size)
      modifies this`usedSize, buffer
      ensures Valid() && ok == (size <= old(FreeSize()))
      ensures !ok ==> Contents() == old(Contents())
      ensures ok && data.Some? ==> Contents() == data.value + old(Contents())
      ensures ok && data.None? && buffer != null ==>
        |Contents()| == size + old(usedSize) && Contents()[size..] == old(Contents())
        && forall i :: 0 <= i < size ==> Contents()[i] == old(buffer[i])
    {
      ok := usedSize + size <= bufferSize;
      if ok && buffer != null {
        MoveBytes(buffer, size, 0, usedSize);
        if data.Some? {
          CopyBytes(buffer, 0, data.value);
        }
        usedSize := usedSize + size;
        assert Contents()[size..] == old(Contents());
        assert Contents() == Contents()[..size] + Contents()[size..];
        assert data.Some? ==> Contents()[..size] == data.value;
      }
    }

    /** Puts `size` bytes behind the contents; a NULL pointer makes contents of what is there. */
    method PushBack(data: Option<seq<byte>>, size: nat) returns (ok: bool)
      requires Valid() && usedSize + size < UINT_LIMIT && (data.Some? ==> |data.value| == size)
      modifies this`usedSize, buffer
      ensures Valid() && ok == (size <= old(FreeSize()))
      ensures !ok ==> Contents() == old(Contents())
      ensures ok && data.Some? ==> Contents() == old(Contents()) + data.value
      ensures ok && data.None? && buffer != null ==> Contents() == old(buffer[..usedSize + size])
      ensures buffer != null ==> buffer[usedSize..] == old(buffer[..])[usedSize..]
    {
      ok := usedSize + size <= bufferSize;
      if ok && buffer != null {
        if data.Some? {
          CopyBytes(buffer, usedSize, data.value);
        }
        usedSize := usedSize + size;
        assert data.Some? ==> Contents() == old(Contents()) + data.value;
      }
    }

    method PopFront(size: nat) returns (ok: bool, data: seq<byte>)
      requires Valid()
      modifies this`usedSize, buffer
      ensures Valid() && ok == (size <= old(usedSize))
      ensures if ok then old(Contents()) == data + Contents() && |data| == size
              else data == [] && Contents() == old(Contents())
    {
      ok, data := size <= usedSize, [];
      if ok && buffer != null {
        data := buffer[..size];
        usedSize := usedSize - size;
        MoveBytes(buffer, 0, size, usedSize);
        assert old(Contents()) == data + Contents();
      }
    }

    /** Reads at `pos` and moves past what was read; on failure nothing moves. */
    method Peek(pos: nat, size: nat) returns (ok: bool, data: seq<byte>, next: nat)
      requires Valid() && pos + size < UINT_LIMIT
      ensures ok == (pos + size <= |Contents()|)
      ensures if ok then data == Contents()[pos..pos + size] && next == pos + size
              else data == [] && next == pos
    {
      ok, data, next := pos + size <= usedSize, [], pos;
      if ok && buffer != null {
        data := buffer[pos..pos + size];
        next := pos + size;
      }
    }

    /** Peek of an int, which stays 0 when there is no room for one. */
    method PeekInt(pos: nat) returns (n: Int32, next: nat)
      requires Valid() && pos + INT_SIZE < UINT_LIMIT
      ensures n == IntAt(Contents(), pos) && next == PastInt(Contents(), pos)
    {
      n := 0;
      var ok, data, at := Peek(pos, INT_SIZE);
      next := at;
      if ok {
        n := DecodeInt(data);
      }
    }

    /** Takes the storage over from another buffer, which is left empty. */
    method PickData(other: EasyBuffer) returns (ok: bool)
      requires other.Valid() && other != this
      modifies this, other
      ensures ok == (old(other.buffer) != null)
      ensures ok ==> Valid() && buffer == old(other.buffer) && bufferSize == old(other.bufferSize)
                     && Contents() == old(other.Contents()) && isSelfBuffer == old(other.isSelfBuffer)
      ensures ok ==> other.Valid() && other.buffer == null && other.Contents() == []
      ensures !ok ==> unchanged(this) && unchanged(other)
    {
      ok := other.buffer != null;
      if ok {
        Destory();
        buffer := other.buffer;
        bufferSize := other.bufferSize;
        usedSize := other.usedSize;
        isSelfBuffer := other.isSelfBuffer;
        other.buffer := null;
        other.bufferSize, other.usedSize := 0, 0;
        other.isSelfBuffer := true;
      }
    }
  }
}
