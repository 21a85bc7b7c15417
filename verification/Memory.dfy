/** The libc calls that move characters and bytes.  One copy for each element type: the
    generic form makes every proof about a buffer dearer. */
module Memory {

  type byte = x: int | 0 <= x < 256

  /** memmove within one buffer: the regions may overlap. */
  method MoveChars(a: array<char>, dst: nat, src: nat, n: nat)
    requires dst + n <= a.Length && src + n <= a.Length
    modifies a
    ensures forall i {:trigger a[i]} :: 0 <= i < a.Length ==>
      a[i] == if dst <= i < dst + n then old(a[i - dst + src]) else old(a[i])
  {
    forall i | 0 <= i < n {
      a[dst + i] := a[src + i];
    }
  }

  /** memcpy from memory outside the buffer. */
  method CopyChars(a: array<char>, dst: nat, s: string)
    requires dst + |s| <= a.Length
    modifies a
    ensures forall i {:trigger a[i]} :: 0 <= i < a.Length ==>
      a[i] == if dst <= i < dst + |s| then s[i - dst] else old(a[i])
  {
    forall i | 0 <= i < |s| {
      a[dst + i] := s[i];
    }
  }

  method MoveBytes(a: array<byte>, dst: nat, src: nat, n: nat)
    requires dst + n <= a.Length && src + n <= a.Length
    modifies a
    ensures forall i {:trigger a[i]} :: 0 <= i < a.Length ==>
      a[i] == if dst <= i < dst + n then old(a[i - dst + src]) else old(a[i])
  {
    forall i | 0 <= i < n {
      a[dst + i] := a[src + i];
    }
  }

  method CopyBytes(a: array<byte>, dst: nat, s: seq<byte>)
    requires dst + |s| <= a.Length
    modifies a
    ensures forall i {:trigger a[i]} :: 0 <= i < a.Length ==>
      a[i] == if dst <= i < dst + |s| then s[i - dst] else old(a[i])
  {
    forall i | 0 <= i < |s| {
      a[dst + i] := s[i];
    }
  }
}
