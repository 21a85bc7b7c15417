/** CEasyStringT<char>: a growable buffer with a NUL after the text, edited in place. */
module EasyStrings {
  import opened Basics
  import opened CStrings
  import opened Memory
  import opened Replacement

  function Min(a: nat, b: nat): nat { if a < b then a else b }

  /** Find(pat, from) on a text: the start is clamped to the end, the search stops at a NUL. */
  function FindIn(s: string, pat: string, from: nat): (r: int)
    requires NulFree(pat)
    ensures -1 <= r <= |s|
  {
    var b := Min(from, |s|);
    var p := StrStr(s[b..], pat);
    if p < 0 then -1 else b + p
  }

  lemma {:induction false} CTextOfSuffix(s: string, from: nat)
    requires from <= |CText(s)|
    ensures CText(s[from..]) == CText(s)[from..]
  {
    var n := StrLen(s);
    assert s[from..][..n - from] == s[..n][from..];
    StrLenIs(s[from..], n - from);
  }

  /** Find answers with the first match at or after the start, if there is one. */
  lemma {:induction false} FindIsFirst(s: string, pat: string, from: nat)
    requires NulFree(pat) && from <= |CText(s)|
    ensures
      var r := FindIn(s, pat, from);
      if r >= 0 then IsNext(CText(s), pat, from, r) else NoneIn(CText(s), pat, from, |CText(s)| + 1)
  {
    CTextOfSuffix(s, from);
    var t := CText(s);
    forall j | from <= j
      ensures OccursAt(t, pat, j) == OccursAt(t[from..], pat, j - from)
    {
      SuffixOccurs(t, pat, from, j);
    }
  }

  lemma {:induction false} StrStrIsFirst(u: string, pat: string)
    requires NulFree(pat)
    ensures var r, seen := StrStr(u, pat), CText(u);
      if r >= 0 then IsNext(seen, pat, 0, r) else NoneIn(seen, pat, 0, |seen| + 1)
  {
  }

  /** From any start, behind a NUL inside the text too: the first match in what C sees from
      there, if there is one. */
  lemma {:induction false} FindFromAnywhere(s: string, pat: string, from: nat, b: nat, seen: string)
    requires NulFree(pat) && b == Min(from, |s|) && seen == CText(s[b..])
    ensures
      var r := FindIn(s, pat, from);
      if r >= 0 then IsNext(seen, pat, 0, r - b) else NoneIn(seen, pat, 0, |seen| + 1)
  {
    StrStrIsFirst(s[b..], pat);
  }

  lemma {:induction false} SuffixOccurs(t: string, pat: string, from: nat, j: nat)
    requires from <= |t| && from <= j
    ensures OccursAt(t, pat, j) == OccursAt(t[from..], pat, j - from)
  {
    if j + |pat| <= |t| {
      assert t[j..j + |pat|] == t[from..][j - from..j - from + |pat|];
    }
  }

  function DeleteText(s: string, start: nat, len: nat): string {
    if start < |s| then s[..start] + s[Min(start + len, |s|)..] else s
  }

  function InsertText(s: string, pos: nat, ins: string): string {
    if pos <= |s| then s[..pos] + ins + s[pos..] else s
  }

  lemma {:induction false} DeletedPointwise(t: string, s: string, start: nat, n: nat, len: nat)
    requires start < |s| && start + n == Min(start + len, |s|) && |t| == |s| - n
    requires forall i {:trigger t[i]} :: 0 <= i < |t| ==> t[i] == if i < start then s[i] else s[i + n]
    ensures t == DeleteText(s, start, len)
  {
    var u := s[..start] + s[start + n..];
    forall i | 0 <= i < |t|
      ensures t[i] == u[i]
    {
    }
    assert t == u;
  }

  lemma {:induction false} InsertedPointwise(t: string, s: string, pos: nat, ins: string)
    requires pos <= |s| && |t| == |s| + |ins|
    requires forall i {:trigger t[i]} :: 0 <= i < |t| ==>
      t[i] == if i < pos then s[i] else if i < pos + |ins| then ins[i - pos] else s[i - |ins|]
    ensures t == InsertText(s, pos, ins)
  {
    var u := s[..pos] + ins + s[pos..];
    forall i | 0 <= i < |t|
      ensures t[i] == u[i]
    {
    }
    assert t == u;
  }

  /** Remove(str): delete the first occurrence until there is none. */
  function RemoveAll(s: string, pat: string): (r: string)
    requires NulFree(pat)
    ensures |r| <= |s|
    ensures pat != "" ==> FindIn(r, pat, 0) < 0
    decreases |s|
  {
    if pat == "" || FindIn(s, pat, 0) < 0 then s
    else RemoveAll(DeleteText(s, FindIn(s, pat, 0), |pat|), pat)
  }

  class EasyString {
    var buffer: array<char>
    var bufferSize: nat
    var stringLength: nat

    ghost predicate Valid()
      reads this, buffer
    {
      && bufferSize == buffer.Length
      && stringLength < bufferSize
      && buffer[stringLength] == NUL
    }

    ghost function Text(): string
      requires Valid()
      reads this, buffer
    {
      buffer[..stringLength]
    }

    constructor ()
      ensures Valid() && fresh(buffer) && Text() == ""
    {
      buffer := new char[1];
      bufferSize := 1;
      stringLength := 0;
      new;
      buffer[0] := NUL;
    }

    /** From `size` characters of memory.  A NULL pointer leaves all but the length open. */
    constructor FromChars(p: CharPointer, size: nat)
      requires p.Chars? ==> |p.chars| == size
      ensures Valid() && fresh(buffer) && |Text()| == size
      ensures p.Chars? ==> Text() == p.chars
    {
      buffer := new char[1];
      bufferSize := 1;
      stringLength := 0;
      new;
      buffer[0] := NUL;
      SetString(p, size);
    }

    method Resize(size: nat, reserveData: bool)
      requires Valid()
      modifies this
      ensures Valid() && fresh(buffer) && bufferSize == size + 1
      ensures Text() == if reserveData then old(Text())[..Min(size, old(stringLength))] else ""
    {
      var newBuffer := new char[size + 1];
      var newStringLen := 0;
      if reserveData {
        newStringLen := Min(size, stringLength);
        CopyChars(newBuffer, 0, buffer[..newStringLen]);
      }
      newBuffer[newStringLen] := NUL;
      newBuffer[size] := NUL;
      bufferSize := size + 1;
      stringLength := newStringLen;
      buffer := newBuffer;
    }

    method Clear()
      requires Valid()
      modifies this
      ensures Valid() && fresh(buffer) && Text() == ""
    {
      Resize(0, false);
    }

    /** Copies `size` characters.  A NULL pointer only sets the length: what was in the buffer
        becomes text, or anything if a new buffer was needed. */
    method SetString(p: CharPointer, size: nat)
      requires Valid() && (p.Chars? ==> |p.chars| == size)
      modifies this, buffer
      ensures Valid() && (buffer == old(buffer) || fresh(buffer)) && |Text()| == size
      ensures p.Chars? ==> Text() == p.chars
      ensures p.NullChars? && size < old(bufferSize) ==> Text() == old(buffer[..size])
    {
      if size > 0 {
        if size + 1 > bufferSize {
          Resize(size, false);
        }
        if p.Chars? {
          CopyChars(buffer, 0, p.chars);
        }
        buffer[size] := NUL;
        stringLength := size;
      } else {
        Clear();
      }
    }

    /** Copies `size` characters behind the text; a NULL pointer only extends the length. */
    method AppendString(p: CharPointer, size: nat)
      requires Valid() && (p.Chars? ==> |p.chars| == size)
      modifies this, buffer
      ensures Valid() && (buffer == old(buffer) || fresh(buffer))
      ensures old(Text()) <= Text() && |Text()| == old(|Text()|) + size
      ensures p.Chars? ==> Text() == old(Text()) + p.chars
      ensures p.NullChars? && old(stringLength) + size < old(bufferSize)
              ==> Text() == old(buffer[..stringLength + size])
    {
      if size > 0 {
        if stringLength + size >= bufferSize {
          Resize(stringLength + size, true);
        }
        if p.Chars? {
          CopyChars(buffer, stringLength, p.chars);
        }
        buffer[stringLength + size] := NUL;
        stringLength := stringLength + size;
      }
    }

    method Delete(startPos: nat, len: nat)
      requires Valid() && startPos + len < SIZE_LIMIT
      modifies this`stringLength, buffer
      ensures Valid() && buffer == old(buffer)
      ensures Text() == DeleteText(old(Text()), startPos, len)
      ensures startPos >= old(stringLength) ==> Text() == old(Text())
      ensures startPos < old(stringLength) && startPos + len >= old(stringLength) ==> Text() == old(Text())[..startPos]
      ensures startPos + len < old(stringLength) ==> Text() == old(Text())[..startPos] + old(Text())[startPos + len..]
    {
      if startPos < stringLength {
        var n := len;
        if startPos + n > stringLength {
          n := stringLength - startPos;
        }
        MoveChars(buffer, startPos, startPos + n, stringLength - startPos - n);
        stringLength := stringLength - n;
        buffer[stringLength] := NUL;
        DeletedPointwise(Text(), old(Text()), startPos, n, len);
      }
    }

    /** `mem` is what `pStr` points at, up to its NUL or to the given size; a size of 0
        means "measure it". */
    method Insert(pos: nat, mem: string, strLen: nat)
      requires Valid() && strLen <= |mem|
      modifies this, buffer
      ensures Valid() && (buffer == old(buffer) || fresh(buffer))
      ensures Text() == InsertText(old(Text()), pos, if strLen == 0 then CText(mem) else mem[..strLen])
      ensures pos > old(stringLength) ==> Text() == old(Text())
      ensures pos <= old(stringLength) ==>
        Text() == old(Text())[..pos] + (if strLen == 0 then CText(mem) else mem[..strLen]) + old(Text())[pos..]
    {
      if pos <= stringLength {
        var n := strLen;
        if n == 0 {
          n := StrLen(mem);
        }
        OpenGap(pos, n);
        CopyChars(buffer, pos, mem[..n]);
        stringLength := stringLength + n;
        buffer[stringLength] := NUL;
        InsertedPointwise(Text(), old(Text()), pos, mem[..n]);
      }
    }

    /** The first half of Insert: grow if needed, then move the characters from `pos` on. */
    method OpenGap(pos: nat, n: nat)
      requires Valid() && pos <= stringLength
      modifies this, buffer
      ensures buffer == old(buffer) || fresh(buffer)
      ensures stringLength == old(stringLength) && bufferSize == buffer.Length > stringLength + n
      ensures forall i :: 0 <= i < pos ==> buffer[i] == old(Text())[i]
      ensures forall i {:trigger buffer[i]} :: pos + n <= i < stringLength + n ==> buffer[i] == old(Text())[i - n]
    {
      var newStrLen := stringLength + n;
      if newStrLen >= bufferSize {
        Resize(newStrLen, true);
      }
      assert forall i :: 0 <= i < stringLength ==> buffer[i] == Text()[i] == old(Text())[i];
      MoveChars(buffer, pos + n, pos, stringLength - pos);
    }

    method Find(pat: string, startPos: nat) returns (r: Int32)
      requires Valid() && NulFree(pat) && stringLength < INT_LIMIT
      ensures r == FindIn(Text(), pat, startPos)
    {
      var from := startPos;
      if from > stringLength {
        from := stringLength;
      }
      var p := StrStr(buffer[from..bufferSize], pat);
      assert buffer[from..bufferSize] == Text()[from..] + [NUL] + buffer[stringLength + 1..bufferSize];
      StrStrStopsAtNul(Text()[from..], buffer[stringLength + 1..bufferSize], pat);
      if p < 0 {
        r := -1;
      } else {
        r := from + p;
      }
    }

    /** strchr finds the terminator when asked for NUL. */
    method FindChar(c: char, startPos: nat) returns (r: Int32)
      requires Valid() && stringLength < INT_LIMIT
      ensures c != NUL ==> r == FindIn(Text(), [c], startPos)
      ensures c == NUL ==> r == Min(startPos, |Text()|) + StrLen(Text()[Min(startPos, |Text()|)..])
    {
      if c == NUL {
        var from := Min(startPos, stringLength);
        r := from + StrLen(buffer[from..stringLength]);
        assert buffer[from..stringLength] == Text()[from..];
      } else {
        r := Find([c], startPos);
      }
    }

    /** Remove(char).  Asked to remove NUL, the source would find the terminator for ever. */
    method RemoveChar(c: char)
      requires Valid() && c != NUL && stringLength < INT_LIMIT
      modifies this`stringLength, buffer
      ensures Valid() && buffer == old(buffer)
      ensures Text() == RemoveAll(old(Text()), [c])
    {
      var pos := FindChar(c, 0);
      while pos >= 0
        invariant Valid() && buffer == old(buffer) && stringLength < INT_LIMIT
        invariant pos == FindIn(Text(), [c], 0)
        invariant RemoveAll(Text(), [c]) == RemoveAll(old(Text()), [c])
        decreases stringLength
      {
        Delete(pos, 1);
        pos := FindChar(c, 0);
      }
    }

    method Remove(pat: string)
      requires Valid() && NulFree(pat) && stringLength < INT_LIMIT
      modifies this`stringLength, buffer
      ensures Valid() && buffer == old(buffer)
      ensures Text() == RemoveAll(old(Text()), pat)
    {
      var len := |pat|;
      if len > 0 {
        var pos := Find(pat, 0);
        while pos >= 0
          invariant Valid() && buffer == old(buffer) && stringLength < INT_LIMIT
          invariant pos == FindIn(Text(), pat, 0)
          invariant RemoveAll(Text(), pat) == RemoveAll(old(Text()), pat)
          decreases stringLength
        {
          FindStays(Text(), pat, 0);
          Delete(pos, len);
          pos := Find(pat, 0);
        }
      }
    }

    method SubStr(start: nat, number: nat) returns (r: EasyString)
      requires Valid() && start + number < SIZE_LIMIT
      ensures fresh(r) && fresh(r.buffer) && r.Valid()
      ensures r.Text() == Text()[Min(start, |Text()|)..Min(start + number, |Text()|)]
    {
      var from, n := start, number;
      if from > stringLength {
        from := stringLength;
      }
      if from + n > stringLength {
        n := stringLength - from;
      }
      r := Slice(from, n);
    }

    method Slice(from: nat, n: nat) returns (r: EasyString)
      requires Valid() && from + n <= stringLength
      ensures fresh(r) && fresh(r.buffer) && r.Valid() && r.Text() == Text()[from..from + n]
    {
      r := new EasyString.FromChars(Chars(buffer[from..from + n]), n);
    }

    method Left(number: nat) returns (r: EasyString)
      requires Valid()
      ensures fresh(r) && fresh(r.buffer) && r.Valid()
      ensures r.Text() == Text()[..Min(number, |Text()|)]
    {
      if number > stringLength {
        r := Slice(0, stringLength);
      } else {
        r := Slice(0, number);
      }
    }

    method Right(number: nat) returns (r: EasyString)
      requires Valid()
      ensures fresh(r) && fresh(r.buffer) && r.Valid()
      ensures r.Text() == Text()[|Text()| - Min(number, |Text()|)..]
    {
      if number > stringLength {
        r := Slice(0, stringLength);
      } else {
        r := Slice(stringLength - number, number);
      }
    }

    method ReplaceChar(oldChar: char, newChar: char)
      requires Valid()
      modifies buffer
      ensures Valid() && |Text()| == old(|Text()|)
      ensures forall i :: 0 <= i < |Text()| ==>
        Text()[i] == if old(Text()[i]) == oldChar then newChar else old(Text()[i])
    {
      if oldChar != newChar {
        var i := 0;
        while i < stringLength
          invariant 0 <= i <= stringLength
          invariant Valid()
          invariant forall j :: 0 <= j < i ==>
            buffer[j] == if old(buffer[j]) == oldChar then newChar else old(buffer[j])
          invariant forall j :: i <= j < stringLength ==> buffer[j] == old(buffer[j])
        {
          if buffer[i] == oldChar {
            buffer[i] := newChar;
          }
          i := i + 1;
        }
      }
    }

    /** Replace(old, new): collect the match positions, then rewrite the same buffer from
        the right when the text grows and from the left when it shrinks. */
    method Replace(oldStr: string, newStr: string)
      requires Valid() && NulFree(oldStr) && NulFree(newStr)
      requires oldStr != "" || newStr == ""  // the source divides by strlen(oldStr)
      requires |Text()| < INT_LIMIT && |oldStr| < INT_LIMIT && |newStr| < INT_LIMIT
      requires |ReplaceText(Text(), oldStr, newStr)| < INT_LIMIT
      modifies this, buffer
      ensures Valid() && (buffer == old(buffer) || fresh(buffer))
      ensures Text() == ReplaceText(old(Text()), oldStr, newStr)
      ensures var seen := CText(old(Text()));
        Text() == ReplaceAll(seen, oldStr, newStr) + old(Text())[|seen|..]
    {
      if oldStr != newStr {
        var replacePos := AllocatePositions(oldStr);
        var count := CollectMatches(oldStr, replacePos);
        RewriteMatches(replacePos, count, oldStr, newStr);
      } else {
        ReplaceBySame(Text(), oldStr);
      }
    }

    /** The second half of Replace: make room if needed, then choose the pass. */
    method RewriteMatches(replacePos: array<Int32>, count: Int32, oldStr: string, newStr: string)
      requires Valid() && stringLength < INT_LIMIT
      requires 0 < |oldStr| < INT_LIMIT && |newStr| < INT_LIMIT
      requires |ReplaceText(Text(), oldStr, newStr)| < INT_LIMIT
      requires 0 <= count < replacePos.Length
      requires AllMatches(CText(Text()), oldStr, replacePos[..count])
      modifies this, buffer, replacePos
      ensures Valid() && (buffer == old(buffer) || fresh(buffer))
      ensures Text() == ReplaceText(old(Text()), oldStr, newStr)
    {
      ghost var text := Text();
      var srcLen: Int32, destLen: Int32 := |oldStr|, |newStr|;
      PlacedEnds(text, oldStr, newStr, replacePos[..count]);
      OffsetIsMultiple(count, destLen - srcLen);
      var newStrLen: Int32 := stringLength + count * (destLen - srcLen);
      if newStrLen >= bufferSize {
        Resize(newStrLen, true);
      }
      assert forall i :: 0 <= i < |text| ==> buffer[i] == Text()[i] == text[i];
      if newStrLen >= stringLength {
        GrowPass(replacePos, count, newStr, newStrLen, text, oldStr);
      } else {
        ShrinkPass(replacePos, count, srcLen, newStr, newStrLen, text, oldStr);
      }
      stringLength := newStrLen;
      buffer[stringLength] := NUL;
    }

    /** An array with room for every match there can be, and a sentinel. */
    method AllocatePositions(pat: string) returns (replacePos: array<Int32>)
      requires Valid() && pat != ""
      ensures fresh(replacePos)
      ensures forall ps :: Matches(CText(Text()), pat, ps) ==> |ps| + 1 < replacePos.Length
    {
      replacePos := new Int32[stringLength / |pat| + 2];
      forall ps | Matches(CText(Text()), pat, ps)
        ensures |ps| + 1 < replacePos.Length
      {
        RoomForOneMore(CText(Text()), pat, ps, stringLength);
      }
    }

    /** The search loop of Replace.  The positions and one sentinel fit the array. */
    method CollectMatches(pat: string, replacePos: array<Int32>) returns (count: Int32)
      requires Valid() && NulFree(pat) && pat != ""
      requires |pat| < INT_LIMIT && stringLength < INT_LIMIT
      requires forall ps :: Matches(CText(Text()), pat, ps) ==> |ps| + 1 < replacePos.Length
      modifies replacePos
      ensures 0 <= count && count + 1 < replacePos.Length
      ensures AllMatches(CText(Text()), pat, replacePos[..count])
    {
      ghost var t := CText(Text());
      var srcLen: Int32 := |pat|;
      var startPos: Int32 := 0;
      count := 0;
      var findPos := Find(pat, startPos);
      FindIsFirst(Text(), pat, 0);
      while findPos >= 0
        invariant 0 <= count < replacePos.Length
        invariant Matches(t, pat, replacePos[..count])
        invariant startPos == Start(replacePos[..count], |pat|, count)
        invariant count <= startPos <= |t|
        invariant if findPos >= 0 then IsNext(t, pat, startPos, findPos) else NoneIn(t, pat, startPos, |t| + 1)
        decreases |t| - startPos
      {
        ghost var ps := replacePos[..count];
        MatchesExtend(t, pat, ps, findPos);
        assert |ps + [findPos]| + 1 < replacePos.Length;
        replacePos[count] := findPos;
        count := count + 1;
        assert replacePos[..count] == ps + [findPos];
        startPos := findPos + srcLen;
        findPos := Find(pat, startPos);
        FindIsFirst(Text(), pat, startPos);
      }
      assert |replacePos[..count]| + 1 < replacePos.Length;
    }

    /** The right-to-left pass: the copy of what follows a match ends up at or to the right
        of where it was read, so nothing unread is overwritten. */
    method GrowPass(replacePos: array<Int32>, replaceCount: Int32, newStr: string, newStrLen: Int32,
                    ghost text: string, pat: string)
      requires bufferSize == buffer.Length && |text| == stringLength <= newStrLen < bufferSize
      requires forall i :: 0 <= i < |text| ==> buffer[i] == text[i]
      requires 0 < |pat| < INT_LIMIT && |newStr| < INT_LIMIT
      requires 0 <= replaceCount < replacePos.Length
      requires AllMatches(CText(text), pat, replacePos[..replaceCount])
      requires newStrLen == |text| + Offset(replaceCount, |newStr| - |pat|)
      modifies buffer
      ensures buffer[..newStrLen] == ReplaceText(text, pat, newStr)
    {
      ghost var ps, r, d := replacePos[..replaceCount], ReplaceText(text, pat, newStr), |newStr| - |pat|;
      var srcLen: Int32, destLen: Int32 := |pat|, |newStr|;
      var count := replaceCount;
      var srcPos: Int32 := stringLength;
      var destPos: Int32 := newStrLen;
      PlacedEnds(text, pat, newStr, ps);
      while count > 0
        invariant 0 <= count <= replaceCount
        invariant srcPos == PieceEnd(text, ps, count) && 0 <= srcPos <= |text|
        invariant destPos - srcPos == Offset(count, d) && srcPos <= destPos <= newStrLen == |r|
        invariant forall i :: 0 <= i < srcPos ==> buffer[i] == text[i]
        invariant forall i :: destPos <= i < newStrLen ==> buffer[i] == r[i]
      {
        count := count - 1;
        Placed(text, pat, newStr, ps, count);
        OffsetSign(replaceCount, count, d);
        var oldSrcPos := srcPos;
        srcPos := replacePos[count] + srcLen;
        var copySize := oldSrcPos - srcPos;
        destPos := destPos - copySize;
        PlaceFromRight(srcPos, copySize, destPos, newStr, srcPos - srcLen, r, text);
        srcPos := srcPos - srcLen;
        destPos := destPos - destLen;
      }
    }

    /** One round of the right-to-left pass: move the piece, then put the new string before it.
        `r` is the text to be built, `text` the one being read. */
    method PlaceFromRight(srcPos: nat, copySize: nat, destPos: nat, newStr: string, ghost keep: nat,
                          ghost r: string, ghost text: string)
      requires srcPos + copySize <= |text| <= |r| <= buffer.Length && destPos + copySize <= |r|
      requires keep + |newStr| <= destPos && srcPos <= destPos && keep <= srcPos
      requires forall i :: 0 <= i < srcPos + copySize ==> buffer[i] == text[i]
      requires forall i :: destPos + copySize <= i < |r| ==> buffer[i] == r[i]
      requires forall i {:trigger r[i]} :: destPos - |newStr| <= i < destPos ==> r[i] == newStr[i - destPos + |newStr|]
      requires forall i {:trigger r[i]} :: destPos <= i < destPos + copySize ==> r[i] == text[i - destPos + srcPos]
      modifies buffer
      ensures forall i :: 0 <= i < keep ==> buffer[i] == text[i]
      ensures forall i :: destPos - |newStr| <= i < |r| ==> buffer[i] == r[i]
    {
      if srcPos != destPos && copySize != 0 {
        MoveChars(buffer, destPos, srcPos, copySize);
      }
      if |newStr| != 0 {
        CopyChars(buffer, destPos - |newStr|, newStr);
      }
    }

    /** The left-to-right pass: it writes at or to the left of where it reads. */
    method ShrinkPass(replacePos: array<Int32>, replaceCount: Int32, srcLen: Int32, newStr: string, newStrLen: Int32,
                      ghost text: string, ghost pat: string)
      requires bufferSize == buffer.Length && 0 <= newStrLen < stringLength == |text| < bufferSize
      requires |text| < INT_LIMIT && forall i :: 0 <= i < |text| ==> buffer[i] == text[i]
      requires 0 < |pat| == srcLen && |newStr| < INT_LIMIT
      requires 0 <= replaceCount < replacePos.Length
      requires AllMatches(CText(text), pat, replacePos[..replaceCount])
      requires newStrLen == |text| + Offset(replaceCount, |newStr| - |pat|)
      modifies buffer, replacePos
      ensures buffer[..newStrLen] == ReplaceText(text, pat, newStr)
    {
      ghost var ps, r, d := replacePos[..replaceCount], ReplaceText(text, pat, newStr), |newStr| - |pat|;
      PlacedEnds(text, pat, newStr, ps);
      replacePos[replaceCount] := stringLength;
      var srcPos := replacePos[0];
      var destPos := replacePos[0];
      var i := 0;
      while i < replaceCount
        modifies buffer
        invariant 0 <= i <= replaceCount
        invariant forall j :: 0 <= j <= replaceCount ==> replacePos[j] == PieceEnd(text, ps, j)
        invariant srcPos == PieceEnd(text, ps, i) && 0 <= srcPos <= |text|
        invariant destPos - srcPos == Offset(i, d) && 0 <= destPos <= srcPos && destPos <= |r|
        invariant forall j :: 0 <= j < destPos ==> buffer[j] == r[j]
        invariant forall j :: srcPos <= j < |text| ==> buffer[j] == text[j]
      {
        assert replacePos[i + 1] == PieceEnd(text, ps, i + 1);
        destPos, srcPos := ShrinkRound(destPos, srcPos, srcLen, replacePos[i + 1], newStr, text, pat, ps, i);
        i := i + 1;
      }
    }

    /** One round of the loop, for match `i`. */
    method ShrinkRound(dest: Int32, src: Int32, srcLen: Int32, next: Int32, newStr: string,
                       ghost text: string, ghost pat: string, ghost ps: seq<int>, ghost i: nat)
        returns (destPos: Int32, srcPos: Int32)
      requires 0 < |pat| == srcLen && |newStr| < INT_LIMIT && |text| <= buffer.Length && |text| < INT_LIMIT
      requires AllMatches(CText(text), pat, ps) && i < |ps|
      requires src == PieceEnd(text, ps, i) && next == PieceEnd(text, ps, i + 1)
      requires Offset(|ps|, |newStr| - |pat|) < 0 && dest - src == Offset(i, |newStr| - |pat|)
      requires 0 <= dest <= src <= |text| && dest <= |ReplaceText(text, pat, newStr)|
      requires forall j :: 0 <= j < dest ==> buffer[j] == ReplaceText(text, pat, newStr)[j]
      requires forall j :: src <= j < |text| ==> buffer[j] == text[j]
      modifies buffer
      ensures srcPos == next <= |text| && destPos - srcPos == Offset(i + 1, |newStr| - |pat|)
      ensures 0 <= destPos <= srcPos && destPos <= |ReplaceText(text, pat, newStr)|
      ensures forall j :: 0 <= j < destPos ==> buffer[j] == ReplaceText(text, pat, newStr)[j]
      ensures forall j :: srcPos <= j < |text| ==> buffer[j] == text[j]
    {
      Placed(text, pat, newStr, ps, i);
      OffsetSign(|ps|, i + 1, |newStr| - |pat|);
      var destLen: Int32 := |newStr|;
      srcPos := src + srcLen;
      var copySize := next - srcPos;
      PlaceFromLeft(dest, newStr, srcPos, copySize, ReplaceText(text, pat, newStr), text);
      destPos := dest + destLen + copySize;
      srcPos := srcPos + copySize;
    }

    /** One round of the left-to-right pass: put the new string, then move the piece behind it.
        `r` is the text to be built, `text` the one being read. */
    method PlaceFromLeft(destPos: nat, newStr: string, srcPos: nat, copySize: nat, ghost r: string, ghost text: string)
      requires destPos + |newStr| <= srcPos && srcPos + copySize <= |text| <= buffer.Length
      requires destPos + |newStr| + copySize <= |r|
      requires forall i :: 0 <= i < destPos ==> buffer[i] == r[i]
      requires forall i :: srcPos <= i < |text| ==> buffer[i] == text[i]
      requires forall i {:trigger r[i]} :: destPos <= i < destPos + |newStr| ==> r[i] == newStr[i - destPos]
      requires forall i {:trigger r[i]} :: destPos + |newStr| <= i < destPos + |newStr| + copySize ==>
        r[i] == text[i - destPos - |newStr| + srcPos]
      modifies buffer
      ensures forall i :: 0 <= i < destPos + |newStr| + copySize ==> buffer[i] == r[i]
      ensures forall i :: srcPos + copySize <= i < |text| ==> buffer[i] == text[i]
    {
      if |newStr| != 0 {
        CopyChars(buffer, destPos, newStr);
      }
      if srcPos != destPos + |newStr| && copySize != 0 {
        MoveChars(buffer, destPos + |newStr|, srcPos, copySize);
      }
    }
  }

  /** Another match leaves room for the sentinel. */
  lemma {:induction false} RoomForOneMore(t: string, pat: string, ps: seq<int>, n: nat)
    requires pat != "" && |t| <= n && Matches(t, pat, ps)
    ensures |ps| <= n / |pat|
  {
    MatchesAreFew(t, pat, ps);
    if |ps| > n / |pat| {
      MulMono(n / |pat| + 1, |ps|, |pat|);
    }
  }

  lemma {:induction false} MulMono(a: nat, b: nat, c: nat)
    requires a <= b
    ensures a * c <= b * c
  {
  }

  /** A match found by Find lies inside the text. */
  lemma {:induction false} FindStays(s: string, pat: string, from: nat)
    requires NulFree(pat)
    ensures FindIn(s, pat, from) >= 0 ==> FindIn(s, pat, from) + |pat| <= |s|
  {
  }
}
