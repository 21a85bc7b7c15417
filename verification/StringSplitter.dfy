/** CStringSplitterT<char>: a private copy of a text, cut in place into C strings. */
module StringSplitters {
  import opened CStrings
  import opened Splitting
  import opened Memory

  /** strchr for a character other than NUL: the offset of the first `c`, or -1. */
  function StrChr(s: string, c: char): (r: int)
    requires c != NUL
    ensures -1 <= r < |s|
    ensures r < 0 ==> c !in CText(s)
    ensures r >= 0 ==> r < |CText(s)| && CText(s)[r] == c && c !in CText(s)[..r]
  {
    if s == "" || s[0] == NUL then -1
    else if s[0] == c then 0
    else
      var r := StrChr(s[1..], c);
      assert CText(s) == [s[0]] + CText(s[1..]);
      assert r >= 0 ==> CText(s)[..r + 1] == [s[0]] + CText(s[1..])[..r];
      if r < 0 then -1 else r + 1
  }

  /** A C string `s` at offset `at`. */
  ghost predicate StringAt(mem: string, at: nat, s: string) {
    at + |s| < |mem| && mem[at..at + |s|] == s && mem[at + |s|] == NUL && NulFree(s)
  }

  lemma {:induction false} StringAtIsCText(mem: string, at: nat, s: string)
    requires StringAt(mem, at, s)
    ensures CText(mem[at..]) == s
  {
    assert mem[at..][..|s|] == s;
    StrLenIs(mem[at..], |s|);
  }

  /** The pieces cut off so far. */
  ghost predicate StringsAt(mem: string, starts: seq<nat>, pieces: seq<string>, upto: nat) {
    && |starts| == |pieces|
    && forall k {:trigger starts[k]} :: 0 <= k < |starts| ==>
         StringAt(mem, starts[k], pieces[k]) && starts[k] + |pieces[k]| < upto
  }

  lemma {:induction false} StringStays(mem: string, after: string, at: nat, s: string, upto: nat)
    requires StringAt(mem, at, s) && at + |s| < upto <= |mem| && |after| == |mem|
    requires after[..upto] == mem[..upto]
    ensures StringAt(after, at, s)
  {
    var end := at + |s|;
    assert after[..upto][at..end] == after[at..end] && mem[..upto][at..end] == mem[at..end];
    assert after[..upto][end] == after[end] && mem[..upto][end] == mem[end];
  }

  lemma {:induction false} StringsStay(mem: string, after: string, starts: seq<nat>, pieces: seq<string>, upto: nat)
    requires StringsAt(mem, starts, pieces, upto) && upto <= |mem| && |after| == |mem|
    requires after[..upto] == mem[..upto]
    ensures StringsAt(after, starts, pieces, upto)
  {
    forall k {:trigger starts[k]} | 0 <= k < |starts|
      ensures StringAt(after, starts[k], pieces[k])
    {
      StringStays(mem, after, starts[k], pieces[k], upto);
    }
  }

  /** The loop of Splitter at `src`: what is behind is cut, what is ahead is still the text. */
  ghost predicate CutTo(mem: string, text: string, sep: char, starts: seq<nat>, pieces: seq<string>, src: nat) {
    && src <= |text| < |mem|
    && NulFree(text)
    && StringAt(mem, src, text[src..])
    && StringsAt(mem, starts, pieces, src)
    && pieces + Pieces(text[src..], [sep]) == Pieces(text, [sep])
  }

  lemma {:induction false} AheadIsText(mem: string, text: string, sep: char, starts: seq<nat>, pieces: seq<string>,
                                       src: nat)
    requires CutTo(mem, text, sep, starts, pieces, src)
    ensures CText(mem[src..]) == text[src..]
  {
    StringAtIsCText(mem, src, text[src..]);
  }

  lemma {:induction false} CutPieces(text: string, sep: char, pieces: seq<string>, src: nat, at: nat)
    requires src <= at < |text| && text[at] == sep && sep !in text[src..at]
    ensures pieces + Pieces(text[src..], [sep]) == pieces + [text[src..at]] + Pieces(text[at + 1..], [sep])
  {
    assert text[src..] == text[src..at] + [sep] + text[at + 1..];
    PiecesOfFirst(text[src..at], sep, text[at + 1..]);
    var rest := Pieces(text[at + 1..], [sep]);
    assert pieces + ([text[src..at]] + rest) == pieces + [text[src..at]] + rest;
  }

  /** A NUL written into a C string makes two of it. */
  lemma {:induction false} CutInTwo(mem: string, src: nat, s: string, n: nat)
    requires StringAt(mem, src, s) && n < |s|
    ensures StringAt(mem[src + n := NUL], src, s[..n])
    ensures StringAt(mem[src + n := NUL], src + n + 1, s[n + 1..])
  {
    var after := mem[src + n := NUL];
    assert after[src..src + n] == mem[src..src + |s|][..n];
    assert after[src + n + 1..src + |s|] == mem[src..src + |s|][n + 1..];
  }

  lemma {:induction false} CutHere(mem: string, text: string, sep: char, starts: seq<nat>, pieces: seq<string>,
                                   src: nat, at: nat)
    requires CutTo(mem, text, sep, starts, pieces, src)
    requires src <= at < |text| && text[at] == sep && sep !in text[src..at]
    ensures CutTo(mem[at := NUL], text, sep, starts + [src], pieces + [text[src..at]], at + 1)
  {
    var after := mem[at := NUL];
    CutPieces(text, sep, pieces, src, at);
    CutInTwo(mem, src, text[src..], at - src);
    assert text[src..][..at - src] == text[src..at];
    assert text[src..][at - src + 1..] == text[at + 1..];
    assert after[..src] == mem[..src];
    StringsStay(mem, after, starts, pieces, src);
  }

  lemma {:induction false} LastPiece(mem: string, text: string, sep: char, starts: seq<nat>, pieces: seq<string>,
                                     src: nat)
    requires CutTo(mem, text, sep, starts, pieces, src) && sep !in text[src..]
    ensures StringsAt(mem, starts + [src], Pieces(text, [sep]), |mem|)
  {
    PiecesOfOne(text[src..], sep);
    assert StringAt(mem, src, text[src..]);
  }

  class StringSplitter {
    var buffer: array?<char>    // m_pBuffer
    var starts: seq<nat>        // m_StringList: pointers into the buffer

    ghost predicate Valid()
      reads this, buffer
    {
      && (starts != [] ==> buffer != null)
      && (buffer != null ==> forall k :: 0 <= k < |starts| ==> starts[k] <= buffer.Length)
    }

    /** The strings that the list points at. */
    ghost function Strings(): (ps: seq<string>)
      reads this, buffer
      requires Valid()
      ensures |ps| == |starts|
    {
      seq(|starts|, k requires 0 <= k < |starts| reads this, buffer requires Valid() => CText(buffer[starts[k]..]))
    }

    constructor ()
      ensures Valid() && Strings() == [] && buffer == null
    {
      buffer := null;
      starts := [];
    }

    /** Splitter on a fresh splitter.  The pieces are those between the separators of the
        text, of all of it if the length is 0 or too large: one more than there are separators,
        none with a separator in it, and joined by it they are that text again.  The caller's
        text is not touched. */
    method Splitter(p: CharPointer, sep: char, strLen: nat) returns (count: nat)
      requires Valid() && starts == [] && sep != NUL
      requires p.Chars? ==> NulFree(p.chars)
      modifies this, buffer
      ensures Valid() && count == |Strings()|
      ensures p.NullChars? ==> count == 0 && buffer == old(buffer)
      ensures p.Chars? ==>
                var text := if strLen == 0 || strLen > |p.chars| then p.chars else p.chars[..strLen];
                && Strings() == Pieces(text, [sep])
                && count == Count(text, sep) + 1
                && AllWithout(Strings(), sep)
                && Join(Strings(), [sep]) == text
      ensures fresh(buffer) || buffer == old(buffer)
    {
      if p.NullChars? {
        return 0;
      }
      ghost var text := if strLen == 0 || strLen > |p.chars| then p.chars else p.chars[..strLen];
      var length := if strLen == 0 then |p.chars| else strLen;
      var copy := CopyText(p.chars, length);
      buffer := copy;
      Cut(copy, sep, text);
      PiecesWithout(text, sep);
      JoinOfPieces(text, [sep]);
      PiecesCount(text, sep);
      count := |starts|;
    }

    /** new char[length + 1], strncpy_s, and the terminator. */
    static method CopyText(chars: string, length: nat) returns (copy: array<char>)
      requires NulFree(chars)
      ensures fresh(copy)
      ensures StringAt(copy[..], 0, if length > |chars| then chars else chars[..length])
    {
      copy := new char[length + 1];
      var part := if length > |chars| then chars else chars[..length];
      CopyChars(copy, 0, part);
      copy[|part|] := NUL;
      copy[length] := NUL;
    }

    /** The loop of Splitter. */
    method Cut(copy: array<char>, sep: char, ghost text: string)
      requires buffer == copy && starts == [] && sep != NUL && StringAt(copy[..], 0, text)
      modifies this`starts, copy
      ensures Valid() && Strings() == Pieces(text, [sep])
    {
      var src: nat := 0;
      ghost var pieces: seq<string> := [];
      assert text[0..] == text;
      var found := 0;
      while found >= 0
        invariant found >= 0 ==> CutTo(copy[..], text, sep, starts, pieces, src)
        invariant found < 0 ==> StringsAt(copy[..], starts, Pieces(text, [sep]), copy.Length)
        decreases if found < 0 then 0 else |text| + 1 - src
      {
        ghost var was := copy[..];
        AheadIsText(was, text, sep, starts, pieces, src);
        assert copy[src..] == was[src..];
        found := StrChr(copy[src..], sep);
        if found >= 0 {
          assert text[src..][..found] == text[src..src + found];
          CutHere(was, text, sep, starts, pieces, src, src + found);
          starts := starts + [src];
          copy[src + found] := NUL;
          assert copy[..] == was[src + found := NUL];
          pieces := pieces + [text[src..src + found]];
          src := src + found + 1;
        } else {
          LastPiece(was, text, sep, starts, pieces, src);
          starts := starts + [src];
        }
      }
      StringsAreHeld(text, sep);
    }

    lemma {:induction false} StringsAreHeld(text: string, sep: char)
      requires buffer != null && StringsAt(buffer[..], starts, Pieces(text, [sep]), buffer.Length)
      ensures Valid() && Strings() == Pieces(text, [sep])
    {
      var pieces := Pieces(text, [sep]);
      forall k | 0 <= k < |starts|
        ensures starts[k] <= buffer.Length && CText(buffer[starts[k]..]) == pieces[k]
      {
        assert StringAt(buffer[..], starts[k], pieces[k]);
        StringAtIsCText(buffer[..], starts[k], pieces[k]);
        assert buffer[starts[k]..] == buffer[..][starts[k]..];
      }
    }

    /** GetAt: the string, or NULL past the end of the list. */
    method GetAt(index: nat) returns (p: CharPointer)
      requires Valid()
      ensures p == if index < |Strings()| then Chars(Strings()[index]) else NullChars
    {
      if index < |starts| {
        p := Chars(CText(buffer[starts[index]..]));
      } else {
        p := NullChars;
      }
    }
  }
}
