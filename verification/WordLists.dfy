/** The IDL generator's word list: words lie back to back in one block of memory, each with
    its NUL, and `ppWords` points at them. */
module WordLists {
  import opened CStrings
  import opened Memory
  import opened Splitting

  /** Words back to back. */
  function Stored(words: seq<string>): string {
    if words == [] then "" else Stored(words[..|words| - 1]) + words[|words| - 1] + [NUL]
  }

  function Glued(words: seq<string>): string {
    if words == [] then "" else Glued(words[..|words| - 1]) + words[|words| - 1]
  }

  ghost predicate AllNulFree(words: seq<string>) {
    forall k :: 0 <= k < |words| ==> NulFree(words[k])
  }

  ghost predicate HoldsAt(mem: string, at: nat, s: string) {
    at + |s| <= |mem| && mem[at..at + |s|] == s
  }

  /** Gluing is joining with nothing in between. */
  lemma {:induction false} GluedIsJoined(words: seq<string>)
    ensures Glued(words) == Join(words, "")
  {
    if words != [] {
      var n := |words| - 1;
      GluedIsJoined(words[..n]);
      JoinedOn(words[..n], words[n]);
      assert words[..n] + [words[n]] == words;
    }
  }

  lemma {:induction false} JoinedOn(words: seq<string>, w: string)
    ensures Join(words + [w], "") == Join(words, "") + w
  {
    if |words| > 1 {
      JoinedOn(words[1..], w);
      assert (words + [w])[1..] == words[1..] + [w];
    } else if |words| == 1 {
      assert (words + [w])[1..] == [w];
    }
  }

  /** Gluing drops one NUL per word. */
  lemma {:induction false} GluedIsShorter(words: seq<string>)
    ensures |Stored(words)| == |Glued(words)| + |words|
  {
    if words != [] {
      GluedIsShorter(words[..|words| - 1]);
    }
  }

  lemma {:induction false} StoredPrefix(words: seq<string>, k: nat)
    requires k < |words|
    ensures |Stored(words[..k])| + |words[k]| + 1 <= |Stored(words)|
    ensures Stored(words)[..|Stored(words[..k])|] == Stored(words[..k])
    ensures var at := |Stored(words[..k])|;
      Stored(words)[at..at + |words[k]| + 1] == words[k] + [NUL]
  {
    var n := |words| - 1;
    if k == n {
    } else {
      StoredPrefix(words[..n], k);
      assert words[..n][..k] == words[..k];
    }
  }

  lemma {:induction false} StrLenOfWord(mem: string, at: nat, word: string)
    requires NulFree(word) && HoldsAt(mem, at, word + [NUL])
    ensures StrLen(mem[at..]) == |word|
  {
    var s := mem[at..];
    assert s[..|word|] == (word + [NUL])[..|word|] == word;
    assert s[|word|] == (word + [NUL])[|word|];
    StrLenIs(s, |word|);
  }

  ghost predicate SameOutside(mem: string, was: string, at: nat, end: nat) {
    at <= end <= |was| == |mem| && mem[..at] == was[..at] && mem[end..] == was[end..]
  }

  /** After `i` words have been moved up: they are glued together, the rest is as it was. */
  ghost predicate GluedSoFar(mem: string, before: string, at: nat, words: seq<string>, i: nat)
    requires i <= |words|
  {
    && HoldsAt(before, at, Stored(words))
    && HoldsAt(mem, at, Glued(words[..i]))
    && SameOutside(mem, before, at, at + |Stored(words[..i])|)
  }

  lemma {:induction false} SliceOfHeld(mem: string, at: nat, s: string, p: nat, n: nat)
    requires HoldsAt(mem, at, s) && p + n <= |s|
    ensures HoldsAt(mem, at + p, s[p..p + n])
  {
    var held, part := mem[at..at + |s|], mem[at + p..at + p + n];
    forall k | 0 <= k < n
      ensures part[k] == s[p..p + n][k]
    {
      assert held[p + k] == mem[at + p + k];
    }
  }

  lemma {:induction false} HoldsBoth(mem: string, at: nat, g: string, s: string)
    requires HoldsAt(mem, at, g) && HoldsAt(mem, at + |g|, s)
    ensures HoldsAt(mem, at, g + s)
  {
    var m, e := at + |g|, at + |g| + |s|;
    assert mem[at..e] == mem[at..m] + mem[m..e];
    assert at + |g + s| == e;
  }

  lemma {:induction false} HeldAhead(mem: string, was: string, p: nat, s: string)
    requires |mem| == |was| && HoldsAt(was, p, s) && mem[p..] == was[p..]
    ensures HoldsAt(mem, p, s)
  {
    assert mem[p..p + |s|] == mem[p..][..|s|] && was[p..p + |s|] == was[p..][..|s|];
  }

  lemma {:induction false} NextWord(mem: string, before: string, at: nat, words: seq<string>, i: nat)
    requires i < |words| && GluedSoFar(mem, before, at, words, i)
    ensures HoldsAt(mem, at + |Stored(words[..i])|, words[i] + [NUL])
    ensures |Stored(words[..i])| == |Glued(words[..i])| + i
  {
    GluedIsShorter(words[..i]);
    StoredPrefix(words, i);
    var p := |Stored(words[..i])|;
    SliceOfHeld(before, at, Stored(words), p, |words[i]| + 1);
    HeldAhead(mem, before, at + p, words[i] + [NUL]);
  }

  lemma {:induction false} GluedOn(words: seq<string>, i: nat)
    requires i < |words|
    ensures Glued(words[..i + 1]) == Glued(words[..i]) + words[i]
    ensures Stored(words[..i + 1]) == Stored(words[..i]) + words[i] + [NUL]
  {
    assert words[..i + 1][..i] == words[..i];
  }

  /** The memory after memmove. */
  function Moved(was: string, dst: nat, src: nat, n: nat): string
    requires dst + n <= |was| && src + n <= |was|
  {
    was[..dst] + was[src..src + n] + was[dst + n..]
  }

  lemma {:induction false} MovedString(was: string, dst: nat, src: nat, s: string)
    requires HoldsAt(was, src, s) && dst <= src
    ensures var mem := Moved(was, dst, src, |s|);
      && HoldsAt(mem, dst, s)
      && mem[..dst] == was[..dst] && mem[src + |s|..] == was[src + |s|..]
  {
    var mem := Moved(was, dst, src, |s|);
    assert mem[dst..dst + |s|] == was[src..src + |s|];
  }

  lemma {:induction false} SamePrefix(mem: string, was: string, at: nat, n: nat, g: string)
    requires |mem| == |was| && at <= n <= |was| && mem[..n] == was[..n] && at + |g| <= n && HoldsAt(was, at, g)
    ensures HoldsAt(mem, at, g) && mem[..at] == was[..at]
  {
    assert mem[..n][at..at + |g|] == mem[at..at + |g|] && was[..n][at..at + |g|] == was[at..at + |g|];
    assert mem[..n][..at] == mem[..at] && was[..n][..at] == was[..at];
  }

  lemma {:induction false} SameSuffix(mem: string, was: string, p: nat, n: nat)
    requires |mem| == |was| && p <= n <= |was| && mem[p..] == was[p..]
    ensures mem[n..] == was[n..]
  {
    assert mem[p..][n - p..] == mem[n..] && was[p..][n - p..] == was[n..];
  }

  lemma {:induction false} WordArrives(mem: string, was: string, at: nat, g: string, p: nat, w: string, s: string)
    requires |mem| == |was| && HoldsAt(was, at, g) && at + |g| <= p && p + |w| + 1 <= |was|
    requires s == w || s == w + [NUL]
    requires HoldsAt(mem, at + |g|, s) && mem[..at + |g|] == was[..at + |g|] && mem[p + |s|..] == was[p + |s|..]
    ensures HoldsAt(mem, at, g + s) && HoldsAt(mem, at, g + w)
    ensures SameOutside(mem, was, at, p + |w| + 1)
  {
    SamePrefix(mem, was, at, at + |g|, g);
    HoldsBoth(mem, at, g, s);
    SliceOfHeld(mem, at, g + s, 0, |g| + |w|);
    assert (g + s)[0..|g| + |w|] == g + w;
    SameSuffix(mem, was, p + |s|, p + |w| + 1);
  }

  /** Word `w` at `p` has been moved up behind `g`, with its NUL when `s` ends in one. */
  lemma {:induction false} WordMoved(mem: string, was: string, at: nat, g: string, dst: nat, p: nat, w: string,
                                     s: string)
    requires HoldsAt(was, at, g) && HoldsAt(was, p, w + [NUL]) && dst == at + |g| <= p
    requires (s == w || s == w + [NUL]) && mem == Moved(was, dst, p, |s|)
    ensures HoldsAt(mem, at, g + s) && HoldsAt(mem, at, g + w)
    ensures SameOutside(mem, was, at, p + |w| + 1)
  {
    SliceOfHeld(was, p, w + [NUL], 0, |s|);
    assert (w + [NUL])[0..|s|] == s;
    MovedString(was, dst, p, s);
    WordArrives(mem, was, at, g, p, w, s);
  }

  lemma {:induction false} OneMoreGlued(mem: string, was: string, before: string, at: nat, words: seq<string>, i: nat)
    requires i < |words| && GluedSoFar(was, before, at, words, i)
    requires HoldsAt(mem, at, Glued(words[..i]) + words[i])
    requires SameOutside(mem, was, at, at + |Stored(words[..i])| + |words[i]| + 1)
    ensures GluedSoFar(mem, before, at, words, i + 1)
  {
    GluedOn(words, i);
    var p := at + |Stored(words[..i])|;
    SameSuffix(was, before, p, p + |words[i]| + 1);
  }

  method MoveMemory(mem: array<char>, dst: nat, src: nat, n: nat)
    requires dst + n <= mem.Length && src + n <= mem.Length
    modifies mem
    ensures mem[..] == Moved(old(mem[..]), dst, src, n)
  {
    MoveChars(mem, dst, src, n);
  }

  /** memmove of the word `w` at `src` to the end of `g`, with its NUL when `s` ends in one. */
  method MoveUp(mem: array<char>, dst: nat, src: nat, n: nat, ghost at: nat, ghost g: string, ghost w: string,
                ghost s: string)
    requires HoldsAt(mem[..], at, g) && HoldsAt(mem[..], src, w + [NUL])
    requires (s == w || s == w + [NUL]) && n == |s| && dst == at + |g| <= src
    modifies mem
    ensures HoldsAt(mem[..], at, g + s) && HoldsAt(mem[..], at, g + w)
    ensures SameOutside(mem[..], old(mem[..]), at, src + |w| + 1)
  {
    ghost var was := mem[..];
    MoveMemory(mem, dst, src, n);
    WordMoved(mem[..], was, at, g, dst, src, w, s);
  }

  /** strlen of the word that is next. */
  method WordLength(mem: array<char>, word: nat, ghost before: string, ghost at: nat, ghost words: seq<string>,
                    ghost i: nat)
    returns (n: nat)
    requires i < |words| && AllNulFree(words)
    requires mem.Length == |before| && GluedSoFar(mem[..], before, at, words, i)
    requires word == at + |Stored(words[..i])|
    ensures n == |words[i]| && word + n + 1 <= mem.Length
    ensures word - i == at + |Glued(words[..i])| >= 0
  {
    NextWord(mem[..], before, at, words, i);
    StrLenOfWord(mem[..], word, words[i]);
    assert mem[word..] == mem[..][word..];
    n := StrLen(mem[word..]);
  }

  /** strlen and memmove for one word: it is moved up by `back`, with its NUL or without. */
  method MoveWord(mem: array<char>, word: nat, back: nat, withNul: bool,
                  ghost before: string, ghost at: nat, ghost words: seq<string>)
    requires back < |words| && AllNulFree(words)
    requires mem.Length == |before| && GluedSoFar(mem[..], before, at, words, back)
    requires word == at + |Stored(words[..back])|
    modifies mem
    ensures GluedSoFar(mem[..], before, at, words, back + 1)
    ensures withNul ==> HoldsAt(mem[..], at, Glued(words[..back]) + (words[back] + [NUL]))
  {
    ghost var was := mem[..];
    var nLen := WordLength(mem, word, before, at, words, back);
    if withNul {
      nLen := nLen + 1;
    }
    ghost var s := if withNul then words[back] + [NUL] else words[back];
    NextWord(was, before, at, words, back);
    MoveUp(mem, word - back, word, nLen, at, Glued(words[..back]), words[back], s);
    OneMoreGlued(mem[..], was, before, at, words, back);
  }

  /** `ppWords` points at the words, from its entry `nFrom` on. */
  ghost predicate PointAt(ppWords: seq<nat>, nFrom: nat, words: seq<string>) {
    nFrom + |words| <= |ppWords| &&
    forall i {:trigger words[..i]} :: 0 <= i < |words| ==> ppWords[nFrom + i] == ppWords[nFrom] + |Stored(words[..i])|
  }

  /** MakeOneWords: each word is moved up over the NULs before it, the last one with its NUL.
      Where the first word was there is now one word, all of them glued together; nothing
      before the words or behind them is touched. */
  method MakeOneWords(mem: array<char>, ppWords: seq<nat>, nFrom: nat, nWordsNr: int, ghost words: seq<string>)
    requires |words| == (if nWordsNr > 0 then nWordsNr else 0) && AllNulFree(words)
    requires PointAt(ppWords, nFrom, words)
    requires words != [] ==> HoldsAt(mem[..], ppWords[nFrom], Stored(words))
    modifies mem
    ensures words == [] ==> mem[..] == old(mem[..])
    ensures words != [] ==>
              && HoldsAt(mem[..], ppWords[nFrom], Glued(words) + [NUL])
              && SameOutside(mem[..], old(mem[..]), ppWords[nFrom], ppWords[nFrom] + |Stored(words)|)
  {
    if nWordsNr > 0 {
      ghost var before := mem[..];
      ghost var at := ppWords[nFrom];
      var last: nat := nWordsNr - 1;
      FirstWordStays(before, at, words);
      var i: nat := 1;
      while i < last
        invariant 1 <= i && (i <= last || last == 0)
        invariant mem.Length == |before|
        invariant if last == 0 then mem[..] == before else GluedSoFar(mem[..], before, at, words, i)
      {
        assert words[..i] <= words;
        MoveWord(mem, ppWords[nFrom + i], i, false, before, at, words);
        i := i + 1;
      }
      assert words[..last] <= words && words[..last + 1] == words;
      MoveWord(mem, ppWords[nFrom + last], last, true, before, at, words);
      GluedOn(words, last);
      assert Glued(words) + [NUL] == Glued(words[..last]) + (words[last] + [NUL]);
    }
  }

  /** What strlen finds there afterwards: the glued word has no NUL in it. */
  lemma {:induction false} GluedIsOneString(mem: string, at: nat, words: seq<string>)
    requires AllNulFree(words) && HoldsAt(mem, at, Glued(words) + [NUL])
    ensures CText(mem[at..]) == Glued(words)
  {
    GluedIsNulFree(words);
    StrLenOfWord(mem, at, Glued(words));
    SliceOfHeld(mem, at, Glued(words) + [NUL], 0, |Glued(words)|);
    assert mem[at..][..|Glued(words)|] == mem[at..at + |Glued(words)|];
    assert (Glued(words) + [NUL])[0..|Glued(words)|] == Glued(words);
  }

  lemma {:induction false} FirstWordStays(mem: string, at: nat, words: seq<string>)
    requires words != [] && HoldsAt(mem, at, Stored(words))
    ensures GluedSoFar(mem, mem, at, words, 0) && GluedSoFar(mem, mem, at, words, 1)
  {
    StoredPrefix(words, 0);
    assert words[..0] == [];
    GluedOn(words, 0);
    var n := |words[0]|;
    SliceOfHeld(mem, at, Stored(words), 0, n + 1);
    SliceOfHeld(mem, at, words[0] + [NUL], 0, n);
    assert (words[0] + [NUL])[0..n] == words[0];
  }

  lemma {:induction false} GluedIsNulFree(words: seq<string>)
    requires AllNulFree(words)
    ensures NulFree(Glued(words))
  {
    if words != [] {
      GluedIsNulFree(words[..|words| - 1]);
      assert NulFree(words[|words| - 1]);
    }
  }

  // ---------------------------------------------------------------- skipping words by type

  /** `n` words from `from` on are of the types in `ignored`, and the next one, if any, is not. */
  ghost predicate SkipsExactly(types: seq<nat>, from: nat, total: int, ignored: seq<nat>, n: nat) {
    && (n > 0 ==> from + n <= total && from + n <= |types|)
    && (forall k :: from <= k < from + n ==> types[k] in ignored)
    && (from + n < total && from + n < |types| ==> types[from + n] !in ignored)
  }

  /** IgnorType: how many words in a row are of type `eType`. */
  method IgnorType(types: seq<nat>, nProcess2: nat, nTotalEles: int, eType: nat) returns (nRet: nat)
    requires nTotalEles <= |types|
    ensures SkipsExactly(types, nProcess2, nTotalEles, [eType], nRet)
  {
    nRet := 0;
    var total := nTotalEles - nProcess2;
    while nRet < total
      invariant nRet > 0 ==> nRet <= total
      invariant forall k :: nProcess2 <= k < nProcess2 + nRet ==> types[k] == eType
    {
      if types[nProcess2 + nRet] != eType {
        return;
      }
      nRet := nRet + 1;
    }
  }

  /** IgnorTypes: how many words in a row are of one of the first `nrOfType` types given. */
  method IgnorTypes(types: seq<nat>, nProcess2: nat, nTotalEles: int, nrOfType: nat, eIgnoreTypes: seq<nat>)
      returns (nRet: nat)
    requires nTotalEles <= |types| && nrOfType <= |eIgnoreTypes|
    ensures SkipsExactly(types, nProcess2, nTotalEles, eIgnoreTypes[..nrOfType], nRet)
  {
    nRet := 0;
    var total := nTotalEles - nProcess2;
    while nRet < total
      invariant nRet > 0 ==> nRet <= total
      invariant forall k :: nProcess2 <= k < nProcess2 + nRet ==> types[k] in eIgnoreTypes[..nrOfType]
    {
      var e := types[nProcess2 + nRet];
      var bNotIgnore := true;
      var i: nat := 0;
      while i < nrOfType
        invariant i <= nrOfType && bNotIgnore && e !in eIgnoreTypes[..i]
      {
        if e == eIgnoreTypes[i] {
          bNotIgnore := false;
          break;
        }
        i := i + 1;
      }
      if bNotIgnore {
        return;
      }
      nRet := nRet + 1;
    }
  }
}
