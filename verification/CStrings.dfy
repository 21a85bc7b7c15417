/** C strings as sequences: the libc calls EasyString.h relies on, and the plain
    definitions its in-place methods are proved against.  A `const char *` argument is the
    sequence of characters before its terminator, so it is free of NUL; the text held in a
    buffer may contain NUL anywhere, because SetString and AppendString copy by size. */
module CStrings {

  const NUL: char := '\0'

  /** A `const char *`: NULL, or the characters it points at. */
  datatype CharPointer = NullChars | Chars(chars: string)

  ghost predicate NulFree(s: string) {
    forall i :: 0 <= i < |s| ==> s[i] != NUL
  }

  /** strlen, where the memory behind `s` holds a NUL right after its last character. */
  function StrLen(s: string): (n: nat)
    ensures n <= |s| && NulFree(s[..n])
    ensures n < |s| ==> s[n] == NUL
  {
    if s == [] || s[0] == NUL then 0 else
      var n := StrLen(s[1..]);
      assert s[..n + 1] == [s[0]] + s[1..][..n];
      n + 1
  }

  lemma {:induction false} StrLenIs(s: string, n: nat)
    requires n <= |s| && NulFree(s[..n]) && (n < |s| ==> s[n] == NUL)
    ensures StrLen(s) == n
  {
    if n > 0 {
      assert s[..n][0] == s[0];
      assert s[1..][..n - 1] == s[..n][1..];
      StrLenIs(s[1..], n - 1);
    }
  }

  /** The characters a C function sees: everything before the first NUL. */
  function CText(s: string): (t: string)
    ensures NulFree(t) && t <= s
    ensures |t| < |s| ==> s[|t|] == NUL
  {
    s[..StrLen(s)]
  }

  predicate OccursAt(s: string, pat: string, i: int) {
    0 <= i && i + |pat| <= |s| && s[i..i + |pat|] == pat
  }

  ghost predicate NoneIn(s: string, pat: string, from: int, upto: int) {
    forall i :: from <= i < upto ==> !OccursAt(s, pat, i)
  }

  /** strstr: the offset of the first occurrence of `pat` before the first NUL, or -1. */
  function StrStr(s: string, pat: string): (r: int)
    requires NulFree(pat)
    ensures -1 <= r
    ensures r >= 0 ==> OccursAt(CText(s), pat, r) && NoneIn(CText(s), pat, 0, r)
    ensures r < 0 ==> NoneIn(CText(s), pat, 0, |s| + 1)
  {
    if pat <= s then
      PrefixIsNulFree(s, pat);
      0
    else if s == [] || s[0] == NUL then -1
    else
      assert CText(s) == [s[0]] + CText(s[1..]);
      OccursShift(s[0], CText(s[1..]), pat);
      assert !OccursAt(CText(s), pat, 0);
      var r := StrStr(s[1..], pat);
      if r < 0 then -1 else r + 1
  }

  lemma {:induction false} PrefixIsNulFree(s: string, pat: string)
    requires NulFree(pat) && pat <= s
    ensures OccursAt(CText(s), pat, 0)
  {
    var n := StrLen(s);
    assert forall i :: 0 <= i < |pat| ==> s[i] == pat[i];
    assert s[..n][..|pat|] == s[..|pat|] == pat;
  }

  lemma {:induction false} OccursShift(c: char, s: string, pat: string)
    ensures forall i :: 1 <= i ==> OccursAt([c] + s, pat, i) == OccursAt(s, pat, i - 1)
  {
    forall i | 1 <= i
      ensures OccursAt([c] + s, pat, i) == OccursAt(s, pat, i - 1)
    {
      if i + |pat| <= |s| + 1 {
        assert ([c] + s)[i..i + |pat|] == s[i - 1..i - 1 + |pat|];
      }
    }
  }

  /** What lies beyond the first NUL is invisible to strstr. */
  lemma {:induction false} StrStrStopsAtNul(s: string, junk: string, pat: string)
    requires NulFree(pat)
    ensures StrStr(s + [NUL] + junk, pat) == StrStr(s, pat)
  {
    var m := s + [NUL] + junk;
    if pat <= m {
      assert m[|s|] == NUL;
      assert forall i :: 0 <= i < |pat| ==> m[i] == pat[i];
      assert |pat| <= |s|;
      assert pat == m[..|pat|] == s[..|pat|];
    } else if s != [] {
      assert s <= m;
      assert m[1..] == s[1..] + [NUL] + junk;
      StrStrStopsAtNul(s[1..], junk, pat);
    }
  }
}
