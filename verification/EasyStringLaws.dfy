/** What the string operations do to each other, stated on the texts the methods of
    EasyString are proved to leave. */
module EasyStringLaws {
  import opened CStrings
  import opened Replacement
  import opened EasyStrings

  // ---------------------------------------------------------------- insert and delete

  lemma {:induction false} InsertThenDelete(s: string, pos: nat, ins: string)
    requires pos <= |s|
    ensures DeleteText(InsertText(s, pos, ins), pos, |ins|) == s
  {
    var t := InsertText(s, pos, ins);
    if pos < |t| {
      assert t[..pos] == s[..pos] && t[pos + |ins|..] == s[pos..];
    }
  }

  lemma {:induction false} DeleteThenInsert(s: string, start: nat, len: nat)
    requires start + len <= |s|
    ensures InsertText(DeleteText(s, start, len), start, s[start..start + len]) == s
  {
    if start < |s| {
      var t := DeleteText(s, start, len);
      assert t[..start] == s[..start] && t[start..] == s[start + len..];
      assert s == s[..start] + s[start..start + len] + s[start + len..];
    }
  }

  // ---------------------------------------------------------------- remove

  /** Deleting a found match works on the part C sees and leaves the rest alone. */
  lemma {:induction false} DeleteMatch(s: string, pat: string)
    requires NulFree(pat) && pat != "" && FindIn(s, pat, 0) >= 0
    ensures
      var t, p := CText(s), FindIn(s, pat, 0);
      && IsNext(t, pat, 0, p)
      && CText(DeleteText(s, p, |pat|)) == t[..p] + t[p + |pat|..]
      && DeleteText(s, p, |pat|) == t[..p] + t[p + |pat|..] + s[|t|..]
  {
    var t, p := CText(s), FindIn(s, pat, 0);
    FindIsFirst(s, pat, 0);
    assert s == t + s[|t|..];
    DeleteInSeen(t, s[|t|..], p, |pat|);
  }

  lemma {:induction false} DeleteInSeen(t: string, rest: string, p: nat, n: nat)
    requires NulFree(t) && (rest != "" ==> rest[0] == NUL) && p + n <= |t| && n > 0
    ensures DeleteText(t + rest, p, n) == t[..p] + t[p + n..] + rest
    ensures CText(DeleteText(t + rest, p, n)) == t[..p] + t[p + n..]
  {
    DeleteInPrefix(t, rest, p, n);
    NulFreeParts(t, p, p + n);
    CTextIs(t[..p] + t[p + n..], rest);
  }

  lemma {:induction false} NulFreeParts(t: string, i: nat, j: nat)
    requires NulFree(t) && i <= j <= |t|
    ensures NulFree(t[..i] + t[j..])
  {
  }

  lemma {:induction false} DeleteInPrefix(t: string, rest: string, p: nat, n: nat)
    requires p + n <= |t| && n > 0
    ensures DeleteText(t + rest, p, n) == t[..p] + t[p + n..] + rest
  {
    assert (t + rest)[p + n..] == t[p + n..] + rest;
    assert (t + rest)[..p] == t[..p];
  }

  lemma {:induction false} CTextIs(u: string, rest: string)
    requires NulFree(u) && (rest != "" ==> rest[0] == NUL)
    ensures CText(u + rest) == u
  {
    assert (u + rest)[..|u|] == u;
    StrLenIs(u + rest, |u|);
  }

  /** One round of Remove(str): the first match is taken out of the text, and nothing else. */
  ghost predicate TakesFirst(before: string, after: string, pat: string) {
    exists p :: IsNext(before, pat, 0, p) && after == before[..p] + before[p + |pat|..]
  }

  /** From the first text to the last, one round after the other. */
  ghost predicate Rounds(texts: seq<string>, pat: string) {
    forall i :: 0 < i < |texts| ==> TakesFirst(texts[i - 1], texts[i], pat)
  }

  lemma {:induction false} OneRoundMore(first: string, texts: seq<string>, pat: string)
    requires texts != [] && TakesFirst(first, texts[0], pat) && Rounds(texts, pat)
    ensures Rounds([first] + texts, pat)
  {
    var all := [first] + texts;
    forall i | 0 < i < |all|
      ensures TakesFirst(all[i - 1], all[i], pat)
    {
      if i > 1 {
        assert all[i - 1] == texts[i - 2] && all[i] == texts[i - 1];
        assert TakesFirst(texts[i - 2], texts[i - 1], pat);
      }
    }
  }

  /** Remove(str) takes the first match out of what C sees of the text, again and again, until
      there is none; what lies beyond the first NUL stays.  `texts` are the texts in between. */
  lemma {:induction false} RemoveLeavesNone(s: string, pat: string) returns (texts: seq<string>)
    requires NulFree(pat) && pat != ""
    ensures texts != [] && texts[0] == CText(s) && Rounds(texts, pat)
    ensures var last := texts[|texts| - 1];
      && NoneIn(last, pat, 0, |last| + 1)
      && RemoveAll(s, pat) == last + s[|CText(s)|..]
      && |s| == |RemoveAll(s, pat)| + (|texts| - 1) * |pat|
    decreases |s|
  {
    FindIsFirst(s, pat, 0);
    if FindIn(s, pat, 0) < 0 {
      texts := [CText(s)];
    } else {
      DeleteMatch(s, pat);
      var t, p := CText(s), FindIn(s, pat, 0);
      var d := DeleteText(s, p, |pat|);
      var rest := RemoveLeavesNone(d, pat);
      assert TakesFirst(t, rest[0], pat);
      OneRoundMore(t, rest, pat);
      texts := [t] + rest;
      assert (|texts| - 1) * |pat| == (|rest| - 1) * |pat| + |pat|;
      assert d[|CText(d)|..] == s[|t|..];
    }
  }

  lemma {:induction false} OneFirst(t: string, u: string, v: string, pat: string)
    requires TakesFirst(t, u, pat) && TakesFirst(t, v, pat)
    ensures u == v
  {
    var p :| IsNext(t, pat, 0, p) && u == t[..p] + t[p + |pat|..];
    var q :| IsNext(t, pat, 0, q) && v == t[..q] + t[q + |pat|..];
    assert p == q;
  }

  /** Nothing else is left by such rounds: the texts are determined by the first one. */
  lemma {:induction false} RoundsAgree(s: string, pat: string, texts: seq<string>)
    requires NulFree(pat) && pat != "" && texts != [] && texts[0] == CText(s) && Rounds(texts, pat)
    requires var last := texts[|texts| - 1]; NoneIn(last, pat, 0, |last| + 1)
    ensures RemoveAll(s, pat) == texts[|texts| - 1] + s[|CText(s)|..]
  {
    var others := RemoveLeavesNone(s, pat);
    SameRounds(texts, others, pat, if |texts| < |others| then |texts| - 1 else |others| - 1);
    if |texts| < |others| {
      NoMoreRounds(texts[|texts| - 1], others[|texts|], pat);
    } else if |others| < |texts| {
      NoMoreRounds(others[|others| - 1], texts[|others|], pat);
    }
  }

  lemma {:induction false} NoMoreRounds(t: string, u: string, pat: string)
    requires NoneIn(t, pat, 0, |t| + 1)
    ensures !TakesFirst(t, u, pat)
  {
  }

  lemma {:induction false} SameRounds(texts: seq<string>, others: seq<string>, pat: string, i: nat)
    requires i < |texts| && i < |others| && texts[0] == others[0] && Rounds(texts, pat) && Rounds(others, pat)
    ensures texts[i] == others[i]
  {
    if i > 0 {
      SameRounds(texts, others, pat, i - 1);
      assert TakesFirst(texts[i - 1], texts[i], pat) && TakesFirst(others[i - 1], others[i], pat);
      OneFirst(texts[i - 1], texts[i], others[i], pat);
    }
  }

  function Filtered(s: string, c: char): string {
    if s == "" then "" else (if s[0] == c then "" else [s[0]]) + Filtered(s[1..], c)
  }

  lemma {:induction false} FilteredAbsent(s: string, c: char)
    requires c !in s
    ensures Filtered(s, c) == s
  {
    if s != "" {
      assert s[0] in s;
      FilteredAbsent(s[1..], c);
    }
  }

  /** Remove(ch) filters the text. */
  lemma {:induction false} RemoveCharFilters(s: string, c: char)
    requires c != NUL
    ensures RemoveAll(s, [c]) == Filtered(CText(s), c) + s[|CText(s)|..]
    decreases |s|
  {
    var t := CText(s);
    FindIsFirst(s, [c], 0);
    if FindIn(s, [c], 0) < 0 {
      assert c !in t by {
        if i :| 0 <= i < |t| && t[i] == c {
          assert t[i..i + 1] == [c];
          assert OccursAt(t, [c], i);
          assert false;
        }
      }
      FilteredAbsent(t, c);
      assert s == t + s[|t|..];
    } else {
      DeleteMatch(s, [c]);
      var p := FindIn(s, [c], 0);
      RemoveCharFilters(DeleteText(s, p, 1), c);
      assert t[p..p + 1] == [c];
      FilteredOne(t, p, c);
    }
  }

  lemma {:induction false} FilteredOne(t: string, p: nat, c: char)
    requires p < |t| && t[p] == c
    ensures Filtered(t[..p] + t[p + 1..], c) == Filtered(t, c)
  {
    if p == 0 {
      assert t[..0] + t[1..] == t[1..];
    } else {
      FilteredOne(t[1..], p - 1, c);
      assert t[1..][..p - 1] == t[1..p] && t[1..][p..] == t[p + 1..];
      assert t[..p] + t[p + 1..] == [t[0]] + (t[1..p] + t[p + 1..]);
    }
  }
}
