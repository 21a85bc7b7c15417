/** Splitting a text at a separator and joining pieces: what Replace and the string splitter
    both come down to. */
module Splitting {
  import opened CStrings

  function Join(ps: seq<string>, sep: string): string {
    if |ps| == 0 then "" else if |ps| == 1 then ps[0] else ps[0] + sep + Join(ps[1..], sep)
  }

  /** The pieces of `s` between the leftmost non-overlapping matches of `sep`. */
  function Pieces(s: string, sep: string): (ps: seq<string>)
    ensures |ps| >= 1
    decreases |s|
  {
    if sep == "" || s == "" then [s]
    else if sep <= s then [""] + Pieces(s[|sep|..], sep)
    else
      var ps := Pieces(s[1..], sep);
      [[s[0]] + ps[0]] + ps[1..]
  }

  lemma {:induction false} JoinPrefixed(c: char, ps: seq<string>, sep: string)
    requires |ps| >= 1
    ensures Join([[c] + ps[0]] + ps[1..], sep) == [c] + Join(ps, sep)
  {
    var qs := [[c] + ps[0]] + ps[1..];
    assert qs[1..] == ps[1..];
    if |ps| > 1 {
      assert [c] + ps[0] + sep + Join(ps[1..], sep) == [c] + (ps[0] + sep + Join(ps[1..], sep));
    }
  }

  /** Splitting loses nothing: joining with the separator gives the text back. */
  lemma {:induction false} JoinOfPieces(s: string, sep: string)
    ensures Join(Pieces(s, sep), sep) == s
    decreases |s|
  {
    if sep == "" || s == "" {
    } else if sep <= s {
      JoinOfPieces(s[|sep|..], sep);
      var ps := Pieces(s[|sep|..], sep);
      assert ([""] + ps)[1..] == ps;
      assert s == "" + sep + s[|sep|..];
    } else {
      JoinOfPieces(s[1..], sep);
      JoinPrefixed(s[0], Pieces(s[1..], sep), sep);
    }
  }

  /** The leftmost match ends a piece, so no piece contains the separator. */
  lemma {:induction false} PiecesAreFree(s: string, sep: string)
    requires sep != ""
    ensures forall k :: 0 <= k < |Pieces(s, sep)| ==> Free(Pieces(s, sep)[k], sep)
    ensures Pieces(s, sep)[0] <= s
    decreases |s|
  {
    if s == "" {
    } else if sep <= s {
      PiecesAreFree(s[|sep|..], sep);
    } else {
      var ps := Pieces(s[1..], sep);
      PiecesAreFree(s[1..], sep);
      var first := [s[0]] + ps[0];
      assert first <= s by { assert s == [s[0]] + s[1..]; }
      forall i
        ensures !OccursAt(first, sep, i)
      {
        if i == 0 && |sep| <= |first| {
          assert first[..|sep|] == s[..|sep|];
        } else if 0 < i && i + |sep| <= |first| {
          assert first[i..i + |sep|] == ps[0][i - 1..i - 1 + |sep|];
          assert !OccursAt(ps[0], sep, i - 1);
        }
      }
      assert Free(first, sep);
    }
  }

  ghost predicate Free(s: string, pat: string) {
    forall i :: !OccursAt(s, pat, i)
  }

  // ---------------------------------------------------------------- one-character separators

  ghost predicate AllWithout(ps: seq<string>, c: char) {
    forall k :: 0 <= k < |ps| ==> c !in ps[k]
  }

  lemma {:induction false} FreeOfOne(s: string, c: char)
    ensures Free(s, [c]) <==> c !in s
  {
    forall i
      ensures OccursAt(s, [c], i) <==> 0 <= i < |s| && s[i] == c
    {
      if 0 <= i < |s| {
        assert s[i..i + 1] == [s[i]];
      }
    }
  }

  lemma {:induction false} PiecesWithout(s: string, c: char)
    ensures AllWithout(Pieces(s, [c]), c)
  {
    var ps := Pieces(s, [c]);
    PiecesAreFree(s, [c]);
    forall k | 0 <= k < |ps|
      ensures c !in ps[k]
    {
      assert Free(ps[k], [c]);
      FreeOfOne(ps[k], c);
    }
  }

  lemma {:induction false} PiecesOfOne(p: string, c: char)
    requires c !in p
    ensures Pieces(p, [c]) == [p]
  {
    if p != "" {
      assert p[0] in p;
      PiecesOfOne(p[1..], c);
      var ps := Pieces(p[1..], [c]);
      assert ps == [p[1..]] && ps[1..] == [];
      assert p == [p[0]] + p[1..];
      assert [[p[0]] + ps[0]] + ps[1..] == [p];
    }
  }

  lemma {:induction false} PiecesOfFirst(p: string, c: char, rest: string)
    requires c !in p
    ensures Pieces(p + [c] + rest, [c]) == [p] + Pieces(rest, [c])
  {
    var s := p + [c] + rest;
    if p == "" {
      assert s[1..] == rest;
    } else {
      assert p[0] in p && s[0] == p[0];
      assert s[1..] == p[1..] + [c] + rest;
      PiecesOfFirst(p[1..], c, rest);
      assert p == [p[0]] + p[1..];
    }
  }

  /** Joining loses nothing either, as long as no piece contains the separator. */
  lemma {:induction false} PiecesOfJoin(ps: seq<string>, c: char)
    requires |ps| >= 1 && AllWithout(ps, c)
    ensures Pieces(Join(ps, [c]), [c]) == ps
  {
    assert c !in ps[0];
    if |ps| == 1 {
      PiecesOfOne(ps[0], c);
    } else {
      PiecesOfJoin(ps[1..], c);
      PiecesOfFirst(ps[0], c, Join(ps[1..], [c]));
    }
  }

  function Count(s: string, c: char): nat {
    if s == "" then 0 else (if s[0] == c then 1 else 0) + Count(s[1..], c)
  }

  lemma {:induction false} CountConcat(s: string, t: string, c: char)
    ensures Count(s + t, c) == Count(s, c) + Count(t, c)
  {
    if s == "" {
      assert s + t == t;
    } else {
      CountConcat(s[1..], t, c);
      assert (s + t)[1..] == s[1..] + t;
    }
  }

  lemma {:induction false} CountZero(s: string, c: char)
    ensures Count(s, c) == 0 <==> c !in s
  {
    if s != "" {
      CountZero(s[1..], c);
      assert s == [s[0]] + s[1..];
    }
  }

  /** There is one piece more than there are separators. */
  lemma {:induction false} PiecesCount(s: string, c: char)
    ensures |Pieces(s, [c])| == Count(s, c) + 1
  {
    if s != "" {
      assert ([c] <= s) == (s[0] == c);
      PiecesCount(s[1..], c);
    }
  }
}
