/** "Replace every non-overlapping match, from the left": the plain definition, its
    characterisation by splitting and joining, and the list of match positions from which
    the in-place passes rebuild the text. */
module Replacement {
  import opened CStrings
  import opened Splitting

  function ReplaceAll(s: string, old_: string, new_: string): string
    decreases |s|
  {
    if old_ == "" || s == "" then s
    else if old_ <= s then new_ + ReplaceAll(s[|old_|..], old_, new_)
    else [s[0]] + ReplaceAll(s[1..], old_, new_)
  }

  /** The same on the contents of a buffer, of which C sees only what precedes the first NUL. */
  function ReplaceText(s: string, old_: string, new_: string): string {
    ReplaceAll(CText(s), old_, new_) + s[|CText(s)|..]
  }

  // ---------------------------------------------------------------- positions

  /** Where the search for match number `k` begins. */
  function Start(ps: seq<int>, len: nat, k: nat): int
    requires k <= |ps|
  {
    if k == 0 then 0 else ps[k - 1] + len
  }

  /** `ps` lists the leftmost non-overlapping matches of `pat`, in order, without a gap. */
  ghost predicate Matches(t: string, pat: string, ps: seq<int>) {
    forall k :: 0 <= k < |ps| ==> IsMatch(t, pat, ps, k)
  }

  ghost predicate IsMatch(t: string, pat: string, ps: seq<int>, k: nat)
    requires k < |ps|
  {
    IsNext(t, pat, Start(ps, |pat|, k), ps[k])
  }

  /** `p` is the first place at or after `from` where `pat` occurs. */
  ghost predicate IsNext(t: string, pat: string, from: int, p: int) {
    from <= p && OccursAt(t, pat, p) && NoneIn(t, pat, from, p)
  }

  ghost predicate AllMatches(t: string, pat: string, ps: seq<int>) {
    Matches(t, pat, ps) && NoneIn(t, pat, Start(ps, |pat|, |ps|), |t| + 1)
  }

  /** The source position just past the piece that follows match `k - 1`. */
  function PieceEnd(text: string, ps: seq<int>, k: nat): int
    requires k <= |ps|
  {
    if k == |ps| then |text| else ps[k]
  }

  /** Matches do not overlap, so there are at most |t| / |pat| of them. */
  lemma {:induction false} MatchesAreFew(t: string, pat: string, ps: seq<int>)
    requires Matches(t, pat, ps)
    ensures |ps| * |pat| <= Start(ps, |pat|, |ps|) <= |t|
  {
    if |ps| > 0 {
      var k := |ps| - 1;
      MatchesPrefix(t, pat, ps, k);
      MatchesAreFew(t, pat, ps[..k]);
      assert IsMatch(t, pat, ps, k);
    }
  }

  lemma {:induction false} MatchesPrefix(t: string, pat: string, ps: seq<int>, n: nat)
    requires n <= |ps| && Matches(t, pat, ps)
    ensures Matches(t, pat, ps[..n])
  {
    forall k | 0 <= k < n
      ensures IsMatch(t, pat, ps[..n], k)
    {
      assert IsMatch(t, pat, ps, k);
    }
  }

  /** Finding one more match keeps the list a list of leftmost matches. */
  lemma {:induction false} MatchesExtend(t: string, pat: string, ps: seq<int>, p: int)
    requires Matches(t, pat, ps)
    requires IsNext(t, pat, Start(ps, |pat|, |ps|), p)
    ensures Matches(t, pat, ps + [p])
  {
    forall k | 0 <= k <= |ps|
      ensures IsMatch(t, pat, ps + [p], k)
    {
      if k < |ps| {
        assert IsMatch(t, pat, ps, k);
      }
    }
  }

  lemma {:induction false} PrefixIsMatch(t: string, pat: string, i: nat)
    requires i <= |t|
    ensures pat <= t[i..] <==> OccursAt(t, pat, i)
  {
    if i + |pat| <= |t| {
      assert t[i..][..|pat|] == t[i..i + |pat|];
    }
  }

  /** A stretch without a match is copied. */
  lemma {:induction false} ReplaceSkips(t: string, pat: string, new_: string, from: int, upto: int)
    requires 0 <= from <= upto <= |t| && pat != ""
    requires NoneIn(t, pat, from, upto)
    ensures ReplaceAll(t[from..], pat, new_) == t[from..upto] + ReplaceAll(t[upto..], pat, new_)
    decreases upto - from
  {
    if from == upto {
      assert t[from..upto] == "";
    } else {
      var s := t[from..];
      PrefixIsMatch(t, pat, from);
      assert s[1..] == t[from + 1..];
      ReplaceSkips(t, pat, new_, from + 1, upto);
      assert t[from..upto] == [s[0]] + t[from + 1..upto];
      var rest := ReplaceAll(t[upto..], pat, new_);
      assert [s[0]] + (t[from + 1..upto] + rest) == ([s[0]] + t[from + 1..upto]) + rest;
    }
  }

  lemma {:induction false} ReplaceUpToMatch(t: string, pat: string, new_: string, from: nat, p: nat)
    requires pat != "" && IsNext(t, pat, from, p)
    ensures ReplaceAll(t[from..], pat, new_) == t[from..p] + (new_ + ReplaceAll(t[p + |pat|..], pat, new_))
  {
    ReplaceSkips(t, pat, new_, from, p);
    assert t[p..][..|pat|] == t[p..p + |pat|];
    assert t[p..][|pat|..] == t[p + |pat|..];
  }

  /** How far the writer is from the reader once `k` matches lie to the left: `k` times the
      change `d` made by one replacement. */
  ghost function Offset(k: nat, d: int): int {
    if k == 0 then 0 else Offset(k - 1, d) + d
  }

  lemma {:induction false} OffsetIsMultiple(k: nat, d: int)
    ensures Offset(k, d) == k * d
  {
    if k > 0 {
      OffsetIsMultiple(k - 1, d);
      assert k * d == (k - 1) * d + d;
    }
  }

  /** The distance never has the other sign: growing, the writer is never behind the reader,
      shrinking, never ahead. */
  lemma {:induction false} OffsetSign(n: nat, k: nat, d: int)
    requires k <= n
    ensures Offset(n, d) >= 0 ==> Offset(k, d) >= 0 && (n > 0 ==> d >= 0)
    ensures Offset(n, d) < 0 ==> Offset(k, d) <= 0 && d < 0
  {
    OffsetIsMultiple(n, d);
    OffsetIsMultiple(k, d);
    ProductSign(n, k, d);
  }

  lemma {:induction false} ProductSign(n: nat, k: nat, d: int)
    requires k <= n
    ensures n * d >= 0 ==> k * d >= 0 && (n > 0 ==> d >= 0)
    ensures n * d < 0 ==> k * d <= 0 && d < 0
  {
  }

  // ---------------------------------------------------------------- where everything ends up

  /** The search for match `k` begins at Start(k), shifted by the replacements before it in
      the rewritten text `r`; from there on the plain definition has been applied to what is
      left of `t`, and the characters C does not see follow. */
  ghost predicate RestAt(r: string, t: string, rest: string, pat: string, new_: string, ps: seq<int>, k: nat)
    requires k <= |ps|
  {
    var from := Start(ps, |pat|, k);
    var at := from + Offset(k, |new_| - |pat|);
    && 0 <= from <= |t| && 0 <= at <= |r|
    && r[at..] == ReplaceAll(t[from..], pat, new_) + rest
  }

  /** Match `k` and the piece before it, in the rewritten text. */
  ghost predicate MatchAt(r: string, t: string, pat: string, new_: string, ps: seq<int>, k: nat)
    requires k < |ps|
  {
    var from, p, shift := Start(ps, |pat|, k), ps[k], Offset(k, |new_| - |pat|);
    && 0 <= from <= p && p + |pat| <= |t| && 0 <= from + shift && p + shift + |new_| <= |r|
    && r[from + shift..p + shift] == t[from..p]
    && r[p + shift..p + shift + |new_|] == new_
  }

  lemma {:induction false} RestStep(r: string, t: string, rest: string, pat: string, new_: string, ps: seq<int>, k: nat)
    requires pat != "" && k < |ps| && IsMatch(t, pat, ps, k) && RestAt(r, t, rest, pat, new_, ps, k)
    ensures MatchAt(r, t, pat, new_, ps, k) && RestAt(r, t, rest, pat, new_, ps, k + 1)
  {
    var from, p := Start(ps, |pat|, k), ps[k];
    ReplaceUpToMatch(t, pat, new_, from, p);
    Cut(r, from + Offset(k, |new_| - |pat|), t[from..p], new_, ReplaceAll(t[p + |pat|..], pat, new_), rest);
  }

  lemma {:induction false} Cut(r: string, at: nat, a: string, b: string, c: string, d: string)
    requires at <= |r| && r[at..] == a + (b + c) + d
    ensures at + |a| + |b| <= |r|
    ensures r[at..at + |a|] == a && r[at + |a|..at + |a| + |b|] == b
    ensures r[at + |a| + |b|..] == c + d
  {
    var s := r[at..];
    assert s == a + b + (c + d);
    assert s[..|a|] == a && s[|a|..|a| + |b|] == b && s[|a| + |b|..] == c + d;
    assert r[at..at + |a|] == s[..|a|];
    assert r[at + |a|..at + |a| + |b|] == s[|a|..|a| + |b|];
    assert r[at + |a| + |b|..] == s[|a| + |b|..];
  }

  lemma {:induction false} RestAtStart(r: string, t: string, rest: string, pat: string, new_: string, ps: seq<int>)
    requires r == ReplaceAll(t, pat, new_) + rest
    ensures RestAt(r, t, rest, pat, new_, ps, 0)
  {
    assert t[0..] == t && r[0..] == r;
  }

  lemma {:induction false} RestHolds(r: string, t: string, rest: string, pat: string, new_: string, ps: seq<int>,
                                     k: nat)
    requires pat != "" && k <= |ps| && Matches(t, pat, ps)
    requires r == ReplaceAll(t, pat, new_) + rest
    ensures RestAt(r, t, rest, pat, new_, ps, k)
  {
    if k == 0 {
      RestAtStart(r, t, rest, pat, new_, ps);
    } else {
      RestHolds(r, t, rest, pat, new_, ps, k - 1);
      assert IsMatch(t, pat, ps, k - 1);
      RestStep(r, t, rest, pat, new_, ps, k - 1);
    }
  }

  /** The piece before match `k`, or after the last match, is copied unchanged to its
      shifted place. */
  ghost predicate PieceAt(r: string, text: string, d: int, len: nat, ps: seq<int>, k: nat)
    requires k <= |ps|
  {
    var from, end, shift := Start(ps, len, k), PieceEnd(text, ps, k), Offset(k, d);
    && 0 <= from <= end <= |text| && 0 <= from + shift && end + shift <= |r|
    && r[from + shift..end + shift] == text[from..end]
    && (k == |ps| ==> end + shift == |r|)
  }

  lemma {:induction false} PieceBefore(r: string, t: string, rest: string, pat: string, new_: string, ps: seq<int>,
                                       k: nat)
    requires k < |ps| && MatchAt(r, t, pat, new_, ps, k)
    ensures PieceAt(r, t + rest, |new_| - |pat|, |pat|, ps, k)
  {
    PrefixSlice(t, t + rest, Start(ps, |pat|, k), ps[k]);
  }

  lemma {:induction false} LastPiece(r: string, t: string, rest: string, pat: string, new_: string, ps: seq<int>)
    requires pat != "" && NoneIn(t, pat, Start(ps, |pat|, |ps|), |t| + 1)
    requires RestAt(r, t, rest, pat, new_, ps, |ps|)
    ensures PieceAt(r, t + rest, |new_| - |pat|, |pat|, ps, |ps|)
  {
    var from := Start(ps, |pat|, |ps|);
    ReplaceSkips(t, pat, new_, from, |t|);
    assert t[|t|..] == "";
    assert t[from..|t|] + "" + rest == (t + rest)[from..];
  }

  lemma {:induction false} PrefixSlice(t: string, text: string, i: nat, j: nat)
    requires i <= j <= |t| && t <= text
    ensures t[i..j] == text[i..j]
  {
  }

  lemma {:induction false} PieceHolds(text: string, pat: string, new_: string, ps: seq<int>, k: nat)
    requires pat != "" && k <= |ps| && AllMatches(CText(text), pat, ps)
    ensures PieceAt(ReplaceText(text, pat, new_), text, |new_| - |pat|, |pat|, ps, k)
  {
    var t, r := CText(text), ReplaceText(text, pat, new_);
    var rest := text[|t|..];
    assert t + rest == text;
    RestHolds(r, t, rest, pat, new_, ps, k);
    if k < |ps| {
      assert IsMatch(t, pat, ps, k);
      RestStep(r, t, rest, pat, new_, ps, k);
      PieceBefore(r, t, rest, pat, new_, ps, k);
    } else {
      LastPiece(r, t, rest, pat, new_, ps);
    }
  }

  lemma {:induction false} MatchHolds(text: string, pat: string, new_: string, ps: seq<int>, k: nat)
    requires pat != "" && k < |ps| && AllMatches(CText(text), pat, ps)
    ensures MatchAt(ReplaceText(text, pat, new_), CText(text), pat, new_, ps, k)
  {
    var t, r := CText(text), ReplaceText(text, pat, new_);
    RestHolds(r, t, text[|t|..], pat, new_, ps, k);
    assert IsMatch(t, pat, ps, k);
    RestStep(r, t, text[|t|..], pat, new_, ps, k);
  }

  /** What the passes have to write for match `k`: the new string, then the piece up to the
      next match, both at their shifted places. */
  lemma {:induction false} Placed(text: string, pat: string, new_: string, ps: seq<int>, k: nat)
    requires pat != "" && k < |ps| && AllMatches(CText(text), pat, ps)
    ensures
      var d, r := |new_| - |pat|, ReplaceText(text, pat, new_);
      var src, next := ps[k] + |pat|, PieceEnd(text, ps, k + 1);
      var at := ps[k] + Offset(k, d);
      && 0 <= ps[k] && src <= next <= |text|
      && 0 <= at && at + |new_| + (next - src) == next + Offset(k + 1, d) <= |r|
      && (forall i {:trigger r[i]} :: at <= i < at + |new_| ==> r[i] == new_[i - at])
      && (forall i {:trigger r[i]} :: at + |new_| <= i < next + Offset(k + 1, d) ==>
            r[i] == text[i - at - |new_| + src])
  {
    var r := ReplaceText(text, pat, new_);
    MatchHolds(text, pat, new_, ps, k);
    PieceHolds(text, pat, new_, ps, k + 1);
    PlacedFrom(r, text, CText(text), pat, new_, ps, k);
  }

  lemma {:induction false} PlacedFrom(r: string, text: string, t: string, pat: string, new_: string, ps: seq<int>,
                                      k: nat)
    requires k < |ps| && MatchAt(r, t, pat, new_, ps, k)
    requires PieceAt(r, text, |new_| - |pat|, |pat|, ps, k + 1)
    ensures
      var d := |new_| - |pat|;
      var src, next := ps[k] + |pat|, PieceEnd(text, ps, k + 1);
      var at := ps[k] + Offset(k, d);
      && 0 <= ps[k] && src <= next <= |text|
      && 0 <= at && at + |new_| + (next - src) == next + Offset(k + 1, d) <= |r|
      && (forall i {:trigger r[i]} :: at <= i < at + |new_| ==> r[i] == new_[i - at])
      && (forall i {:trigger r[i]} :: at + |new_| <= i < next + Offset(k + 1, d) ==>
            r[i] == text[i - at - |new_| + src])
  {
    var at := ps[k] + Offset(k, |new_| - |pat|);
    assert r[at..at + |new_|] == new_[0..|new_|];
    SliceIs(r, at, new_, 0, |new_|);
    SliceIs(r, at + |new_|, text, ps[k] + |pat|, PieceEnd(text, ps, k + 1));
  }

  lemma {:induction false} SliceIs(r: string, at: nat, s: string, i: nat, j: nat)
    requires i <= j <= |s| && at + (j - i) <= |r|
    requires r[at..at + (j - i)] == s[i..j]
    ensures forall k {:trigger r[k]} :: at <= k < at + (j - i) ==> r[k] == s[k - at + i]
  {
    forall k | at <= k < at + (j - i)
      ensures r[k] == s[k - at + i]
    {
      assert r[at..at + (j - i)][k - at] == s[i..j][k - at];
    }
  }

  /** Before the first match nothing moves, and the length changes by the last distance. */
  lemma {:induction false} PlacedEnds(text: string, pat: string, new_: string, ps: seq<int>)
    requires pat != "" && AllMatches(CText(text), pat, ps)
    ensures
      var r := ReplaceText(text, pat, new_);
      && 0 <= PieceEnd(text, ps, 0) <= |text| && PieceEnd(text, ps, 0) <= |r|
      && (forall i :: 0 <= i < PieceEnd(text, ps, 0) ==> r[i] == text[i])
      && |r| == |text| + Offset(|ps|, |new_| - |pat|)
  {
    PieceHolds(text, pat, new_, ps, 0);
    PieceHolds(text, pat, new_, ps, |ps|);
    PlacedEndsFrom(ReplaceText(text, pat, new_), text, |new_| - |pat|, |pat|, ps);
  }

  lemma {:induction false} PlacedEndsFrom(r: string, text: string, d: int, len: nat, ps: seq<int>)
    requires PieceAt(r, text, d, len, ps, 0) && PieceAt(r, text, d, len, ps, |ps|)
    ensures 0 <= PieceEnd(text, ps, 0) <= |text| && PieceEnd(text, ps, 0) <= |r|
    ensures forall i :: 0 <= i < PieceEnd(text, ps, 0) ==> r[i] == text[i]
    ensures |r| == |text| + Offset(|ps|, d)
  {
    SliceIs(r, 0, text, 0, PieceEnd(text, ps, 0));
  }

  // ---------------------------------------------------------------- meaning

  /** Replacing is splitting at the old string and joining with the new one. */
  lemma {:induction false} ReplaceIsSplitAndJoin(s: string, old_: string, new_: string)
    requires old_ != ""
    ensures ReplaceAll(s, old_, new_) == Join(Pieces(s, old_), new_)
    decreases |s|
  {
    if s == "" {
    } else if old_ <= s {
      ReplaceIsSplitAndJoin(s[|old_|..], old_, new_);
      var ps := Pieces(s[|old_|..], old_);
      assert ([""] + ps)[1..] == ps;
      assert "" + new_ + Join(ps, new_) == new_ + Join(ps, new_);
    } else {
      ReplaceIsSplitAndJoin(s[1..], old_, new_);
      JoinPrefixed(s[0], Pieces(s[1..], old_), new_);
    }
  }

  /** Replacing a string by itself changes nothing, which is why the source skips that case. */
  lemma {:induction false} ReplaceBySame(s: string, old_: string)
    ensures ReplaceText(s, old_, old_) == s
  {
    if old_ != "" {
      ReplaceIsSplitAndJoin(CText(s), old_, old_);
      JoinOfPieces(CText(s), old_);
    }
  }

  // ---------------------------------------------------------------- undoing a replacement

  lemma {:induction false} JoinLength(ps: seq<string>, sep: string)
    requires |ps| >= 1
    ensures |Join(ps, sep)| == |Join(ps, "")| + Offset(|ps| - 1, |sep|)
  {
    if |ps| > 1 {
      JoinLength(ps[1..], sep);
    }
  }

  lemma {:induction false} JoinCount(ps: seq<string>, sep: string, c: char)
    requires |ps| >= 1
    ensures Count(Join(ps, sep), c) == Count(Join(ps, ""), c) + Offset(|ps| - 1, Count(sep, c))
  {
    if |ps| > 1 {
      JoinCount(ps[1..], sep, c);
      CountConcat(ps[0] + sep, Join(ps[1..], sep), c);
      CountConcat(ps[0], sep, c);
      CountConcat(ps[0] + "", Join(ps[1..], ""), c);
      CountConcat(ps[0], "", c);
    }
  }

  lemma {:induction false} OffsetOfOne(k: nat)
    ensures Offset(k, 1) == k && Offset(k, 0) == 0
  {
    if k > 0 {
      OffsetOfOne(k - 1);
    }
  }

  lemma {:induction false} OffsetGrows(p: nat, q: nat, len: nat)
    requires p < q && len > 1
    ensures Offset(q, len) - q > Offset(p, len) - p
    decreases q
  {
    if p < q - 1 {
      OffsetGrows(p, q - 1, len);
    }
  }

  /** How much longer the join is with `sep` than with one character. */
  lemma {:induction false} JoinLengthGain(ps: seq<string>, c: char, sep: string)
    requires |ps| >= 1
    ensures |Join(ps, sep)| - |Join(ps, [c])| == Offset(|ps| - 1, |sep|) - (|ps| - 1)
  {
    JoinLength(ps, sep);
    JoinLength(ps, [c]);
    OffsetOfOne(|ps| - 1);
  }

  lemma {:induction false} JoinWithout(ps: seq<string>, c: char)
    ensures c !in Join(ps, "") <==> AllWithout(ps, c)
  {
    if |ps| > 1 {
      JoinWithout(ps[1..], c);
      assert ps == [ps[0]] + ps[1..];
      assert Join(ps, "") == ps[0] + Join(ps[1..], "");
      if AllWithout(ps, c) {
        assert c !in ps[0];
      } else {
        var k :| 0 <= k < |ps| && c in ps[k];
        if k > 0 {
          assert c in ps[1..][k - 1];
        }
      }
    }
  }

  /** Replacing `old` by the single character `c` can be undone by replacing `c` by `old`
      exactly when what is left after deleting every match of `old` does not contain `c`. */
  lemma {:induction false} ReplaceUndo(s: string, old_: string, c: char)
    requires old_ != ""
    ensures ReplaceAll(ReplaceAll(s, old_, [c]), [c], old_) == s
       <==> c !in ReplaceAll(s, old_, "")
  {
    var ps := Pieces(s, old_);
    var once := ReplaceAll(s, old_, [c]);
    var qs := Pieces(once, [c]);
    ReplaceIsSplitAndJoin(s, old_, "");
    ReplaceIsSplitAndJoin(s, old_, [c]);
    ReplaceIsSplitAndJoin(once, [c], old_);
    JoinWithout(ps, c);
    JoinOfPieces(s, old_);
    if AllWithout(ps, c) {
      PiecesOfJoin(ps, c);
    } else {
      UndoFails(s, old_, c);
    }
  }

  /** So it cannot for the text `c` itself and any other `old`: undoing gives `old`. */
  lemma {:induction false} UndoCanFail(old_: string, c: char)
    requires old_ != "" && old_ != [c]
    ensures ReplaceAll(ReplaceAll([c], old_, [c]), [c], old_) == old_ != [c]
  {
    assert [c][1..] == "" && !(old_ <= [c]) && [c][|[c]|..] == "";
    assert ReplaceAll([c], old_, [c]) == [c] + "" && old_ + "" == old_;
  }

  lemma {:induction false} UndoFails(s: string, old_: string, c: char)
    requires old_ != "" && c in Join(Pieces(s, old_), "")
    ensures Join(Pieces(Join(Pieces(s, old_), [c]), [c]), old_) != s
  {
    var ps := Pieces(s, old_);
    var once := Join(ps, [c]);
    var qs := Pieces(once, [c]);
    JoinOfPieces(s, old_);
    JoinOfPieces(once, [c]);
    PiecesCount(once, c);
    CountZero(Join(ps, ""), c);
    JoinCount(ps, [c], c);
    assert Count([c], c) == 1;
    OffsetOfOne(|ps| - 1);
    assert |qs| > |ps|;
    if |old_| > 1 {
      LongUndoFails(ps, qs, c, old_);
    } else {
      assert old_ == [old_[0]];
      OneCharUndoFails(s, old_[0], c);
    }
  }

  lemma {:induction false} LongUndoFails(ps: seq<string>, qs: seq<string>, c: char, sep: string)
    requires |qs| > |ps| >= 1 && |sep| > 1
    requires |Join(ps, [c])| == |Join(qs, [c])|
    ensures |Join(qs, sep)| > |Join(ps, sep)|
  {
    JoinLengthGain(ps, c, sep);
    JoinLengthGain(qs, c, sep);
    OffsetGrows(|ps| - 1, |qs| - 1, |sep|);
  }

  lemma {:induction false} OneCharUndoFails(s: string, d: char, c: char)
    requires c in Join(Pieces(s, [d]), "")
    ensures Join(Pieces(Join(Pieces(s, [d]), [c]), [c]), [d]) != s
  {
    var ps := Pieces(s, [d]);
    var qs := Pieces(Join(ps, [c]), [c]);
    PiecesWithout(s, d);
    JoinWithout(ps, d);
    assert c != d;
    PiecesWithout(Join(ps, [c]), c);
    JoinWithout(qs, c);
    CountZero(Join(qs, ""), c);
    JoinCount(qs, [d], c);
    JoinOfPieces(s, [d]);
    CountZero(Join(ps, ""), c);
    JoinCount(ps, [d], c);
    assert Count([d], c) == 0;
    OffsetOfOne(|ps| - 1);
    OffsetOfOne(|qs| - 1);
  }
}
