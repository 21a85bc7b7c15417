/** Run-time class information: each class knows its name and its parent.  A CLASS_INFO is
    named by its place in a table, NULL being -1. */
module ClassInfo {

  const NULL: int := -1

  datatype Info = Info(name: string, parent: int)

  type Table = seq<Info>

  /** The parent chain of `p` has exactly `n` classes. */
  ghost predicate Ends(t: Table, p: int, n: nat)
    decreases n
  {
    if p == NULL then n == 0 else 0 <= p < |t| && n > 0 && Ends(t, t[p].parent, n - 1)
  }

  ghost predicate HasEnd(t: Table, p: int) {
    exists n: nat :: Ends(t, p, n)
  }

  ghost predicate Acyclic(t: Table) {
    forall p :: 0 <= p < |t| ==> HasEnd(t, p)
  }

  /** The class `j` steps up from `p`. */
  function Ancestor(t: Table, p: int, j: nat): int
    decreases j
  {
    if j == 0 || !(0 <= p < |t|) then p else Ancestor(t, t[p].parent, j - 1)
  }

  ghost predicate Inherits(t: Table, p: int, q: int) {
    exists j: nat :: Ancestor(t, p, j) == q
  }

  /** IsKindOf by name, which IsKindOf by class comes down to. */
  predicate IsKindOfName(t: Table, p: int, name: string, ghost n: nat)
    requires p != NULL && Ends(t, p, n)
    decreases n
  {
    if t[p].name == name then true
    else if t[p].parent != NULL then IsKindOfName(t, t[p].parent, name, n - 1)
    else false
  }

  predicate IsKindOf(t: Table, p: int, q: int, ghost n: nat)
    requires p != NULL && Ends(t, p, n) && 0 <= q < |t|
    decreases n
  {
    if t[p].name == t[q].name then true
    else if t[p].parent != NULL then IsKindOf(t, t[p].parent, q, n - 1)
    else false
  }

  predicate IsKindOfFast(t: Table, p: int, q: int, ghost n: nat)
    requires p != NULL && Ends(t, p, n) && 0 <= q < |t|
    decreases n
  {
    if p == q then true
    else if t[p].parent != NULL then IsKindOfFast(t, t[p].parent, q, n - 1)
    else false
  }

  ghost predicate NamedAbove(t: Table, p: int, name: string) {
    exists a: int :: 0 <= a < |t| && Inherits(t, p, a) && t[a].name == name
  }

  lemma {:induction false} InheritsUp(t: Table, p: int, q: int)
    requires 0 <= p < |t|
    ensures Inherits(t, p, q) <==> p == q || Inherits(t, t[p].parent, q)
  {
    if p == q {
      assert Ancestor(t, p, 0) == q;
    } else if Inherits(t, p, q) {
      var j: nat :| Ancestor(t, p, j) == q;
      assert Ancestor(t, t[p].parent, j - 1) == q;
    } else if Inherits(t, t[p].parent, q) {
      var j: nat :| Ancestor(t, t[p].parent, j) == q;
      assert Ancestor(t, p, j + 1) == q;
    }
  }

  lemma {:induction false} NullInherits(t: Table, q: int)
    ensures Inherits(t, NULL, q) <==> q == NULL
  {
    assert Ancestor(t, NULL, 0) == NULL;
  }

  /** IsKindOfFast finds out whether `q` itself is on the parent chain of `p`. */
  lemma {:induction false} FastIsInheritance(t: Table, p: int, q: int, n: nat)
    requires p != NULL && Ends(t, p, n) && 0 <= q < |t|
    ensures IsKindOfFast(t, p, q, n) <==> Inherits(t, p, q)
    decreases n
  {
    InheritsUp(t, p, q);
    NullInherits(t, q);
    if t[p].parent != NULL {
      FastIsInheritance(t, t[p].parent, q, n - 1);
    }
  }

  /** IsKindOf finds out whether a class of that name is. */
  lemma {:induction false} KindIsNamedAbove(t: Table, p: int, q: int, n: nat)
    requires p != NULL && Ends(t, p, n) && 0 <= q < |t|
    ensures IsKindOf(t, p, q, n) == IsKindOfName(t, p, t[q].name, n)
    ensures IsKindOf(t, p, q, n) <==> NamedAbove(t, p, t[q].name)
    decreases n
  {
    InheritsUp(t, p, p);
    if t[p].name != t[q].name {
      forall a: int ensures Inherits(t, p, a) <==> p == a || Inherits(t, t[p].parent, a) {
        InheritsUp(t, p, a);
      }
      if t[p].parent != NULL {
        KindIsNamedAbove(t, t[p].parent, q, n - 1);
      } else {
        forall a: int ensures Inherits(t, NULL, a) <==> a == NULL {
          NullInherits(t, a);
        }
      }
    }
  }

  lemma {:induction false} FastImpliesKind(t: Table, p: int, q: int, n: nat)
    requires p != NULL && Ends(t, p, n) && 0 <= q < |t| && IsKindOfFast(t, p, q, n)
    ensures IsKindOf(t, p, q, n)
  {
    FastIsInheritance(t, p, q, n);
    KindIsNamedAbove(t, p, q, n);
  }

  lemma {:induction false} ChainShortens(t: Table, p: int, q: int, n: nat, m: nat, j: nat)
    requires Ends(t, p, n) && q == Ancestor(t, p, j) && Ends(t, q, m) && p != NULL
    ensures m <= n && (p != q ==> m < n)
    decreases j
  {
    if j == 0 {
      SameLength(t, p, n, m);
    } else if t[p].parent != NULL {
      ChainShortens(t, t[p].parent, q, n - 1, m, j - 1);
    }
  }

  lemma {:induction false} SameLength(t: Table, p: int, n: nat, m: nat)
    requires Ends(t, p, n) && Ends(t, p, m)
    ensures n == m
    decreases n
  {
    if p != NULL {
      SameLength(t, t[p].parent, n - 1, m - 1);
    }
  }

  /** No two classes are above each other. */
  lemma {:induction false} NotBothAbove(t: Table, p: int, q: int, n: nat, m: nat)
    requires 0 <= p < |t| && 0 <= q < |t| && p != q && Ends(t, p, n) && Ends(t, q, m)
    ensures !Inherits(t, p, q) || !Inherits(t, q, p)
  {
    if Inherits(t, p, q) && Inherits(t, q, p) {
      var j: nat :| Ancestor(t, p, j) == q;
      var i: nat :| Ancestor(t, q, i) == p;
      ChainShortens(t, p, q, n, m, j);
      ChainShortens(t, q, p, m, n, i);
    }
  }

  ghost predicate DistinctNames(t: Table) {
    forall p, q :: 0 <= p < |t| && 0 <= q < |t| && p != q ==> t[p].name != t[q].name
  }

  ghost predicate Agree(t: Table, p: int, q: int) {
    0 <= p < |t| && 0 <= q < |t| ==>
      forall n: nat :: Ends(t, p, n) ==> IsKindOf(t, p, q, n) == IsKindOfFast(t, p, q, n)
  }

  lemma {:induction false} DistinctAgree(t: Table, p: int, q: int)
    requires Acyclic(t) && DistinctNames(t)
    ensures Agree(t, p, q)
  {
    if 0 <= p < |t| && 0 <= q < |t| {
      forall n: nat | Ends(t, p, n)
        ensures IsKindOf(t, p, q, n) == IsKindOfFast(t, p, q, n)
      {
        FastIsInheritance(t, p, q, n);
        KindIsNamedAbove(t, p, q, n);
        assert forall a :: 0 <= a < |t| && t[a].name == t[q].name ==> a == q;
      }
    }
  }

  /** The two agree on all classes exactly when no two classes share a name. */
  lemma {:induction false} AgreeExactlyWhenDistinct(t: Table)
    requires Acyclic(t)
    ensures (forall p, q :: Agree(t, p, q)) <==> DistinctNames(t)
  {
    if DistinctNames(t) {
      forall p, q ensures Agree(t, p, q) {
        DistinctAgree(t, p, q);
      }
    } else {
      var p, q :| 0 <= p < |t| && 0 <= q < |t| && p != q && t[p].name == t[q].name;
      assert HasEnd(t, p) && HasEnd(t, q);
      var n: nat :| Ends(t, p, n);
      var m: nat :| Ends(t, q, m);
      NotBothAbove(t, p, q, n, m);
      FastIsInheritance(t, p, q, n);
      FastIsInheritance(t, q, p, m);
      assert IsKindOf(t, p, q, n) && IsKindOf(t, q, p, m);
      assert !Agree(t, p, q) || !Agree(t, q, p);
    }
  }
}
