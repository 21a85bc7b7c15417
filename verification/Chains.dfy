/** The links of CThreadSafeList as values: a pool of nodes, the chains threaded through it,
    and what each relinking does to them.  A pointer to a node is its index in the pool,
    NULL is -1. */
module Chains {

  const NULL: int := -1

  datatype StorageNode<T> = StorageNode(prev: int, next: int, isFree: bool, obj: T)

  /** The pointer to place `k` of a chain: NULL before its first and after its last node. */
  function At(s: seq<int>, k: int): int {
    if 0 <= k < |s| then s[k] else NULL
  }

  function DropAt<X>(s: seq<X>, k: nat): seq<X>
    requires k < |s|
  {
    s[..k] + s[k + 1..]
  }

  ghost predicate InPool<T>(nodes: seq<StorageNode<T>>, s: seq<int>) {
    forall k :: 0 <= k < |s| ==> 0 <= s[k] < |nodes|
  }

  ghost predicate LinkAt<T>(nodes: seq<StorageNode<T>>, s: seq<int>, k: nat)
    requires k < |s| && InPool(nodes, s)
  {
    nodes[s[k]].prev == At(s, k - 1) && nodes[s[k]].next == At(s, k + 1)
  }

  /** `s` lists the nodes of a doubly linked chain that ends in NULL at both ends. */
  ghost predicate Linked<T>(nodes: seq<StorageNode<T>>, s: seq<int>) {
    InPool(nodes, s) && forall k :: 0 <= k < |s| ==> LinkAt(nodes, s, k)
  }

  ghost predicate Distinct(s: seq<int>) {
    forall i, j :: 0 <= i < j < |s| ==> s[i] != s[j]
  }

  function Ids(n: nat): (s: seq<int>)
    ensures |s| == n && forall i :: 0 <= i < n ==> s[i] == i
  {
    seq(n, i => i)
  }

  /** Every node of the pool is in exactly one of the chains, or in `out`, exactly once. */
  ghost predicate Partition(size: nat, used: seq<int>, free: seq<int>, out: seq<int>) {
    multiset(used) + multiset(free) + multiset(out) == multiset(Ids(size))
  }

  ghost predicate Flagged<T>(nodes: seq<StorageNode<T>>, s: seq<int>, isFree: bool) {
    InPool(nodes, s) && forall k :: 0 <= k < |s| ==> nodes[s[k]].isFree == isFree
  }

  // ---------------------------------------------------------------- counting

  lemma {:induction false} IdsOnce(n: nat, x: int)
    ensures multiset(Ids(n))[x] == if 0 <= x < n then 1 else 0
  {
    if n > 0 {
      IdsOnce(n - 1, x);
      assert Ids(n) == Ids(n - 1) + [n - 1];
    }
  }

  lemma {:induction false} OnceIsDistinct(s: seq<int>)
    requires forall x :: multiset(s)[x] <= 1
    ensures Distinct(s)
  {
    forall i, j | 0 <= i < j < |s|
      ensures s[i] != s[j]
    {
      assert s == s[..j] + [s[j]] + s[j + 1..];
      assert s[..j][i] == s[i] && s[i] in multiset(s[..j]);
      var x := s[j];
      assert multiset(s)[x] <= 1;
      assert multiset(s)[x] == multiset(s[..j])[x] + 1 + multiset(s[j + 1..])[x];
    }
  }

  /** A partition consists of chains without repetition that share no node. */
  lemma {:induction false} PartitionIsDisjoint(size: nat, used: seq<int>, free: seq<int>, out: seq<int>)
    requires Partition(size, used, free, out)
    ensures Distinct(used) && Distinct(free)
    ensures forall x :: x in used ==> x !in free && x !in out && 0 <= x < size
    ensures forall x :: x in free ==> x !in used && x !in out && 0 <= x < size
    ensures forall x :: x in out ==> x !in used && x !in free && 0 <= x < size
    ensures forall x :: 0 <= x < size ==> x in used || x in free || x in out
    ensures |used| + |free| + |out| == size
  {
    var m := multiset(Ids(size));
    assert |used| + |free| + |out| == |m| == size;
    forall x
      ensures multiset(used)[x] <= 1 && multiset(free)[x] <= 1
      ensures x in used ==> x !in free && x !in out && 0 <= x < size
      ensures x in free ==> x !in used && x !in out && 0 <= x < size
      ensures x in out ==> x !in used && x !in free && 0 <= x < size
      ensures 0 <= x < size ==> x in used || x in free || x in out
    {
      IdsOnce(size, x);
      assert m[x] == multiset(used)[x] + multiset(free)[x] + multiset(out)[x];
      assert x in used <==> x in multiset(used);
      assert x in free <==> x in multiset(free);
      assert x in out <==> x in multiset(out);
    }
    OnceIsDistinct(used);
    OnceIsDistinct(free);
  }

  // ---------------------------------------------------------------- writes through pointers

  function SetPrev<T>(nodes: seq<StorageNode<T>>, n: int, p: int): seq<StorageNode<T>> {
    if 0 <= n < |nodes| then nodes[n := nodes[n].(prev := p)] else nodes
  }

  function SetNext<T>(nodes: seq<StorageNode<T>>, n: int, p: int): seq<StorageNode<T>> {
    if 0 <= n < |nodes| then nodes[n := nodes[n].(next := p)] else nodes
  }

  /** The objects stored in the pool; no relinking touches them. */
  function Objects<T>(nodes: seq<StorageNode<T>>): (objs: seq<T>)
    ensures |objs| == |nodes|
  {
    seq(|nodes|, i requires 0 <= i < |nodes| => nodes[i].obj)
  }

  lemma {:induction false} WriteKeepsObjects<T>(nodes: seq<StorageNode<T>>, n: int, node: StorageNode<T>)
    requires 0 <= n < |nodes| && node.obj == nodes[n].obj
    ensures Objects(nodes[n := node]) == Objects(nodes)
  {
  }

  lemma {:induction false} SetKeepsObjects<T>(nodes: seq<StorageNode<T>>, n: int, p: int)
    ensures Objects(SetPrev(nodes, n, p)) == Objects(nodes)
    ensures Objects(SetNext(nodes, n, p)) == Objects(nodes)
  {
  }

  /** A write to a node outside a chain does not touch the chain. */
  lemma {:induction false} LinkedElsewhere<T>(nodes: seq<StorageNode<T>>, nodes': seq<StorageNode<T>>, s: seq<int>)
    requires Linked(nodes, s) && |nodes'| == |nodes|
    requires forall n :: n in s ==> nodes'[n].prev == nodes[n].prev && nodes'[n].next == nodes[n].next
    ensures Linked(nodes', s)
  {
    forall k | 0 <= k < |s|
      ensures LinkAt(nodes', s, k)
    {
      assert LinkAt(nodes, s, k) && s[k] in s;
    }
  }

  lemma {:induction false} DropFirst<T>(nodes: seq<StorageNode<T>>, s: seq<int>)
    requires Linked(nodes, s) && Distinct(s) && |s| > 0
    ensures nodes[s[0]].next == At(s[1..], 0)
    ensures Linked(SetPrev(nodes, At(s[1..], 0), NULL), s[1..])
  {
    assert LinkAt(nodes, s, 0);
    var t, nodes' := s[1..], SetPrev(nodes, At(s[1..], 0), NULL);
    forall k | 0 <= k < |t|
      ensures LinkAt(nodes', t, k)
    {
      assert LinkAt(nodes, s, k + 1);
    }
  }

  lemma {:induction false} AddFirst<T>(nodes: seq<StorageNode<T>>, s: seq<int>, n: int)
    requires Linked(nodes, s) && Distinct(s) && 0 <= n < |nodes| && n !in s
    requires nodes[n].prev == NULL && nodes[n].next == At(s, 0)
    ensures Linked(SetPrev(nodes, At(s, 0), n), [n] + s)
  {
    var t, nodes' := [n] + s, SetPrev(nodes, At(s, 0), n);
    forall k | 0 <= k < |t|
      ensures LinkAt(nodes', t, k)
    {
      if k > 0 {
        assert LinkAt(nodes, s, k - 1) && t[k] == s[k - 1];
      }
    }
  }

  lemma {:induction false} AddLast<T>(nodes: seq<StorageNode<T>>, s: seq<int>, n: int)
    requires Linked(nodes, s) && Distinct(s) && 0 <= n < |nodes| && n !in s
    requires nodes[n].prev == At(s, |s| - 1) && nodes[n].next == NULL
    ensures Linked(SetNext(nodes, At(s, |s| - 1), n), s + [n])
  {
    var t, nodes' := s + [n], SetNext(nodes, At(s, |s| - 1), n);
    forall k | 0 <= k < |t|
      ensures LinkAt(nodes', t, k)
    {
      if k < |s| {
        assert LinkAt(nodes, s, k) && t[k] == s[k];
      }
    }
  }

  /** Joining the neighbours of a node takes the node out of its chain. */
  lemma {:induction false} DropAny<T>(nodes: seq<StorageNode<T>>, s: seq<int>, k: nat)
    requires Linked(nodes, s) && Distinct(s) && k < |s|
    ensures nodes[s[k]].prev == At(s, k - 1) && nodes[s[k]].next == At(s, k + 1)
    ensures Linked(SetPrev(SetNext(nodes, At(s, k - 1), At(s, k + 1)), At(s, k + 1), At(s, k - 1)), DropAt(s, k))
  {
    assert LinkAt(nodes, s, k);
    var t := DropAt(s, k);
    var nodes' := SetPrev(SetNext(nodes, At(s, k - 1), At(s, k + 1)), At(s, k + 1), At(s, k - 1));
    forall i | 0 <= i < |t|
      ensures LinkAt(nodes', t, i)
    {
      var j := if i < k then i else i + 1;
      assert LinkAt(nodes, s, j) && t[i] == s[j];
      assert At(t, i - 1) == (if i == k then At(s, k - 1) else At(s, j - 1));
      assert At(t, i + 1) == (if i + 1 == k then At(s, k + 1) else At(s, j + 1));
    }
  }

  lemma {:induction false} DropAtEnds(s: seq<int>, k: nat)
    requires k < |s|
    ensures At(DropAt(s, k), 0) == if k == 0 then At(s, 1) else At(s, 0)
    ensures At(DropAt(s, k), |s| - 2) == if k == |s| - 1 then At(s, k - 1) else At(s, |s| - 1)
  {
  }

  lemma {:induction false} DropAtMultiset(s: seq<int>, k: nat)
    requires k < |s|
    ensures multiset(DropAt(s, k)) + multiset{s[k]} == multiset(s)
  {
    assert s == s[..k] + [s[k]] + s[k + 1..];
  }

  // ---------------------------------------------------------------- the five relinkings

  /** Two linked chains that hold every node of the pool, but those in `out`, exactly once,
      each node flagged with the chain it is in. */
  ghost predicate WellThreaded<T>(nodes: seq<StorageNode<T>>, used: seq<int>, free: seq<int>, out: seq<int>) {
    && Partition(|nodes|, used, free, out)
    && Linked(nodes, used) && Linked(nodes, free)
    && Flagged(nodes, used, false) && Flagged(nodes, free, true)
  }

  /** A write that keeps the links and the flag of every node of a chain. */
  lemma {:induction false} FlaggedElsewhere<T>(nodes: seq<StorageNode<T>>, nodes': seq<StorageNode<T>>, s: seq<int>,
                                               f: bool)
    requires Flagged(nodes, s, f) && |nodes'| == |nodes|
    requires forall n :: n in s ==> nodes'[n].isFree == nodes[n].isFree
    ensures Flagged(nodes', s, f)
  {
    forall k | 0 <= k < |s|
      ensures nodes'[s[k]].isFree == f
    {
      assert s[k] in s;
    }
  }

  lemma {:induction false} TakeFree<T>(nodes: seq<StorageNode<T>>, used: seq<int>, free: seq<int>)
    requires WellThreaded(nodes, used, free, []) && |free| > 0
    ensures 0 <= free[0] < |nodes| && nodes[free[0]].next == At(free, 1) == At(free[1..], 0)
    ensures
      var nodes2 := SetPrev(nodes, At(free, 1), NULL);
      WellThreaded(nodes2, used, free[1..], [free[0]]) && Objects(nodes2) == Objects(nodes)
    ensures At(free, 1) == NULL || 0 <= At(free, 1) < |nodes|
  {
    PartitionIsDisjoint(|nodes|, used, free, []);
    var nodes' := SetPrev(nodes, At(free, 1), NULL);
    DropFirst(nodes, free);
    SetKeepsObjects(nodes, At(free, 1), NULL);
    assert free == [free[0]] + free[1..];
    LinkedElsewhere(nodes, nodes', used);
    FlaggedElsewhere(nodes, nodes', used, false);
    FlaggedElsewhere(nodes, nodes', free[1..], true);
  }

  lemma {:induction false} PutFree<T>(nodes: seq<StorageNode<T>>, used: seq<int>, free: seq<int>, n: int)
    requires WellThreaded(nodes, used, free, [n])
    ensures 0 <= n < |nodes|
    ensures
      var nodes1 := nodes[n := nodes[n].(prev := NULL, next := At(free, 0), isFree := true)];
      var nodes2 := SetPrev(nodes1, At(free, 0), n);
      WellThreaded(nodes2, used, [n] + free, []) && Objects(nodes2) == Objects(nodes)
    ensures At(free, 0) == NULL || 0 <= At(free, 0) < |nodes|
  {
    PartitionIsDisjoint(|nodes|, used, free, [n]);
    assert n in [n];
    var nodes1 := nodes[n := nodes[n].(prev := NULL, next := At(free, 0), isFree := true)];
    var nodes2 := SetPrev(nodes1, At(free, 0), n);
    LinkedElsewhere(nodes, nodes1, free);
    AddFirst(nodes1, free, n);
    WriteKeepsObjects(nodes, n, nodes1[n]);
    SetKeepsObjects(nodes1, At(free, 0), n);
    LinkedElsewhere(nodes, nodes2, used);
    FlaggedElsewhere(nodes, nodes2, used, false);
    FlaggedElsewhere(nodes, nodes2, free, true);
  }

  lemma {:induction false} PutFront<T>(nodes: seq<StorageNode<T>>, used: seq<int>, free: seq<int>, n: int)
    requires WellThreaded(nodes, used, free, [n])
    ensures 0 <= n < |nodes|
    ensures
      var nodes1 := nodes[n := nodes[n].(prev := NULL, next := At(used, 0), isFree := false)];
      var nodes2 := SetPrev(nodes1, At(used, 0), n);
      WellThreaded(nodes2, [n] + used, free, []) && Objects(nodes2) == Objects(nodes)
    ensures At(used, 0) == NULL || 0 <= At(used, 0) < |nodes|
  {
    PartitionIsDisjoint(|nodes|, used, free, [n]);
    assert n in [n];
    var nodes1 := nodes[n := nodes[n].(prev := NULL, next := At(used, 0), isFree := false)];
    var nodes2 := SetPrev(nodes1, At(used, 0), n);
    LinkedElsewhere(nodes, nodes1, used);
    AddFirst(nodes1, used, n);
    WriteKeepsObjects(nodes, n, nodes1[n]);
    SetKeepsObjects(nodes1, At(used, 0), n);
    LinkedElsewhere(nodes, nodes2, free);
    FlaggedElsewhere(nodes, nodes2, used, false);
    FlaggedElsewhere(nodes, nodes2, free, true);
  }

  lemma {:induction false} PutBack<T>(nodes: seq<StorageNode<T>>, used: seq<int>, free: seq<int>, n: int)
    requires WellThreaded(nodes, used, free, [n])
    ensures 0 <= n < |nodes|
    ensures
      var last := At(used, |used| - 1);
      var nodes1 := nodes[n := nodes[n].(prev := last, next := NULL, isFree := false)];
      var nodes2 := SetNext(nodes1, last, n);
      WellThreaded(nodes2, used + [n], free, []) && Objects(nodes2) == Objects(nodes)
    ensures At(used, |used| - 1) == NULL || 0 <= At(used, |used| - 1) < |nodes|
  {
    PartitionIsDisjoint(|nodes|, used, free, [n]);
    assert n in [n];
    var last := At(used, |used| - 1);
    var nodes1 := nodes[n := nodes[n].(prev := last, next := NULL, isFree := false)];
    var nodes2 := SetNext(nodes1, last, n);
    LinkedElsewhere(nodes, nodes1, used);
    AddLast(nodes1, used, n);
    WriteKeepsObjects(nodes, n, nodes1[n]);
    SetKeepsObjects(nodes1, last, n);
    LinkedElsewhere(nodes, nodes2, free);
    FlaggedElsewhere(nodes, nodes2, used, false);
    FlaggedElsewhere(nodes, nodes2, free, true);
  }

  lemma {:induction false} TakeUsed<T>(nodes: seq<StorageNode<T>>, used: seq<int>, free: seq<int>, k: nat)
      returns (nodes1: seq<StorageNode<T>>, nodes2: seq<StorageNode<T>>)
    requires WellThreaded(nodes, used, free, []) && k < |used|
    ensures 0 <= used[k] < |nodes| == |nodes1|
    ensures
      var n, p, q := used[k], nodes1[used[k]].prev, nodes1[used[k]].next;
      && nodes1 == nodes[n := nodes[n].(isFree := true)]
      && nodes2 == SetPrev(SetNext(nodes1, p, q), q, p)
      && WellThreaded(nodes2, DropAt(used, k), free, [n]) && Objects(nodes2) == Objects(nodes)
      && p == At(used, k - 1) && q == At(used, k + 1)
      && (p == NULL || 0 <= p < |nodes|) && (q == NULL || 0 <= q < |nodes|)
      && (p == NULL <==> k == 0) && (q == NULL <==> k == |used| - 1)
  {
    PartitionIsDisjoint(|nodes|, used, free, []);
    var n, p, q := used[k], At(used, k - 1), At(used, k + 1);
    nodes1 := nodes[n := nodes[n].(isFree := true)];
    nodes2 := SetPrev(SetNext(nodes1, p, q), q, p);
    WriteKeepsObjects(nodes, n, nodes1[n]);
    SetKeepsObjects(nodes1, p, q);
    SetKeepsObjects(SetNext(nodes1, p, q), q, p);
    LinkedElsewhere(nodes, nodes1, used);
    DropAny(nodes1, used, k);
    DropAtMultiset(used, k);
    FreeIsSpared(nodes, nodes1, nodes2, used, free, k);
    FlaggedDropAt(nodes, nodes2, used, k);
  }

  /** Joining a node's neighbours does not reach into another chain. */
  lemma {:induction false} FreeIsSpared<T>(nodes: seq<StorageNode<T>>, nodes1: seq<StorageNode<T>>,
                                           nodes2: seq<StorageNode<T>>, used: seq<int>, free: seq<int>, k: nat)
    requires InPool(nodes, used) && k < |used| && Linked(nodes, free) && Flagged(nodes, free, true)
    requires forall x :: x in free ==> x !in used
    requires nodes1 == nodes[used[k] := nodes[used[k]].(isFree := true)]
    requires nodes2 == SetPrev(SetNext(nodes1, At(used, k - 1), At(used, k + 1)), At(used, k + 1), At(used, k - 1))
    ensures Linked(nodes2, free) && Flagged(nodes2, free, true)
  {
    forall x | x in free
      ensures 0 <= x < |nodes| == |nodes2| && nodes2[x] == nodes[x]
    {
      assert used[k] in used && (k > 0 ==> used[k - 1] in used) && (k + 1 < |used| ==> used[k + 1] in used);
    }
    LinkedElsewhere(nodes, nodes2, free);
    FlaggedElsewhere(nodes, nodes2, free, true);
  }

  lemma {:induction false} FlaggedDropAt<T>(nodes: seq<StorageNode<T>>, nodes': seq<StorageNode<T>>,
                                            s: seq<int>, k: nat)
    requires Flagged(nodes, s, false) && Distinct(s) && k < |s| && |nodes'| == |nodes|
    requires forall i :: 0 <= i < |nodes| && i != s[k] ==> nodes'[i].isFree == nodes[i].isFree
    ensures Flagged(nodes', DropAt(s, k), false)
  {
    var t := DropAt(s, k);
    forall i | 0 <= i < |t|
      ensures 0 <= t[i] < |nodes| && !nodes'[t[i]].isFree
    {
      var j := if i < k then i else i + 1;
      assert t[i] == s[j] && s[j] != s[k];
    }
  }

  /** The pool as Clear leaves it: one free chain through all the nodes in order. */
  lemma {:induction false} AllFree<T>(nodes: seq<StorageNode<T>>)
    requires forall j :: 0 <= j < |nodes| ==>
      nodes[j].prev == j - 1 && nodes[j].next == (if j == |nodes| - 1 then NULL else j + 1) && nodes[j].isFree
    ensures WellThreaded(nodes, [], Ids(|nodes|), [])
  {
    var s := Ids(|nodes|);
    forall k | 0 <= k < |s|
      ensures LinkAt(nodes, s, k)
    {
    }
  }

  /** The object of a node plays no part in the links. */
  lemma {:induction false} SameLinks<T>(nodes: seq<StorageNode<T>>, n: int, x: T, used: seq<int>, free: seq<int>)
    requires WellThreaded(nodes, used, free, []) && 0 <= n < |nodes|
    ensures
      var nodes' := nodes[n := nodes[n].(obj := x)];
      WellThreaded(nodes', used, free, []) && Objects(nodes') == Objects(nodes)[n := x]
  {
    var nodes' := nodes[n := nodes[n].(obj := x)];
    InChains(nodes, used, free, []);
    LinkedElsewhere(nodes, nodes', used);
    LinkedElsewhere(nodes, nodes', free);
    FlaggedElsewhere(nodes, nodes', used, false);
    FlaggedElsewhere(nodes, nodes', free, true);
  }

  lemma {:induction false} InChains<T>(nodes: seq<StorageNode<T>>, used: seq<int>, free: seq<int>, out: seq<int>)
    requires WellThreaded(nodes, used, free, out)
    ensures forall k :: 0 <= k < |used| ==> 0 <= used[k] < |nodes|
    ensures forall k :: 0 <= k < |free| ==> 0 <= free[k] < |nodes|
    ensures Distinct(used) && Distinct(free)
    ensures |used| + |free| + |out| == |nodes|
  {
    PartitionIsDisjoint(|nodes|, used, free, out);
  }

  /** The free list is empty exactly when every node is in use. */
  lemma {:induction false} FreeHead<T>(nodes: seq<StorageNode<T>>, used: seq<int>, free: seq<int>)
    requires WellThreaded(nodes, used, free, [])
    ensures At(free, 0) == NULL <==> |used| == |nodes|
  {
    InChains(nodes, used, free, []);
  }
}
