/** CThreadSafeList: a bounded deque over a fixed pool of nodes.  Every operation runs under
    one lock, so each method is one atomic step.  The positions handed out as LPVOID are
    indices in the pool. */
module ThreadSafeLists {
  import opened Basics
  import opened Chains
  import opened BoundedDeque

  /** The objects at the given nodes. */
  function Selected<T>(objs: seq<T>, s: seq<int>): (r: seq<T>)
    requires forall k :: 0 <= k < |s| ==> 0 <= s[k] < |objs|
    ensures |r| == |s|
  {
    seq(|s|, i requires 0 <= i < |s| => objs[s[i]])
  }

  lemma {:induction false} SelectFirst<T>(objs: seq<T>, n: int, s: seq<int>, x: T)
    requires 0 <= n < |objs| && (forall k :: 0 <= k < |s| ==> 0 <= s[k] < |objs|) && Distinct([n] + s)
    ensures Selected(objs[n := x], [n] + s) == [x] + Selected(objs, s)
  {
    forall k | 0 <= k < |s|
      ensures s[k] != n
    {
      assert ([n] + s)[0] == n && ([n] + s)[k + 1] == s[k];
    }
  }

  lemma {:induction false} SelectLast<T>(objs: seq<T>, n: int, s: seq<int>, x: T)
    requires 0 <= n < |objs| && (forall k :: 0 <= k < |s| ==> 0 <= s[k] < |objs|) && Distinct(s + [n])
    ensures Selected(objs[n := x], s + [n]) == Selected(objs, s) + [x]
  {
    forall k | 0 <= k < |s|
      ensures s[k] != n
    {
      assert (s + [n])[|s|] == n && (s + [n])[k] == s[k];
    }
  }

  lemma {:induction false} SelectDrop<T>(objs: seq<T>, s: seq<int>, k: nat)
    requires (forall i :: 0 <= i < |s| ==> 0 <= s[i] < |objs|) && k < |s|
    ensures forall i :: 0 <= i < |s| - 1 ==> 0 <= DropAt(s, k)[i] < |objs|
    ensures Selected(objs, DropAt(s, k)) == DropAt(Selected(objs, s), k)
  {
    forall i | 0 <= i < |s| - 1
      ensures DropAt(s, k)[i] == if i < k then s[i] else s[i + 1]
    {
    }
  }

  lemma {:induction false} AddFirstEnds(s: seq<int>, n: int)
    ensures At([n] + s, 0) == n
    ensures At([n] + s, |s|) == if s == [] then n else At(s, |s| - 1)
  {
  }

  lemma {:induction false} FirstInPool<T>(nodes: seq<StorageNode<T>>, n: int, s: seq<int>)
    requires InPool(nodes, [n] + s)
    ensures 0 <= n < |nodes| && InPool(nodes, s)
  {
    assert ([n] + s)[0] == n && forall k :: 0 <= k < |s| ==> ([n] + s)[k + 1] == s[k];
  }

  lemma {:induction false} LastInPool<T>(nodes: seq<StorageNode<T>>, n: int, s: seq<int>)
    requires InPool(nodes, s + [n])
    ensures 0 <= n < |nodes| && InPool(nodes, s)
  {
    assert (s + [n])[|s|] == n && forall k :: 0 <= k < |s| ==> (s + [n])[k] == s[k];
  }

  /** What one call does to the positions in use: an object that stays keeps its position. */
  ghost predicate Moved<T>(before: seq<int>, after: seq<int>, cap: nat, op: Op<T>) {
    match op
    case PushFrontOp(_) => if |before| < cap then |after| == |before| + 1 && after[1..] == before else after == before
    case PushBackOp(_) =>
      if |before| < cap then |after| == |before| + 1 && after[..|before|] == before else after == before
    case PopFrontOp => after == if before == [] then before else before[1..]
    case PopBackOp => after == if before == [] then before else before[..|before| - 1]
    case DeleteOp(k) => after == if k < |before| then DropAt(before, k) else before
    case ClearOp => after == []
    case _ => after == before
  }

  lemma {:induction false} StepDrops<T>(c: seq<T>, used: seq<int>, cap: nat, k: nat)
    requires |c| == |used|
    ensures Step(c, cap, DeleteOp(k)) == (if k < |c| then DropAt(c, k) else c, Flag(k < |c|))
    ensures Moved<T>(used, if k < |c| then DropAt(used, k) else used, cap, DeleteOp(k))
  {
  }

  class ThreadSafeList<T(0)> {
    var objectBuff: array<StorageNode<T>>
    var freeList: int
    var objectList: int
    var objectListTail: int
    var objectCount: nat
    var objectBuffSize: nat
    var isCreated: bool                // m_pObjectBuff != NULL
    /** The nodes of the two chains, in order. */
    ghost var used: seq<int>
    ghost var free: seq<int>

    ghost predicate Threaded(out: seq<int>)
      reads this`objectBuff, this`objectBuffSize, this`freeList, this`objectList, this`objectListTail
      reads this`used, this`free, objectBuff
    {
      && objectBuff.Length == objectBuffSize
      && WellThreaded(objectBuff[..], used, free, out)
      && freeList == At(free, 0)
      && objectList == At(used, 0) && objectListTail == At(used, |used| - 1)
    }

    ghost predicate Valid()
      reads this, objectBuff
    {
      Threaded([]) && objectCount == |used| && (isCreated <==> objectBuffSize > 0)
    }

    ghost function Contents(): seq<T>
      requires InPool(objectBuff[..], used)
      reads this`objectBuff, this`used, objectBuff
    {
      Selected(Objects(objectBuff[..]), used)
    }

    constructor ()
      ensures Valid() && used == [] && objectBuffSize == 0
    {
      objectBuff := new StorageNode<T>[0];
      isCreated := false;
      freeList, objectList, objectListTail := NULL, NULL, NULL;
      objectCount, objectBuffSize := 0, 0;
      used, free := [], [];
    }

    method Destory()
      modifies this
      ensures Valid() && used == [] && objectBuffSize == 0 && fresh(objectBuff)
    {
      objectBuff := new StorageNode<T>[0];
      isCreated := false;
      freeList, objectList, objectListTail := NULL, NULL, NULL;
      objectCount, objectBuffSize := 0, 0;
      used, free := [], [];
    }

    /** All nodes free.  On a pool of size 0, which is not NULL, the free list points past it. */
    method Clear()
      requires objectBuff.Length == objectBuffSize && (objectBuffSize > 0 ==> isCreated)
      modifies this, objectBuff
      ensures objectBuff == old(objectBuff) && objectBuffSize == old(objectBuffSize) && isCreated == old(isCreated)
      ensures used == [] && free == Ids(objectBuffSize) && objectList == objectListTail == NULL && objectCount == 0
      ensures freeList == if isCreated then 0 else NULL
      ensures Valid() <==> isCreated == (objectBuffSize > 0)
    {
      var i := 0;
      while i < objectBuffSize
        invariant 0 <= i <= objectBuffSize == objectBuff.Length
        invariant objectBuff == old(objectBuff) && objectBuffSize == old(objectBuffSize)
        invariant isCreated == old(isCreated)
        invariant forall j :: 0 <= j < i ==>
          && objectBuff[j].prev == j - 1
          && objectBuff[j].next == (if j == objectBuffSize - 1 then NULL else j + 1)
          && objectBuff[j].isFree
      {
        WriteNode(i, if i == 0 then NULL else i - 1, if i == objectBuffSize - 1 then NULL else i + 1, true);
        i := i + 1;
      }
      freeList := if isCreated then 0 else NULL;
      objectList, objectListTail := NULL, NULL;
      objectCount := 0;
      used, free := [], Ids(objectBuffSize);
      assert At(free, 0) == if objectBuffSize > 0 then 0 else NULL;
      AllFree(objectBuff[..]);
    }

    /** The list can be used exactly when the size is positive: for 0 there is no node, yet the
        free list is not NULL, and a push would take a node past the pool. */
    method Create(size: nat)
      modifies this
      ensures objectBuffSize == objectBuff.Length == size && isCreated && fresh(objectBuff)
      ensures used == [] && free == Ids(size) && freeList == 0
      ensures Valid() <==> size > 0
    {
      Destory();
      objectBuffSize := size;
      objectBuff := new StorageNode<T>[size];
      isCreated := true;
      Clear();
    }

    // ---------------------------------------------------------------- relinking one node

    /** What no relinking changes. */
    twostate predicate SamePool()
      reads this, objectBuff
    {
      && objectBuff == old(objectBuff) && objectBuffSize == old(objectBuffSize)
      && Objects(objectBuff[..]) == old(Objects(objectBuff[..]))
    }

    /** pNode->pPrev = p */
    method WritePrev(n: int, p: int)
      requires 0 <= n < objectBuff.Length
      modifies objectBuff
      ensures objectBuff[..] == SetPrev(old(objectBuff[..]), n, p)
    {
      objectBuff[n] := objectBuff[n].(prev := p);
    }

    /** pNode->pNext = p */
    method WriteNext(n: int, p: int)
      requires 0 <= n < objectBuff.Length
      modifies objectBuff
      ensures objectBuff[..] == SetNext(old(objectBuff[..]), n, p)
    {
      objectBuff[n] := objectBuff[n].(next := p);
    }

    /** pNode->IsFree = true */
    method SetFree(n: int)
      requires 0 <= n < objectBuff.Length
      modifies objectBuff
      ensures objectBuff[..] == old(objectBuff[..][n := objectBuff[n].(isFree := true)])
    {
      objectBuff[n] := objectBuff[n].(isFree := true);
    }

    /** Fills in a node that is in neither chain. */
    method WriteNode(n: int, prev: int, next: int, isFree: bool)
      requires 0 <= n < objectBuff.Length
      modifies objectBuff
      ensures objectBuff[..] == old(objectBuff[..][n := objectBuff[n].(prev := prev, next := next, isFree := isFree)])
    {
      objectBuff[n] := objectBuff[n].(prev := prev, next := next, isFree := isFree);
    }

    /** Takes the first node of the free chain. */
    method UnlinkFree() returns (n: int)
      requires Threaded([]) && freeList != NULL
      modifies this`freeList, this`free, objectBuff
      ensures Threaded([n]) && SamePool()
      ensures old(free) == [n] + free
    {
      TakeFree(objectBuff[..], used, free);
      n := freeList;
      freeList := objectBuff[n].next;
      if freeList != NULL {
        WritePrev(freeList, NULL);
      }
      free := free[1..];
    }

    /** The second half of DeleteNode: puts the node in front of the free chain. */
    method LinkFree(n: int)
      requires Threaded([n])
      modifies this`freeList, this`free, objectBuff
      ensures Threaded([]) && SamePool()
      ensures free == [n] + old(free)
    {
      PutFree(objectBuff[..], used, free, n);
      WriteNode(n, NULL, freeList, true);
      if freeList != NULL {
        WritePrev(freeList, n);
      }
      freeList := n;
      free := [n] + free;
    }

    method LinkFront(n: int)
      requires Threaded([n])
      modifies this`objectList, this`objectListTail, this`used, objectBuff
      ensures Threaded([]) && SamePool()
      ensures used == [n] + old(used)
    {
      PutFront(objectBuff[..], used, free, n);
      AddFirstEnds(used, n);
      ghost var nodes1 := objectBuff[..][n := objectBuff[n].(prev := NULL, next := objectList, isFree := false)];
      WriteNode(n, NULL, objectList, false);
      assert objectBuff[..] == nodes1;
      JoinFirst(n);
      objectList := n;
      used := [n] + used;
    }

    method JoinFirst(n: int)
      requires objectList == NULL || 0 <= objectList < objectBuff.Length
      modifies this`objectListTail, objectBuff
      ensures objectBuff[..] == SetPrev(old(objectBuff[..]), objectList, n)
      ensures objectListTail == if objectList == NULL then n else old(objectListTail)
    {
      if objectList != NULL {
        WritePrev(objectList, n);
      } else {
        objectListTail := n;
      }
    }

    method LinkBack(n: int)
      requires Threaded([n])
      modifies this`objectList, this`objectListTail, this`used, objectBuff
      ensures Threaded([]) && SamePool()
      ensures used == old(used) + [n]
    {
      PutBack(objectBuff[..], used, free, n);
      WriteNode(n, objectListTail, NULL, false);
      JoinLast(n);
      objectListTail := n;
      used := used + [n];
    }

    method JoinLast(n: int)
      requires objectListTail == NULL || 0 <= objectListTail < objectBuff.Length
      modifies this`objectList, objectBuff
      ensures objectBuff[..] == SetNext(old(objectBuff[..]), objectListTail, n)
      ensures objectList == if objectListTail == NULL then n else old(objectList)
    {
      if objectListTail != NULL {
        WriteNext(objectListTail, n);
      } else {
        objectList := n;
      }
    }

    /** The first half of DeleteNode: joins the neighbours of the node at place `k`. */
    method Unlink(n: int, ghost k: nat)
      requires Threaded([]) && k < |used| && n == used[k]
      modifies this`objectList, this`objectListTail, this`used, objectBuff
      ensures Threaded([n]) && SamePool()
      ensures used == DropAt(old(used), k)
    {
      ghost var nodes1, nodes2 := TakeUsed(objectBuff[..], used, free, k);
      DropAtEnds(used, k);
      Detach(n, nodes1);
      assert objectBuff[..] == nodes2;
      used := DropAt(used, k);
    }

    method Detach(n: int, ghost nodes1: seq<StorageNode<T>>)
      requires 0 <= n < objectBuff.Length && nodes1 == objectBuff[..][n := objectBuff[n].(isFree := true)]
      requires nodes1[n].prev == NULL || 0 <= nodes1[n].prev < objectBuff.Length
      requires nodes1[n].next == NULL || 0 <= nodes1[n].next < objectBuff.Length
      modifies this`objectList, this`objectListTail, objectBuff
      ensures objectBuff[..] == SetPrev(SetNext(nodes1, nodes1[n].prev, nodes1[n].next), nodes1[n].next, nodes1[n].prev)
      ensures objectList == if nodes1[n].prev == NULL then nodes1[n].next else old(objectList)
      ensures objectListTail == if nodes1[n].next == NULL then nodes1[n].prev else old(objectListTail)
    {
      SetFree(n);
      assert objectBuff[..] == nodes1 && objectBuff[n] == nodes1[n];
      JoinNeighbours(objectBuff[n].prev, objectBuff[n].next);
    }

    method JoinNeighbours(p: int, q: int)
      requires p == NULL || 0 <= p < objectBuff.Length
      requires q == NULL || 0 <= q < objectBuff.Length
      modifies this`objectList, this`objectListTail, objectBuff
      ensures objectBuff[..] == SetPrev(SetNext(old(objectBuff[..]), p, q), q, p)
      ensures objectList == if p == NULL then q else old(objectList)
      ensures objectListTail == if q == NULL then p else old(objectListTail)
    {
      if p != NULL {
        WriteNext(p, q);
        if q != NULL {
          WritePrev(q, p);
        } else {
          objectListTail := p;
        }
      } else {
        objectList := q;
        if objectList != NULL {
          WritePrev(objectList, NULL);
        } else {
          objectListTail := NULL;
        }
      }
    }

    // ---------------------------------------------------------------- the operations

    /** What the caller sees: the objects in order and how many there may be. */
    twostate predicate SameSize()
      reads this
    {
      objectBuff == old(objectBuff) && objectBuffSize == old(objectBuffSize)
    }

    /** The first free node becomes the first one in use. */
    method LinkNewFront() returns (n: int)
      requires Threaded([]) && freeList != NULL
      modifies this`freeList, this`free, this`objectList, this`objectListTail, this`used, objectBuff
      ensures Threaded([]) && SamePool()
      ensures n != NULL && used == [n] + old(used) && old(free) == [n] + free
    {
      n := UnlinkFree();
      InChains(objectBuff[..], used, free, [n]);
      LinkFront(n);
    }

    /** Or the last. */
    method LinkNewBack() returns (n: int)
      requires Threaded([]) && freeList != NULL
      modifies this`freeList, this`free, this`objectList, this`objectListTail, this`used, objectBuff
      ensures Threaded([]) && SamePool()
      ensures n != NULL && used == old(used) + [n] && old(free) == [n] + free
    {
      n := UnlinkFree();
      InChains(objectBuff[..], used, free, [n]);
      LinkBack(n);
    }

    /** PushFront(): the node may still hold an object from an earlier use. */
    method PushFrontNode() returns (n: int)
      requires Valid()
      modifies this, objectBuff
      ensures Valid() && SamePool()
      ensures n == NULL <==> old(|used|) == objectBuffSize
      ensures n == NULL ==> used == old(used) && free == old(free)
      ensures n != NULL ==> used == [n] + old(used) && old(free) == [n] + free
    {
      FreeHead(objectBuff[..], used, free);
      if freeList != NULL {
        n := LinkNewFront();
        objectCount := objectCount + 1;
      } else {
        n := NULL;
      }
    }

    /** PushBack() */
    method PushBackNode() returns (n: int)
      requires Valid()
      modifies this, objectBuff
      ensures Valid() && SamePool()
      ensures n == NULL <==> old(|used|) == objectBuffSize
      ensures n == NULL ==> used == old(used) && free == old(free)
      ensures n != NULL ==> used == old(used) + [n] && old(free) == [n] + free
    {
      FreeHead(objectBuff[..], used, free);
      if freeList != NULL {
        n := LinkNewBack();
        objectCount := objectCount + 1;
      } else {
        n := NULL;
      }
    }

    /** pNode->Object = x */
    method WriteObject(n: int, x: T)
      requires Valid() && 0 <= n < objectBuff.Length
      modifies objectBuff
      ensures Valid() && Objects(objectBuff[..]) == old(Objects(objectBuff[..]))[n := x]
    {
      SameLinks(objectBuff[..], n, x, used, free);
      objectBuff[n] := objectBuff[n].(obj := x);
      assert objectBuff[..] == old(objectBuff[..][n := objectBuff[n].(obj := x)]);
    }

    /** The same for the first node in use, `rest` being the others. */
    method FillFirst(x: T, ghost rest: seq<int>)
      requires Valid() && used == [objectList] + rest
      modifies objectBuff
      ensures Valid() && InPool(old(objectBuff[..]), rest)
      ensures Contents() == [x] + Selected(old(Objects(objectBuff[..])), rest)
    {
      InChains(objectBuff[..], used, free, []);
      FirstInPool(objectBuff[..], objectList, rest);
      SelectFirst(Objects(objectBuff[..]), objectList, rest, x);
      WriteObject(objectList, x);
    }

    /** And for the last. */
    method FillLast(x: T, ghost rest: seq<int>)
      requires Valid() && used == rest + [objectListTail]
      modifies objectBuff
      ensures Valid() && InPool(old(objectBuff[..]), rest)
      ensures Contents() == Selected(old(Objects(objectBuff[..])), rest) + [x]
    {
      InChains(objectBuff[..], used, free, []);
      LastInPool(objectBuff[..], objectListTail, rest);
      SelectLast(Objects(objectBuff[..]), objectListTail, rest, x);
      WriteObject(objectListTail, x);
    }

    method PushFront(x: T) returns (ok: bool)
      requires Valid()
      modifies this, objectBuff
      ensures Valid() && SameSize()
      ensures ok <==> old(|Contents()|) < objectBuffSize
      ensures Contents() == if ok then [x] + old(Contents()) else old(Contents())
      ensures Moved(old(used), used, objectBuffSize, PushFrontOp(x))
    {
      var n := PushFrontNode();
      ok := n != NULL;
      if ok {
        FillFirst(x, old(used));
      }
    }

    method PushBack(x: T) returns (ok: bool)
      requires Valid()
      modifies this, objectBuff
      ensures Valid() && SameSize()
      ensures ok <==> old(|Contents()|) < objectBuffSize
      ensures Contents() == if ok then old(Contents()) + [x] else old(Contents())
      ensures Moved(old(used), used, objectBuffSize, PushBackOp(x))
    {
      var n := PushBackNode();
      ok := n != NULL;
      if ok {
        FillLast(x, old(used));
      }
    }

    /** A push that returns the object's place, and the caller's assignment to it. */
    method PushAndFill(front: bool, x: T) returns (ok: bool)
      requires Valid()
      modifies this, objectBuff
      ensures Valid() && SameSize()
      ensures (Contents(), Flag(ok))
           == Step(old(Contents()), objectBuffSize, if front then PushFrontOp(x) else PushBackOp(x))
      ensures Moved(old(used), used, objectBuffSize, if front then PushFrontOp(x) else PushBackOp(x))
    {
      if front {
        ok := PushFrontAndFill(x);
      } else {
        ok := PushBackAndFill(x);
      }
    }

    method PushFrontAndFill(x: T) returns (ok: bool)
      requires Valid()
      modifies this, objectBuff
      ensures Valid() && SameSize()
      ensures (Contents(), Flag(ok)) == Step(old(Contents()), objectBuffSize, PushFrontOp(x))
      ensures Moved(old(used), used, objectBuffSize, PushFrontOp(x))
    {
      var place := PushFrontNode();
      ok := place != NULL;
      if ok {
        FillFirst(x, old(used));
      }
    }

    method PushBackAndFill(x: T) returns (ok: bool)
      requires Valid()
      modifies this, objectBuff
      ensures Valid() && SameSize()
      ensures (Contents(), Flag(ok)) == Step(old(Contents()), objectBuffSize, PushBackOp(x))
      ensures Moved(old(used), used, objectBuffSize, PushBackOp(x))
    {
      var place := PushBackNode();
      ok := place != NULL;
      if ok {
        FillLast(x, old(used));
      }
    }

    method DeleteNode(n: int, ghost k: nat)
      requires Valid() && k < |used| && n == used[k]
      modifies this, objectBuff
      ensures Valid() && SamePool()
      ensures used == DropAt(old(used), k) && free == [n] + old(free)
      ensures Contents() == DropAt(old(Contents()), k)
    {
      InChains(objectBuff[..], used, free, []);
      SelectDrop(Objects(objectBuff[..]), used, k);
      Unlink(n, k);
      LinkFree(n);
      objectCount := objectCount - 1;
    }

    /** DeleteObject: NULL is refused; anything else has to be the position of a node in use. */
    method DeleteObject(pos: int, ghost k: nat) returns (ok: bool)
      requires Valid() && pos == At(used, k)
      modifies this, objectBuff
      ensures Valid() && SamePool()
      ensures ok <==> k < old(|used|)
      ensures used == if ok then DropAt(old(used), k) else old(used)
      ensures Contents() == if ok then DropAt(old(Contents()), k) else old(Contents())
    {
      InChains(objectBuff[..], used, free, []);
      ok := pos != NULL;
      if ok {
        DeleteNode(pos, k);
      }
    }

    method PopFront() returns (r: Option<T>)
      requires Valid()
      modifies this, objectBuff
      ensures Valid() && SameSize()
      ensures r == None <==> old(Contents()) == []
      ensures r == None ==> Contents() == []
      ensures r.Some? ==> old(Contents()) == [r.value] + Contents()
      ensures used == if r.Some? then old(used)[1..] else old(used)
    {
      r := None;
      if objectList != NULL {
        r := Some(objectBuff[objectList].obj);
        DeleteNode(objectList, 0);
      }
    }

    method PopBack() returns (r: Option<T>)
      requires Valid()
      modifies this, objectBuff
      ensures Valid() && SameSize()
      ensures r == None <==> old(Contents()) == []
      ensures r == None ==> Contents() == []
      ensures r.Some? ==> old(Contents()) == Contents() + [r.value]
      ensures used == if r.Some? then old(used)[..old(|used|) - 1] else old(used)
    {
      r := None;
      if objectListTail != NULL {
        r := Some(objectBuff[objectListTail].obj);
        DeleteNode(objectListTail, |used| - 1);
      }
    }

    method GetHead() returns (r: Option<T>)
      requires Valid()
      ensures r == if |Contents()| > 0 then Some(Contents()[0]) else None
    {
      InChains(objectBuff[..], used, free, []);
      r := if objectList != NULL then Some(objectBuff[objectList].obj) else None;
    }

    method GetTail() returns (r: Option<T>)
      requires Valid()
      ensures r == if |Contents()| > 0 then Some(Contents()[|Contents()| - 1]) else None
    {
      InChains(objectBuff[..], used, free, []);
      r := if objectListTail != NULL then Some(objectBuff[objectListTail].obj) else None;
    }

    // ---------------------------------------------------------------- walking

    /** GetNext: the object at `pos`, and the position after it. */
    method GetNext(pos: int, ghost k: nat) returns (r: Option<T>, next: int)
      requires Valid() && k <= |used| && pos == At(used, k)
      ensures if k < |used| then r == Some(Contents()[k]) && next == At(used, k + 1) else r == None && next == NULL
    {
      InChains(objectBuff[..], used, free, []);
      r, next := None, pos;
      if pos != NULL {
        assert LinkAt(objectBuff[..], used, k);
        next := objectBuff[pos].next;
        r := Some(objectBuff[pos].obj);
      }
    }

    /** GetPrev, likewise: the position before it. */
    method GetPrev(pos: int, ghost k: int) returns (r: Option<T>, prev: int)
      requires Valid() && -1 <= k < |used| && pos == At(used, k)
      ensures if 0 <= k then r == Some(Contents()[k]) && prev == At(used, k - 1) else r == None && prev == NULL
    {
      InChains(objectBuff[..], used, free, []);
      r, prev := None, pos;
      if pos != NULL {
        assert LinkAt(objectBuff[..], used, k);
        prev := objectBuff[pos].prev;
        r := Some(objectBuff[pos].obj);
      }
    }

    /** Following GetNext from the first position shows the contents in order. */
    method WalkForward() returns (objs: seq<T>)
      requires Valid()
      ensures objs == Contents()
    {
      InChains(objectBuff[..], used, free, []);
      objs := [];
      var pos := objectList;
      while pos != NULL
        invariant |objs| <= |used| && pos == At(used, |objs|)
        invariant objs == Contents()[..|objs|]
        decreases |used| - |objs|
      {
        var r, next := GetNext(pos, |objs|);
        objs := objs + [r.value];
        pos := next;
      }
    }

    /** Following GetPrev from the last position shows them in the opposite order. */
    method WalkBackward() returns (objs: seq<T>)
      requires Valid()
      ensures |objs| == |Contents()|
      ensures forall i :: 0 <= i < |objs| ==> objs[i] == Contents()[|objs| - 1 - i]
    {
      InChains(objectBuff[..], used, free, []);
      objs := [];
      var pos := objectListTail;
      while pos != NULL
        invariant |objs| <= |used| && pos == At(used, |used| - 1 - |objs|)
        invariant forall i :: 0 <= i < |objs| ==> objs[i] == Contents()[|used| - 1 - i]
        decreases |used| - |objs|
      {
        ghost var k := |used| - 1 - |objs|;
        var r, prev := GetPrev(pos, k);
        objs := objs + [r.value];
        pos := prev;
      }
    }

    /** The position of the object number `k`, as a caller finds it by walking. */
    method PosOf(k: nat) returns (pos: int)
      requires Valid()
      ensures pos == At(used, k)
    {
      InChains(objectBuff[..], used, free, []);
      pos := objectList;
      var i := 0;
      while pos != NULL && i < k
        invariant 0 <= i <= k && i <= |used| && pos == At(used, i)
        decreases k - i
      {
        var r, next := GetNext(pos, i);
        pos := next;
        i := i + 1;
      }
    }

    // ---------------------------------------------------------------- runs

    method Apply(op: Op<T>) returns (reply: Reply<T>)
      requires Valid()
      modifies this, objectBuff
      ensures Valid() && SameSize()
      ensures (Contents(), reply) == Step(old(Contents()), objectBuffSize, op)
      ensures Moved(old(used), used, objectBuffSize, op)
    {
      if op.HeadOp? || op.TailOp? || op.CountOp? {
        reply := Inspect(op);
      } else if op.PushFrontOp? || op.PushBackOp? {
        reply := Put(op);
      } else if op.PopFrontOp? || op.PopBackOp? {
        reply := Take(op);
      } else if op.DeleteOp? {
        reply := Drop(op.k);
      } else {
        reply := DropAll();
      }
    }

    method Inspect(op: Op<T>) returns (reply: Reply<T>)
      requires Valid() && (op.HeadOp? || op.TailOp? || op.CountOp?)
      ensures (Contents(), reply) == Step(Contents(), objectBuffSize, op)
    {
      match op
      case HeadOp =>
        var r := GetHead();
        reply := Item(r);
      case TailOp =>
        var r := GetTail();
        reply := Item(r);
      case CountOp =>
        reply := Number(objectCount);
    }

    method Put(op: Op<T>) returns (reply: Reply<T>)
      requires Valid() && (op.PushFrontOp? || op.PushBackOp?)
      modifies this, objectBuff
      ensures Valid() && SameSize()
      ensures (Contents(), reply) == Step(old(Contents()), objectBuffSize, op)
      ensures Moved(old(used), used, objectBuffSize, op)
    {
      match op
      case PushFrontOp(x) =>
        var ok := PushFront(x);
        reply := Flag(ok);
      case PushBackOp(x) =>
        var ok := PushBack(x);
        reply := Flag(ok);
    }

    method Take(op: Op<T>) returns (reply: Reply<T>)
      requires Valid() && (op.PopFrontOp? || op.PopBackOp?)
      modifies this, objectBuff
      ensures Valid() && SameSize()
      ensures (Contents(), reply) == Step(old(Contents()), objectBuffSize, op)
      ensures Moved(old(used), used, objectBuffSize, op)
    {
      match op
      case PopFrontOp =>
        var r := PopFront();
        reply := Item(r);
      case PopBackOp =>
        var r := PopBack();
        reply := Item(r);
    }

    method Drop(k: nat) returns (reply: Reply<T>)
      requires Valid()
      modifies this, objectBuff
      ensures Valid() && SameSize()
      ensures (Contents(), reply) == Step(old(Contents()), objectBuffSize, DeleteOp(k))
      ensures Moved<T>(old(used), used, objectBuffSize, DeleteOp(k))
    {
      InChains(objectBuff[..], used, free, []);
      StepDrops(Contents(), used, objectBuffSize, k);
      var pos := PosOf(k);
      var ok := DeleteObject(pos, k);
      reply := Flag(ok);
    }

    method DropAll() returns (reply: Reply<T>)
      requires Valid()
      modifies this, objectBuff
      ensures Valid() && SameSize()
      ensures (Contents(), reply) == Step(old(Contents()), objectBuffSize, ClearOp)
      ensures Moved<T>(old(used), used, objectBuffSize, ClearOp)
    {
      Clear();
      reply := Flag(true);
    }

    /** Any sequence of calls answers as a bounded deque does. */
    method ApplyAll(ops: seq<Op<T>>) returns (replies: seq<Reply<T>>)
      requires Valid()
      modifies this, objectBuff
      ensures Valid() && SameSize()
      ensures (Contents(), replies) == Run(old(Contents()), objectBuffSize, ops)
    {
      replies := [];
      var i := 0;
      while i < |ops|
        invariant 0 <= i <= |ops| && Valid() && SameSize()
        invariant (Contents(), replies) == Run(old(Contents()), objectBuffSize, ops[..i])
      {
        var reply := Apply(ops[i]);
        RunSnoc(old(Contents()), objectBuffSize, ops[..i], ops[i]);
        assert ops[..i + 1] == ops[..i] + [ops[i]];
        replies := replies + [reply];
        i := i + 1;
      }
      assert ops[..|ops|] == ops;
    }
  }
}
