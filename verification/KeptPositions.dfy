/** Positions that a caller of CThreadSafeList keeps from one call to later ones: a kept position
    goes on naming the object it was kept for until that object is taken out, whatever else is
    called in between. */
module KeptPositions {
  import opened Basics
  import opened Chains
  import opened BoundedDeque
  import opened ThreadSafeLists

  /** An object and the number it was given when it was put in. */
  datatype Tagged<T> = Tagged(id: nat, obj: T)

  /** The calls of the deque, the pushes that return the object's place and let the caller fill
      it, and the calls that keep a position or use number `i` of those kept. */
  datatype Call<T> =
    | Plain(op: Op<T>)
    | PushNode(front: bool, x: T)
    | KeepFirst
    | KeepLast
    | KeepNext(i: nat)
    | KeepPrev(i: nat)
    | DeleteKept(i: nat)

  /** What the list holds, the next number, and for every kept position the object it names;
      None for NULL. */
  datatype Held<T> = Held(c: seq<Tagged<T>>, next: nat, names: seq<Option<nat>>)

  function Objs<T>(c: seq<Tagged<T>>): (objs: seq<T>)
    ensures |objs| == |c| && forall k :: 0 <= k < |c| ==> objs[k] == c[k].obj
  {
    seq(|c|, k requires 0 <= k < |c| => c[k].obj)
  }

  /** Where the object with a number is, |c| if it is not there. */
  function PlaceOf<T>(c: seq<Tagged<T>>, id: nat): (k: nat)
    ensures k <= |c| && (k < |c| ==> c[k].id == id)
    ensures k == |c| ==> forall j :: 0 <= j < |c| ==> c[j].id != id
  {
    if c == [] then 0
    else
      var k := PlaceOf(c[..|c| - 1], id);
      if k < |c| - 1 || c[k].id == id then k else |c|
  }

  function NameAt<T>(c: seq<Tagged<T>>, k: int): Option<nat> {
    if 0 <= k < |c| then Some(c[k].id) else None
  }

  /** A kept position may be used as long as its object is there; NULL always may. */
  predicate Usable<T>(h: Held<T>, i: nat) {
    i < |h.names| && (h.names[i].Some? ==> PlaceOf(h.c, h.names[i].value) < |h.c|)
  }

  predicate Legal<T>(h: Held<T>, call: Call<T>) {
    call.KeepNext? || call.KeepPrev? || call.DeleteKept? ==> Usable(h, call.i)
  }

  function WithId<T>(op: Op<T>, id: nat): Op<Tagged<T>> {
    match op
    case PushFrontOp(x) => PushFrontOp(Tagged(id, x))
    case PushBackOp(x) => PushBackOp(Tagged(id, x))
    case PopFrontOp => PopFrontOp
    case PopBackOp => PopBackOp
    case DeleteOp(k) => DeleteOp(k)
    case ClearOp => ClearOp
    case HeadOp => HeadOp
    case TailOp => TailOp
    case CountOp => CountOp
  }

  function WithoutId<T>(reply: Reply<Tagged<T>>): Reply<T> {
    match reply
    case Flag(ok) => Flag(ok)
    case Item(item) => Item(if item.None? then None else Some(item.value.obj))
    case Number(n) => Number(n)
  }

  /** One call, as the caller sees it. */
  function Do<T>(h: Held<T>, cap: nat, call: Call<T>): (Held<T>, Reply<T>)
    requires Legal(h, call)
  {
    match call
    case Plain(op) =>
      var (c, reply) := Step(h.c, cap, WithId(op, h.next));
      (Held(c, h.next + 1, h.names), WithoutId(reply))
    case PushNode(front, x) =>
      var (c, reply) := Step(h.c, cap, WithId(if front then PushFrontOp(x) else PushBackOp(x), h.next));
      (Held(c, h.next + 1, h.names), WithoutId(reply))
    case KeepFirst => (h.(names := h.names + [NameAt(h.c, 0)]), Flag(true))
    case KeepLast => (h.(names := h.names + [NameAt(h.c, |h.c| - 1)]), Flag(true))
    case KeepNext(i) =>
      if h.names[i].None? then (h.(names := h.names + [None]), Item(None))
      else
        var k := PlaceOf(h.c, h.names[i].value);
        (h.(names := h.names + [NameAt(h.c, k + 1)]), Item(Some(h.c[k].obj)))
    case KeepPrev(i) =>
      if h.names[i].None? then (h.(names := h.names + [None]), Item(None))
      else
        var k := PlaceOf(h.c, h.names[i].value);
        (h.(names := h.names + [NameAt(h.c, k - 1)]), Item(Some(h.c[k].obj)))
    case DeleteKept(i) =>
      if h.names[i].None? then (h, Flag(false))
      else (h.(c := DropAt(h.c, PlaceOf(h.c, h.names[i].value))), Flag(true))
  }

  // ---------------------------------------------------------------- numbers and positions

  /** No number is used twice, and none that is still to come. */
  ghost predicate Numbered<T>(h: Held<T>) {
    && (forall j, k :: 0 <= j < k < |h.c| ==> h.c[j].id != h.c[k].id)
    && (forall k :: 0 <= k < |h.c| ==> h.c[k].id < h.next)
    && (forall i :: 0 <= i < |h.names| && h.names[i].Some? ==> h.names[i].value < h.next)
  }

  /** Every kept position is that of the object it names, while that is in the list. */
  ghost predicate Named<T>(kept: seq<int>, names: seq<Option<nat>>, used: seq<int>, c: seq<Tagged<T>>) {
    && |kept| == |names| && |used| == |c|
    && (forall i :: 0 <= i < |kept| && names[i].None? ==> kept[i] == NULL)
    && (forall i, k :: 0 <= i < |kept| && 0 <= k < |c| && names[i] == Some(c[k].id) ==> kept[i] == used[k])
  }

  /** An element of `after` is new, or was in `before` at the same position. */
  ghost predicate SamePlaces<T>(used: seq<int>, before: seq<Tagged<T>>, used': seq<int>, after: seq<Tagged<T>>,
                                next: nat) {
    && |used| == |before| && |used'| == |after|
    && forall k :: 0 <= k < |after| ==> after[k].id == next || WasThere(used, before, used'[k], after[k])
  }

  ghost predicate WasThere<T>(used: seq<int>, before: seq<Tagged<T>>, pos: int, x: Tagged<T>)
    requires |used| == |before|
  {
    exists j :: 0 <= j < |before| && before[j] == x && used[j] == pos
  }

  lemma {:induction false} StaysNamed<T>(kept: seq<int>, h: Held<T>, used: seq<int>, used': seq<int>,
                                         after: seq<Tagged<T>>)
    requires Numbered(h) && Named(kept, h.names, used, h.c) && SamePlaces(used, h.c, used', after, h.next)
    ensures Named(kept, h.names, used', after)
  {
    forall i, k | 0 <= i < |kept| && 0 <= k < |after| && h.names[i] == Some(after[k].id)
      ensures kept[i] == used'[k]
    {
      assert WasThere(used, h.c, used'[k], after[k]);
      var j :| 0 <= j < |h.c| && h.c[j] == after[k] && used[j] == used'[k];
      assert h.names[i] == Some(h.c[j].id);
    }
  }

  lemma {:induction false} DropKeepsPlaces<T>(used: seq<int>, c: seq<Tagged<T>>, n: nat, next: nat)
    requires n < |c| == |used|
    ensures SamePlaces(used, c, DropAt(used, n), DropAt(c, n), next)
  {
    forall k | 0 <= k < |c| - 1
      ensures WasThere(used, c, DropAt(used, n)[k], DropAt(c, n)[k])
    {
      var j := if k < n then k else k + 1;
      assert c[j] == DropAt(c, n)[k] && used[j] == DropAt(used, n)[k];
    }
  }

  lemma {:induction false} PushKeepsPlaces<T>(used: seq<int>, c: seq<Tagged<T>>, used': seq<int>, x: Tagged<T>)
    requires |used| == |c| && |used'| == |c| + 1
    ensures used'[1..] == used ==> SamePlaces(used, c, used', [x] + c, x.id)
    ensures used'[..|c|] == used ==> SamePlaces(used, c, used', c + [x], x.id)
  {
    if used'[1..] == used {
      forall k | 1 <= k < |c| + 1
        ensures WasThere(used, c, used'[k], ([x] + c)[k])
      {
        assert c[k - 1] == ([x] + c)[k] && used[k - 1] == used'[1..][k - 1];
      }
    }
    if used'[..|c|] == used {
      forall k | 0 <= k < |c|
        ensures WasThere(used, c, used'[k], (c + [x])[k])
      {
        assert c[k] == (c + [x])[k] && used[k] == used'[..|c|][k];
      }
    }
  }

  lemma {:induction false} SameIsSame<T>(used: seq<int>, c: seq<Tagged<T>>, next: nat)
    requires |used| == |c|
    ensures SamePlaces(used, c, used, c, next) && SamePlaces(used, c, [], [], next)
  {
    forall k | 0 <= k < |c|
      ensures WasThere(used, c, used[k], c[k])
    {
    }
  }

  lemma {:induction false} StepKeepsPlaces<T>(used: seq<int>, c: seq<Tagged<T>>, used': seq<int>, cap: nat, op: Op<T>,
                                              next: nat)
    requires |used| == |c| && Moved(used, used', cap, op)
    ensures SamePlaces(used, c, used', Step(c, cap, WithId(op, next)).0, next)
  {
    SameIsSame(used, c, next);
    if (op.PushFrontOp? || op.PushBackOp?) && |c| < cap {
      PushKeepsPlaces(used, c, used', Tagged(next, op.x));
    } else if op.DeleteOp? && op.k < |c| {
      DropKeepsPlaces(used, c, op.k, next);
    } else if op.PopFrontOp? && c != [] {
      DropKeepsPlaces(used, c, 0, next);
      assert DropAt(used, 0) == used[1..] && DropAt(c, 0) == c[1..];
    } else if op.PopBackOp? && c != [] {
      DropKeepsPlaces(used, c, |c| - 1, next);
      assert DropAt(used, |c| - 1) == used[..|c| - 1] && DropAt(c, |c| - 1) == c[..|c| - 1];
    }
  }

  lemma {:induction false} DropStaysNumbered<T>(h: Held<T>, n: nat)
    requires Numbered(h) && n < |h.c|
    ensures Numbered(h.(c := DropAt(h.c, n))) && Numbered(Held(DropAt(h.c, n), h.next + 1, h.names))
  {
    var d := DropAt(h.c, n);
    assert forall k :: 0 <= k < |d| ==> d[k] == h.c[if k < n then k else k + 1];
  }

  lemma {:induction false} StepStaysNumbered<T>(h: Held<T>, cap: nat, op: Op<T>)
    requires Numbered(h)
    ensures Numbered(Held(Step(h.c, cap, WithId(op, h.next)).0, h.next + 1, h.names))
  {
    if op.DeleteOp? && op.k < |h.c| {
      DropStaysNumbered(h, op.k);
    } else if op.PopFrontOp? && h.c != [] {
      DropStaysNumbered(h, 0);
      assert DropAt(h.c, 0) == h.c[1..];
    } else if op.PopBackOp? && h.c != [] {
      DropStaysNumbered(h, |h.c| - 1);
      assert DropAt(h.c, |h.c| - 1) == h.c[..|h.c| - 1];
    }
  }

  /** The objects do not know of their numbers. */
  lemma {:induction false} StepOnObjs<T>(c: seq<Tagged<T>>, cap: nat, op: Op<T>, id: nat)
    ensures Step(Objs(c), cap, op)
         == (Objs(Step(c, cap, WithId(op, id)).0), WithoutId(Step(c, cap, WithId(op, id)).1))
  {
    var c' := Step(c, cap, WithId(op, id)).0;
    assert Step(Objs(c), cap, op).0 == Objs(c');
  }

  // ---------------------------------------------------------------- the list and its caller

  /** The list and the positions that the caller keeps are as `h` says. */
  ghost predicate Stands<T(0)>(list: ThreadSafeList<T>, kept: seq<int>, h: Held<T>)
    reads list, list.objectBuff
  {
    && list.Valid() && list.Contents() == Objs(h.c)
    && Numbered(h) && Named(kept, h.names, list.used, h.c)
  }

  method DoPlain<T(0)>(list: ThreadSafeList<T>, op: Op<T>, ghost kept: seq<int>, ghost h: Held<T>)
      returns (reply: Reply<T>)
    requires Stands(list, kept, h)
    modifies list, list.objectBuff
    ensures list.objectBuff == old(list.objectBuff) && list.objectBuffSize == old(list.objectBuffSize)
    ensures Stands(list, kept, Do(h, list.objectBuffSize, Plain(op)).0)
    ensures reply == Do(h, list.objectBuffSize, Plain(op)).1
  {
    ghost var used := list.used;
    reply := list.Apply(op);
    StepOnObjs(h.c, list.objectBuffSize, op, h.next);
    StepStaysNumbered(h, list.objectBuffSize, op);
    StepKeepsPlaces(used, h.c, list.used, list.objectBuffSize, op, h.next);
    StaysNamed(kept, h, used, list.used, Step(h.c, list.objectBuffSize, WithId(op, h.next)).0);
  }

  /** A push that returns the place of the object, which the caller then fills. */
  method DoPushNode<T(0)>(list: ThreadSafeList<T>, front: bool, x: T, ghost kept: seq<int>, ghost h: Held<T>)
      returns (reply: Reply<T>)
    requires Stands(list, kept, h)
    modifies list, list.objectBuff
    ensures list.objectBuff == old(list.objectBuff) && list.objectBuffSize == old(list.objectBuffSize)
    ensures Stands(list, kept, Do(h, list.objectBuffSize, PushNode(front, x)).0)
    ensures reply == Do(h, list.objectBuffSize, PushNode(front, x)).1
  {
    ghost var used, op := list.used, if front then PushFrontOp(x) else PushBackOp(x);
    var ok := list.PushAndFill(front, x);
    reply := Flag(ok);
    StepOnObjs(h.c, list.objectBuffSize, op, h.next);
    StepStaysNumbered(h, list.objectBuffSize, op);
    StepKeepsPlaces(used, h.c, list.used, list.objectBuffSize, op, h.next);
    StaysNamed(kept, h, used, list.used, Step(h.c, list.objectBuffSize, WithId(op, h.next)).0);
  }

  lemma {:induction false} KeepOne<T>(kept: seq<int>, h: Held<T>, used: seq<int>, k: int)
    requires Numbered(h) && Named(kept, h.names, used, h.c) && -1 <= k <= |h.c|
    ensures Numbered(h.(names := h.names + [NameAt(h.c, k)]))
    ensures Named(kept + [At(used, k)], h.names + [NameAt(h.c, k)], used, h.c)
  {
  }

  /** Where the object of a kept position is; -1 or |c| for NULL. */
  ghost function KeptAt<T>(h: Held<T>, i: nat, none: int): int
    requires Usable(h, i)
  {
    if h.names[i].None? then none else PlaceOf(h.c, h.names[i].value)
  }

  lemma {:induction false} KeptIsAt<T>(kept: seq<int>, h: Held<T>, used: seq<int>, i: nat)
    requires Named(kept, h.names, used, h.c) && Usable(h, i)
    ensures kept[i] == At(used, KeptAt(h, i, -1)) == At(used, KeptAt(h, i, |h.c|))
  {
  }

  /** What GetNext and GetPrev do at a kept position, by the place of its object. */
  lemma {:induction false} KeepsPlace<T>(h: Held<T>, cap: nat, i: nat, next: bool, k: int)
    requires Usable(h, i) && k == KeptAt(h, i, if next then |h.c| else -1)
    ensures var r := Do(h, cap, if next then KeepNext(i) else KeepPrev(i));
      && -1 <= k <= |h.c|
      && (if next then k >= 0 else k < |h.c|)
      && r.1 == Item(if 0 <= k < |h.c| then Some(h.c[k].obj) else None)
      && r.0 == h.(names := h.names + [NameAt(h.c, if !(0 <= k < |h.c|) then k else if next then k + 1 else k - 1)])
  {
  }

  /** GetFirstObjectPos and GetLastObjectPos. */
  method DoKeepEnd<T(0)>(list: ThreadSafeList<T>, first: bool, ghost kept: seq<int>, ghost h: Held<T>)
      returns (pos: int)
    requires Stands(list, kept, h)
    ensures Stands(list, kept + [pos], h.(names := h.names + [NameAt(h.c, if first then 0 else |h.c| - 1)]))
  {
    pos := if first then list.objectList else list.objectListTail;
    KeepOne(kept, h, list.used, if first then 0 else |h.c| - 1);
  }

  /** GetNext at a kept position. */
  method DoKeepNext<T(0)>(list: ThreadSafeList<T>, i: nat, kept: seq<int>, ghost h: Held<T>)
      returns (reply: Reply<T>, pos: int)
    requires Stands(list, kept, h) && Usable(h, i)
    ensures Stands(list, kept + [pos], Do(h, list.objectBuffSize, KeepNext(i)).0)
    ensures reply == Do(h, list.objectBuffSize, KeepNext(i)).1
  {
    KeptIsAt(kept, h, list.used, i);
    ghost var k := KeptAt(h, i, |h.c|);
    KeepsPlace(h, list.objectBuffSize, i, true, k);
    var r, next := list.GetNext(kept[i], k);
    reply, pos := Item(r), next;
    KeepOne(kept, h, list.used, if k < |h.c| then k + 1 else k);
  }

  /** GetPrev at a kept position. */
  method DoKeepPrev<T(0)>(list: ThreadSafeList<T>, i: nat, kept: seq<int>, ghost h: Held<T>)
      returns (reply: Reply<T>, pos: int)
    requires Stands(list, kept, h) && Usable(h, i)
    ensures Stands(list, kept + [pos], Do(h, list.objectBuffSize, KeepPrev(i)).0)
    ensures reply == Do(h, list.objectBuffSize, KeepPrev(i)).1
  {
    KeptIsAt(kept, h, list.used, i);
    ghost var k := KeptAt(h, i, -1);
    KeepsPlace(h, list.objectBuffSize, i, false, k);
    var r, prev := list.GetPrev(kept[i], k);
    reply, pos := Item(r), prev;
    KeepOne(kept, h, list.used, if k >= 0 then k - 1 else k);
  }

  /** The calls that keep a position. */
  method DoKeep<T(0)>(list: ThreadSafeList<T>, call: Call<T>, kept: seq<int>, ghost h: Held<T>)
      returns (reply: Reply<T>, pos: int)
    requires Stands(list, kept, h) && Legal(h, call)
    requires call.KeepFirst? || call.KeepLast? || call.KeepNext? || call.KeepPrev?
    ensures Stands(list, kept + [pos], Do(h, list.objectBuffSize, call).0)
    ensures reply == Do(h, list.objectBuffSize, call).1
  {
    if call.KeepNext? {
      reply, pos := DoKeepNext(list, call.i, kept, h);
    } else if call.KeepPrev? {
      reply, pos := DoKeepPrev(list, call.i, kept, h);
    } else {
      reply := Flag(true);
      pos := DoKeepEnd(list, call.KeepFirst?, kept, h);
    }
  }

  lemma {:induction false} DropStands<T>(kept: seq<int>, h: Held<T>, used: seq<int>, k: nat)
    requires Numbered(h) && Named(kept, h.names, used, h.c) && k < |h.c|
    ensures Numbered(h.(c := DropAt(h.c, k))) && Named(kept, h.names, DropAt(used, k), DropAt(h.c, k))
    ensures Objs(DropAt(h.c, k)) == DropAt(Objs(h.c), k)
  {
    DropStaysNumbered(h, k);
    DropKeepsPlaces(used, h.c, k, h.next);
    StaysNamed(kept, h, used, DropAt(used, k), DropAt(h.c, k));
  }

  /** DeleteObject at a kept position takes out the object it was kept for, and no other. */
  method DoDelete<T(0)>(list: ThreadSafeList<T>, i: nat, kept: seq<int>, ghost h: Held<T>) returns (reply: Reply<T>)
    requires Stands(list, kept, h) && Usable(h, i)
    modifies list, list.objectBuff
    ensures list.objectBuff == old(list.objectBuff) && list.objectBuffSize == old(list.objectBuffSize)
    ensures Stands(list, kept, Do(h, list.objectBuffSize, DeleteKept(i)).0)
    ensures reply == Do(h, list.objectBuffSize, DeleteKept(i)).1
  {
    ghost var k := KeptAt(h, i, |h.c|);
    KeptIsAt(kept, h, list.used, i);
    if k < |h.c| {
      DropStands(kept, h, list.used, k);
    }
    var ok := list.DeleteObject(kept[i], k);
    reply := Flag(ok);
  }

  // ---------------------------------------------------------------- runs

  predicate LegalRun<T>(h: Held<T>, cap: nat, calls: seq<Call<T>>)
    decreases |calls|
  {
    calls == [] || (Legal(h, calls[0]) && LegalRun(Do(h, cap, calls[0]).0, cap, calls[1..]))
  }

  function DoAll<T>(h: Held<T>, cap: nat, calls: seq<Call<T>>): (Held<T>, seq<Reply<T>>)
    requires LegalRun(h, cap, calls)
    decreases |calls|
  {
    if calls == [] then (h, [])
    else
      var (h1, reply) := Do(h, cap, calls[0]);
      var (h2, replies) := DoAll(h1, cap, calls[1..]);
      (h2, [reply] + replies)
  }

  /** Any sequence of calls, positions kept and used again included, answers as the numbered
      deque does, as long as no position is used whose object is gone. */
  method CallAll<T(0)>(list: ThreadSafeList<T>, calls: seq<Call<T>>, start: seq<int>, ghost h: Held<T>)
      returns (replies: seq<Reply<T>>, kept: seq<int>)
    requires Stands(list, start, h) && LegalRun(h, list.objectBuffSize, calls)
    modifies list, list.objectBuff
    ensures list.objectBuff == old(list.objectBuff) && list.objectBuffSize == old(list.objectBuffSize)
    ensures Stands(list, kept, DoAll(h, list.objectBuffSize, calls).0)
    ensures replies == DoAll(h, list.objectBuffSize, calls).1
    decreases |calls|
  {
    replies, kept := [], start;
    if calls != [] {
      var reply;
      if calls[0].Plain? {
        reply := DoPlain(list, calls[0].op, kept, h);
      } else if calls[0].PushNode? {
        reply := DoPushNode(list, calls[0].front, calls[0].x, kept, h);
      } else if calls[0].DeleteKept? {
        reply := DoDelete(list, calls[0].i, kept, h);
      } else {
        var pos;
        reply, pos := DoKeep(list, calls[0], kept, h);
        kept := kept + [pos];
      }
      var more, after := CallAll(list, calls[1..], kept, Do(h, list.objectBuffSize, calls[0]).0);
      replies, kept := [reply] + more, after;
    }
  }
}
