/** The deque CThreadSafeList stands for: a sequence of at most `cap` objects, and what holds
    of every sequence of calls. */
module BoundedDeque {

  import opened Basics

  datatype Op<T> =
    | PushFrontOp(x: T)
    | PushBackOp(x: T)
    | PopFrontOp
    | PopBackOp
    | DeleteOp(k: nat)
    | ClearOp
    | HeadOp
    | TailOp
    | CountOp

  datatype Reply<T> = Flag(ok: bool) | Item(item: Option<T>) | Number(n: nat)

  /** The contents after one call, and its answer. */
  function Step<T>(c: seq<T>, cap: nat, op: Op<T>): (seq<T>, Reply<T>) {
    match op
    case PushFrontOp(x) => if |c| < cap then ([x] + c, Flag(true)) else (c, Flag(false))
    case PushBackOp(x) => if |c| < cap then (c + [x], Flag(true)) else (c, Flag(false))
    case PopFrontOp => if c == [] then (c, Item(None)) else (c[1..], Item(Some(c[0])))
    case PopBackOp => if c == [] then (c, Item(None)) else (c[..|c| - 1], Item(Some(c[|c| - 1])))
    case DeleteOp(k) => if k < |c| then (c[..k] + c[k + 1..], Flag(true)) else (c, Flag(false))
    case ClearOp => ([], Flag(true))
    case HeadOp => (c, Item(if c == [] then None else Some(c[0])))
    case TailOp => (c, Item(if c == [] then None else Some(c[|c| - 1])))
    case CountOp => (c, Number(|c|))
  }

  function Run<T>(c: seq<T>, cap: nat, ops: seq<Op<T>>): (seq<T>, seq<Reply<T>>)
    decreases |ops|
  {
    if ops == [] then (c, []) else
      var (c1, reply) := Step(c, cap, ops[0]);
      var (c2, replies) := Run(c1, cap, ops[1..]);
      (c2, [reply] + replies)
  }

  lemma {:induction false} RunOne<T>(c: seq<T>, cap: nat, op: Op<T>)
    ensures Run(c, cap, [op]) == (Step(c, cap, op).0, [Step(c, cap, op).1])
  {
    assert [op][1..] == [];
    assert [Step(c, cap, op).1] + [] == [Step(c, cap, op).1];
  }

  /** A run is continued from where it stopped. */
  lemma {:induction false} RunSnoc<T>(c: seq<T>, cap: nat, ops: seq<Op<T>>, op: Op<T>)
    ensures
      var (c1, replies) := Run(c, cap, ops);
      var (c2, reply) := Step(c1, cap, op);
      Run(c, cap, ops + [op]) == (c2, replies + [reply])
    decreases |ops|
  {
    if ops == [] {
      RunOne(c, cap, op);
      assert ops + [op] == [op];
      assert [] + [Step(c, cap, op).1] == [Step(c, cap, op).1];
    } else {
      var (c0, first) := Step(c, cap, ops[0]);
      RunSnoc(c0, cap, ops[1..], op);
      assert (ops + [op])[1..] == ops[1..] + [op];
      var (c1, replies) := Run(c0, cap, ops[1..]);
      assert [first] + (replies + [Step(c1, cap, op).1]) == [first] + replies + [Step(c1, cap, op).1];
    }
  }

  // ---------------------------------------------------------------- laws of every run

  /** The objects one call takes in, and those it gives up. */
  function TakenIn<T>(c: seq<T>, cap: nat, op: Op<T>): seq<T> {
    if (op.PushFrontOp? || op.PushBackOp?) && |c| < cap then [op.x] else []
  }

  function GivenUp<T>(c: seq<T>, op: Op<T>): seq<T> {
    match op
    case PopFrontOp => if c == [] then [] else [c[0]]
    case PopBackOp => if c == [] then [] else [c[|c| - 1]]
    case DeleteOp(k) => if k < |c| then [c[k]] else []
    case ClearOp => c
    case _ => []
  }

  /** The same over a run, in the order of the calls. */
  function Accepted<T>(c: seq<T>, cap: nat, ops: seq<Op<T>>): seq<T>
    decreases |ops|
  {
    if ops == [] then [] else TakenIn(c, cap, ops[0]) + Accepted(Step(c, cap, ops[0]).0, cap, ops[1..])
  }

  function Removed<T>(c: seq<T>, cap: nat, ops: seq<Op<T>>): seq<T>
    decreases |ops|
  {
    if ops == [] then [] else GivenUp(c, ops[0]) + Removed(Step(c, cap, ops[0]).0, cap, ops[1..])
  }

  ghost predicate Conserves<T>(c: seq<T>, taken: seq<T>, c1: seq<T>, given: seq<T>) {
    multiset(c) + multiset(taken) == multiset(c1) + multiset(given)
  }

  lemma {:induction false} TakeOut<T>(c: seq<T>, k: nat)
    requires k < |c|
    ensures Conserves(c, [], c[..k] + c[k + 1..], [c[k]])
  {
    assert c == c[..k] + [c[k]] + c[k + 1..];
  }

  lemma {:induction false} PutIn<T>(c: seq<T>, x: T)
    ensures Conserves(c, [x], [x] + c, []) && Conserves(c, [x], c + [x], [])
  {
  }

  lemma {:induction false} Keep<T>(c: seq<T>)
    ensures Conserves(c, [], c, []) && Conserves(c, [], [], c)
  {
  }

  lemma {:induction false} StepConserves<T>(c: seq<T>, cap: nat, op: Op<T>)
    requires |c| <= cap
    ensures |Step(c, cap, op).0| <= cap
    ensures Conserves(c, TakenIn(c, cap, op), Step(c, cap, op).0, GivenUp(c, op))
  {
    Keep(c);
    if op.PushFrontOp? || op.PushBackOp? {
      PutIn(c, op.x);
    } else if op.PopFrontOp? && c != [] {
      TakeOut(c, 0);
      assert c[..0] + c[1..] == c[1..];
    } else if op.PopBackOp? && c != [] {
      TakeOut(c, |c| - 1);
      assert c[..|c| - 1] + c[|c|..] == c[..|c| - 1];
    } else if op.DeleteOp? && op.k < |c| {
      TakeOut(c, op.k);
    }
  }

  /** Over any run no object is lost or duplicated, and the bound is kept. */
  lemma {:induction false} Conservation<T>(c: seq<T>, cap: nat, ops: seq<Op<T>>)
    requires |c| <= cap
    ensures |Run(c, cap, ops).0| <= cap
    ensures multiset(c) + multiset(Accepted(c, cap, ops))
         == multiset(Run(c, cap, ops).0) + multiset(Removed(c, cap, ops))
    decreases |ops|
  {
    if ops != [] {
      var c1, op := Step(c, cap, ops[0]).0, ops[0];
      StepConserves(c, cap, op);
      Conservation(c1, cap, ops[1..]);
      Chain(multiset(c), multiset(TakenIn(c, cap, op)), multiset(Accepted(c1, cap, ops[1..])), multiset(c1),
            multiset(GivenUp(c, op)), multiset(Run(c, cap, ops).0), multiset(Removed(c1, cap, ops[1..])));
    }
  }

  lemma {:induction false} Chain<T>(c: multiset<T>, taken: multiset<T>, rest: multiset<T>, c1: multiset<T>,
                                    given: multiset<T>, end: multiset<T>, gone: multiset<T>)
    requires c + taken == c1 + given && c1 + rest == end + gone
    ensures c + (taken + rest) == end + (given + gone)
  {
    assert c + (taken + rest) == c1 + given + rest == c1 + rest + given;
  }

  /** Used as a queue, the list hands objects out in the order they were taken in. */
  lemma {:induction false} QueueOrder<T>(c: seq<T>, cap: nat, ops: seq<Op<T>>)
    requires forall i :: 0 <= i < |ops| ==> ops[i].PushBackOp? || ops[i].PopFrontOp?
    ensures c + Accepted(c, cap, ops) == Removed(c, cap, ops) + Run(c, cap, ops).0
    decreases |ops|
  {
    if ops != [] {
      var c1, op := Step(c, cap, ops[0]).0, ops[0];
      QueueOrder(c1, cap, ops[1..]);
      var rest, gone := Accepted(c1, cap, ops[1..]), Removed(c1, cap, ops[1..]);
      assert c + TakenIn(c, cap, op) == GivenUp(c, op) + c1;
      Relay(c, TakenIn(c, cap, op), rest, GivenUp(c, op), c1, gone, Run(c, cap, ops).0);
    }
  }

  lemma {:induction false} Relay<T>(c: seq<T>, taken: seq<T>, rest: seq<T>, given: seq<T>, c1: seq<T>, gone: seq<T>,
                                    end: seq<T>)
    requires c + taken == given + c1 && c1 + rest == gone + end
    ensures c + (taken + rest) == given + gone + end
  {
    assert c + (taken + rest) == given + c1 + rest == given + (c1 + rest);
  }

  /** At one end, a push and a pop undo each other, in any state with room. */
  lemma {:induction false} PopUndoesPush<T>(c: seq<T>, cap: nat, x: T)
    requires |c| < cap
    ensures Run(c, cap, [PushFrontOp(x), PopFrontOp]) == (c, [Flag(true), Item(Some(x))])
    ensures Run(c, cap, [PushBackOp(x), PopBackOp]) == (c, [Flag(true), Item(Some(x))])
  {
    RunOne(c, cap, PushFrontOp(x));
    RunOne(c, cap, PushBackOp(x));
    RunSnoc(c, cap, [PushFrontOp(x)], PopFrontOp);
    RunSnoc(c, cap, [PushBackOp(x)], PopBackOp);
    assert [Flag(true)] + [Item(Some(x))] == [Flag(true), Item(Some(x))];
    assert ([x] + c)[1..] == c && (c + [x])[..|c|] == c;
    assert [PushFrontOp(x)] + [PopFrontOp] == [PushFrontOp(x), PopFrontOp];
    assert [PushBackOp(x)] + [PopBackOp] == [PushBackOp(x), PopBackOp];
  }
}
