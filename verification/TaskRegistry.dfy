/** AddTask and ReleaseTask as they appear to their callers: every call takes effect at one
    moment between its start and its return, as if calls were made one after the other on a
    plain table of 32 tasks. */
module TaskRegistry {
  import opened SchedulerModel
  import opened SchedulerInvariant

  /** The first slot that holds `t`, or SLOTS. */
  function FirstOf(tasks: seq<nat>, t: nat): (k: nat)
    ensures k <= |tasks| && NoneBefore(tasks, k, t) && (k < |tasks| ==> tasks[k] == t)
  {
    if tasks == [] then 0
    else
      var k := FirstOf(tasks[..|tasks| - 1], t);
      if k < |tasks| - 1 || tasks[k] == t then k else |tasks|
  }

  datatype Outcome = Outcome(tasks: seq<nat>, result: Result)

  /** One call on the table, nobody else around. */
  function Perform(tasks: seq<nat>, call: Call): Outcome {
    match call
    case Add(t) =>
      var k := FirstOf(tasks, NO_TASK);
      if k < |tasks| then Outcome(tasks[k := t], Success) else Outcome(tasks, OutOfMem)
    case Release(t) =>
      var k := FirstOf(tasks, t);
      if k < |tasks| then Outcome(tasks[k := NO_TASK], Success) else Outcome(tasks, NotFound)
  }

  /** A call that took effect. */
  datatype Entry = Entry(client: nat, call: Call, result: Result)

  function CallOf(y: ClientState): Call {
    if Adding(y.pc) then Add(y.task) else Release(y.task)
  }

  /** The call that takes effect at move `m`, if any: the one whose result becomes known. */
  ghost function Effect(s: State, m: Move): seq<Entry>
    requires Allowed(s, m)
  {
    if m.ByClient? && s.clients[m.c].result.NoResult? && !Take(s, m).clients[m.c].result.NoResult?
    then [Entry(m.c, CallOf(s.clients[m.c]), Take(s, m).clients[m.c].result)]
    else []
  }

  /** The calls in the order in which they take effect during the moves `a` to `b`. */
  ghost function Log(tr: seq<State>, ms: seq<Move>, a: nat, b: nat): seq<Entry>
    requires IsRun(tr, ms) && a <= b <= |ms|
    decreases b
  {
    if a == b then []
    else
      assert IsStep(tr, ms, b - 1);
      Log(tr, ms, a, b - 1) + Effect(tr[b - 1], ms[b - 1])
  }

  function Empty(): (tasks: seq<nat>)
    ensures |tasks| == SLOTS && forall k :: 0 <= k < SLOTS ==> tasks[k] == NO_TASK
  {
    seq(SLOTS, _ => NO_TASK)
  }

  /** The table after the calls of `log`, made one after the other. */
  function Replay(log: seq<Entry>): seq<nat> {
    if log == [] then Empty()
    else Perform(Replay(log[..|log| - 1]), log[|log| - 1].call).tasks
  }

  /** Every call of `log` answers what it answers when the calls are made one after the other. */
  ghost predicate Agrees(log: seq<Entry>) {
    log == [] ||
    (Agrees(log[..|log| - 1])
     && log[|log| - 1].result == Perform(Replay(log[..|log| - 1]), log[|log| - 1].call).result)
  }

  lemma {:induction false} FirstIs(tasks: seq<nat>, t: nat, k: nat)
    requires k <= |tasks| && NoneBefore(tasks, k, t) && (k < |tasks| ==> tasks[k] == t)
    ensures FirstOf(tasks, t) == k
  {
    var j := FirstOf(tasks, t);
  }

  /** A step of a client changes the table exactly when its call takes effect, and then as
      the call made alone would. */
  lemma {:induction false} ClientEffect(c: nat, v: ClientView, call: Call, tasks: seq<nat>)
    requires CanStepClient(v) && ClientKnows(v.client, tasks)
    requires v.slot.task == tasks[ClientSlot(v.client.i)]
    ensures var v' := StepClientView(c, v, call);
      var after := tasks[ClientSlot(v.client.i) := v'.slot.task];
      if v.client.result.NoResult? && !v'.client.result.NoResult?
      then Perform(tasks, CallOf(v.client)) == Outcome(after, v'.client.result)
      else after == tasks
  {
    var y := v.client;
    if y.pc.AddScan? || y.pc.AddStore? || y.pc.ReleaseScan? || y.pc.ReleaseCheck? || y.pc.ReleaseClear? {
      if y.i >= SLOTS || (!y.pc.AddScan? && !y.pc.ReleaseScan?) {
        FirstIs(tasks, Wanted(y), y.i);
      }
    }
  }

  lemma {:induction false} MoveHasEffect(s: State, m: Move)
    requires Inv(s) && Allowed(s, m)
    ensures Shape(Take(s, m))
    ensures var after := Tasks(Take(s, m).slots);
      if Effect(s, m) == [] then after == Tasks(s.slots)
      else
        && |Effect(s, m)| == 1
        && Perform(Tasks(s.slots), Effect(s, m)[0].call) == Outcome(after, Effect(s, m)[0].result)
  {
    match m
    case ByWorker(w, answer) =>
      WorkerKeepsTasks(s, w, answer);
    case ByClient(c, call) =>
      assert ClientKnows(s.clients[c], Tasks(s.slots));
      ClientEffect(c, ClientViewOf(s, c), call, Tasks(s.slots));
      var k := ClientSlot(s.clients[c].i);
      assert Tasks(Take(s, m).slots) == Tasks(s.slots)[k := Take(s, m).slots[k].task];
    case ByStopper =>
      assert Take(s, m).slots == s.slots;
  }

  /** In every run the table is what the calls make of it in the order they take effect, and
      every one of them answers as if made alone. */
  lemma {:induction false} CallsTakeEffectInOrder(tr: seq<State>, ms: seq<Move>, n: nat)
    requires IsRun(tr, ms) && n <= |ms|
    ensures Tasks(tr[n].slots) == Replay(Log(tr, ms, 0, n))
    ensures Agrees(Log(tr, ms, 0, n))
  {
    RunKeepsInv(tr, ms, n);
    if n == 0 {
      assert Tasks(tr[0].slots) == Empty();
    } else {
      CallsTakeEffectInOrder(tr, ms, n - 1);
      RunKeepsInv(tr, ms, n - 1);
      assert IsStep(tr, ms, n - 1);
      MoveHasEffect(tr[n - 1], ms[n - 1]);
      var before, now := Log(tr, ms, 0, n - 1), Effect(tr[n - 1], ms[n - 1]);
      assert (before + now)[..|before|] == before;
      assert now == [] ==> before + now == before;
    }
  }

  /** The entries of client `c`. */
  function OfClient(log: seq<Entry>, c: nat): seq<Entry> {
    if log == [] then []
    else OfClient(log[..|log| - 1], c) + (if log[|log| - 1].client == c then [log[|log| - 1]] else [])
  }

  lemma {:induction false} OfClientConcat(log: seq<Entry>, now: seq<Entry>, c: nat)
    requires |now| <= 1
    ensures OfClient(log + now, c) == OfClient(log, c) + (if now != [] && now[0].client == c then now else [])
  {
    if now == [] {
      assert log + now == log;
    } else {
      assert (log + now)[..|log|] == log && now == [now[0]];
    }
  }

  /** A client during `call`, or just back from it, and the entries it made in the log since. */
  ghost predicate During(y: ClientState, c: nat, call: Call, entries: seq<Entry>) {
    && y.task == call.task
    && (y.pc.Idle? ==> !y.result.NoResult?)
    && if y.result.NoResult? then entries == [] && (if call.Add? then Adding(y.pc) else Releasing(y.pc))
       else
         && entries == [Entry(c, call, y.result)] && !Adding(y.pc) && !Releasing(y.pc)
         && (y.result.Success? || y.result == if call.Add? then OutOfMem else NotFound)
  }

  lemma {:induction false} OwnStep(c: nat, v: ClientView, next: Call, tasks: seq<nat>, call: Call, entries: seq<Entry>)
    requires CanStepClient(v) && ClientKnows(v.client, tasks) && v.slot.task == tasks[ClientSlot(v.client.i)]
    requires !v.client.pc.Idle? && During(v.client, c, call, entries)
    ensures var y, y' := v.client, StepClientView(c, v, next).client;
      if y.result.NoResult? && !y'.result.NoResult?
      then CallOf(y) == call && During(y', c, call, [Entry(c, call, y'.result)])
      else During(y', c, call, entries)
  {
  }

  lemma {:induction false} CallGoesOn(s: State, m: Move, c: nat, call: Call, entries: seq<Entry>)
    requires Inv(s) && Allowed(s, m) && c < |s.clients| && !s.clients[c].pc.Idle?
    requires During(s.clients[c], c, call, entries)
    ensures var now := Effect(s, m);
      && |now| <= 1 && c < |Take(s, m).clients|
      && During(Take(s, m).clients[c], c, call, entries + (if now != [] && now[0].client == c then now else []))
  {
    assert entries + [] == entries;
    if m.ByClient? && m.c == c {
      assert ClientKnows(s.clients[c], Tasks(s.slots));
      OwnStep(c, ClientViewOf(s, c), m.call, Tasks(s.slots), call, entries);
      assert s.clients[c].result.NoResult? ==> entries == [] && forall e: Entry :: entries + [e] == [e];
    } else {
      assert Take(s, m).clients[c] == s.clients[c];
    }
  }

  ghost predicate BusyBetween(tr: seq<State>, a: nat, b: nat, c: nat)
    requires b < |tr|
  {
    forall n :: a < n < b ==> c < |tr[n].clients| && !tr[n].clients[c].pc.Idle?
  }

  lemma {:induction false} DuringGoesOn(tr: seq<State>, ms: seq<Move>, a: nat, n: nat, c: nat, call: Call)
    requires IsRun(tr, ms) && a <= n < |ms| && c < |tr[n].clients| && !tr[n].clients[c].pc.Idle?
    requires During(tr[n].clients[c], c, call, OfClient(Log(tr, ms, a, n), c))
    ensures c < |tr[n + 1].clients|
    ensures During(tr[n + 1].clients[c], c, call, OfClient(Log(tr, ms, a, n + 1), c))
  {
    RunKeepsInv(tr, ms, n);
    assert IsStep(tr, ms, n);
    LogGoesOn(tr[n], ms[n], c, call, Log(tr, ms, a, n));
  }

  lemma {:induction false} DuringStarts(tr: seq<State>, ms: seq<Move>, a: nat, c: nat)
    requires IsRun(tr, ms) && a < |ms| && c < |tr[a].clients| && tr[a].clients[c].pc.Idle?
    requires ms[a].ByClient? && ms[a].c == c
    ensures c < |tr[a + 1].clients|
    ensures During(tr[a + 1].clients[c], c, ms[a].call, OfClient(Log(tr, ms, a + 1, a + 1), c))
  {
    assert IsStep(tr, ms, a);
    CallStarts(tr[a], ms[a], c);
  }

  lemma {:induction false} CallIsDuring(tr: seq<State>, ms: seq<Move>, a: nat, b: nat, c: nat)
    requires IsRun(tr, ms) && a < b < |tr| && c < |tr[a].clients| && tr[a].clients[c].pc.Idle?
    requires ms[a].ByClient? && ms[a].c == c && BusyBetween(tr, a, b, c)
    ensures c < |tr[b].clients|
    ensures During(tr[b].clients[c], c, ms[a].call, OfClient(Log(tr, ms, a + 1, b), c))
    decreases b
  {
    if a + 1 == b {
      DuringStarts(tr, ms, a, c);
    } else {
      var n := b - 1;
      assert BusyBetween(tr, a, n, c);
      CallIsDuring(tr, ms, a, n, c);
      DuringGoesOn(tr, ms, a + 1, n, c, ms[a].call);
    }
  }

  lemma {:induction false} CallStarts(s: State, m: Move, c: nat)
    requires Allowed(s, m) && m.ByClient? && m.c == c && s.clients[c].pc.Idle?
    ensures During(Take(s, m).clients[c], c, m.call, [])
  {
  }

  lemma {:induction false} LogGoesOn(s: State, m: Move, c: nat, call: Call, log: seq<Entry>)
    requires Inv(s) && Allowed(s, m) && c < |s.clients| && !s.clients[c].pc.Idle?
    requires During(s.clients[c], c, call, OfClient(log, c))
    ensures c < |Take(s, m).clients| && During(Take(s, m).clients[c], c, call, OfClient(log + Effect(s, m), c))
  {
    CallGoesOn(s, m, c, call, OfClient(log, c));
    OfClientConcat(log, Effect(s, m), c);
  }

  /** A call that has returned took effect exactly once since it was made, and returned the
      answer it had then; TASK_ALREADY_INITED is never that answer. */
  lemma {:induction false} CallTakesEffectOnce(tr: seq<State>, ms: seq<Move>, a: nat, b: nat, c: nat)
    requires IsRun(tr, ms) && a < b < |tr| && c < |tr[a].clients| && tr[a].clients[c].pc.Idle?
    requires ms[a].ByClient? && ms[a].c == c && BusyBetween(tr, a, b, c)
    ensures c < |tr[b].clients|
    ensures tr[b].clients[c].pc.Idle? ==>
              && OfClient(Log(tr, ms, a + 1, b), c) == [Entry(c, ms[a].call, tr[b].clients[c].result)]
              && (tr[b].clients[c].result.Success?
                  || tr[b].clients[c].result == if ms[a].call.Add? then OutOfMem else NotFound)
  {
    CallIsDuring(tr, ms, a, b, c);
  }
}
