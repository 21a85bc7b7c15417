/** When can two workers run one task at once?  Exactly when the calls, in the order in which they
    take effect, leave it in two slots; and that happens exactly when it is added while the
    table holds it already and has an empty slot. */
module RunningTwice {
  import opened SchedulerModel
  import opened SchedulerInvariant
  import opened SchedulerRuns
  import opened TaskRegistry

  // ---------------------------------------------------------------- what can be reached

  ghost predicate Leads(tr: seq<State>, ms: seq<Move>, s: State, log: seq<Entry>) {
    IsRun(tr, ms) && tr[|ms|] == s && Log(tr, ms, 0, |ms|) == log
  }

  /** Some run ends in `s`, and the calls of `log` have taken effect in it. */
  ghost predicate Reached(s: State, log: seq<Entry>) {
    exists tr, ms :: Leads(tr, ms, s, log)
  }

  lemma {:induction false} StartIsReached(s: State)
    requires Init(s)
    ensures Reached(s, [])
  {
    assert Leads([s], [], s, []);
  }

  lemma {:induction false} LongerRun(tr: seq<State>, ms: seq<Move>, m: Move)
    requires IsRun(tr, ms) && Allowed(tr[|ms|], m)
    ensures IsRun(tr + [Take(tr[|ms|], m)], ms + [m])
  {
    var tr', ms' := tr + [Take(tr[|ms|], m)], ms + [m];
    forall n | 0 <= n < |ms'|
      ensures IsStep(tr', ms', n)
    {
      assert n < |ms| ==> IsStep(tr, ms, n);
    }
  }

  lemma {:induction false} LogOfLonger(tr: seq<State>, ms: seq<Move>, m: Move, n: nat)
    requires IsRun(tr, ms) && Allowed(tr[|ms|], m) && n <= |ms|
    ensures IsRun(tr + [Take(tr[|ms|], m)], ms + [m])
    ensures Log(tr + [Take(tr[|ms|], m)], ms + [m], 0, n) == Log(tr, ms, 0, n)
    decreases n
  {
    LongerRun(tr, ms, m);
    if n > 0 {
      LogOfLonger(tr, ms, m, n - 1);
      assert IsStep(tr, ms, n - 1);
    }
  }

  lemma {:induction false} NextIsReached(s: State, log: seq<Entry>, m: Move)
    requires Reached(s, log) && Allowed(s, m)
    ensures Reached(Take(s, m), log + Effect(s, m))
  {
    var tr, ms :| Leads(tr, ms, s, log);
    var tr', ms' := tr + [Take(s, m)], ms + [m];
    LongerRun(tr, ms, m);
    LogOfLonger(tr, ms, m, |ms|);
    assert IsStep(tr', ms', |ms|);
    assert Leads(tr', ms', Take(s, m), log + Effect(s, m));
  }

  // ---------------------------------------------------------------- the table and the calls

  function Calls(log: seq<Entry>): (calls: seq<Call>)
    ensures |calls| == |log|
  {
    if log == [] then [] else Calls(log[..|log| - 1]) + [log[|log| - 1].call]
  }

  /** The slots after the calls, made one after the other. */
  function Table(calls: seq<Call>): (tasks: seq<nat>)
    ensures |tasks| == SLOTS
  {
    if calls == [] then Empty() else Perform(Table(calls[..|calls| - 1]), calls[|calls| - 1]).tasks
  }

  lemma {:induction false} ReplayIsTable(log: seq<Entry>)
    ensures Replay(log) == Table(Calls(log))
  {
    if log != [] {
      ReplayIsTable(log[..|log| - 1]);
      assert Calls(log)[..|log| - 1] == Calls(log[..|log| - 1]);
    }
  }

  ghost predicate HeldTwice(tasks: seq<nat>, t: nat) {
    exists j, k :: 0 <= j < k < |tasks| && tasks[j] == tasks[k] == t
  }

  predicate Runs(x: WorkerState, t: nat) {
    (x.pc.RunTask? || x.pc.EndTask?) && x.begun == t
  }

  ghost predicate RunTwice(s: State, t: nat) {
    exists u: nat, w: nat :: u < w < |s.workers| && Runs(s.workers[u], t) && Runs(s.workers[w], t)
  }

  /** Some run in which exactly these calls have taken effect, in this order, has two workers
      running `t`. */
  ghost predicate CanRunTwice(calls: seq<Call>, t: nat) {
    exists s, log :: Reached(s, log) && Calls(log) == calls && RunTwice(s, t)
  }

  lemma {:induction false} RunTwiceIsHeldTwice(calls: seq<Call>, t: nat)
    requires CanRunTwice(calls, t)
    ensures HeldTwice(Table(calls), t)
  {
    var s, log :| Reached(s, log) && Calls(log) == calls && RunTwice(s, t);
    var tr, ms :| Leads(tr, ms, s, log);
    var u: nat, w: nat :| u < w < |s.workers| && Runs(s.workers[u], t) && Runs(s.workers[w], t);
    RunningTaskIsRegistered(tr, ms, |ms|, u, w);
    CallsTakeEffectInOrder(tr, ms, |ms|);
    ReplayIsTable(log);
  }

  // ---------------------------------------------------------------- a system of two workers and one client

  function System(slots: seq<Slot>, xs: seq<WorkerState>, y: ClientState, listLock: Lock): State {
    State(slots, xs, [y], Center(0, Free), listLock, NotStopping)
  }

  ghost predicate Idling(slots: seq<Slot>, tasks: seq<nat>) {
    |slots| == |tasks| == SLOTS && forall k :: 0 <= k < SLOTS ==> slots[k] == Slot(0, Free, tasks[k])
  }

  lemma {:induction false} ClientGoes(slots: seq<Slot>, xs: seq<WorkerState>, y: ClientState, listLock: Lock,
                                      log: seq<Entry>, call: Call)
    requires |slots| == SLOTS && Reached(System(slots, xs, y, listLock), log)
    requires CanStepClient(ClientView(y, slots[ClientSlot(y.i)], listLock))
    ensures var v := StepClientView(0, ClientView(y, slots[ClientSlot(y.i)], listLock), call);
      Reached(System(slots[ClientSlot(y.i) := v.slot], xs, v.client, v.listLock),
              if y.result.NoResult? && !v.client.result.NoResult?
              then log + [Entry(0, CallOf(y), v.client.result)] else log)
  {
    var s, m := System(slots, xs, y, listLock), ByClient(0, call);
    NextIsReached(s, log, m);
    assert [y][0 := Take(s, m).clients[0]] == [Take(s, m).clients[0]];
    assert log + [] == log;
  }

  lemma {:induction false} WorkerGoes(slots: seq<Slot>, xs: seq<WorkerState>, y: ClientState, log: seq<Entry>,
                                      w: nat, answer: Answer)
    requires |slots| == SLOTS && w < |xs| && Reached(System(slots, xs, y, Free), log)
    requires Scanning(xs[w].pc) || xs[w].pc.LoopTest?
    ensures var k := SlotAt(w, xs[w].i);
      var v := StepView(w, View(xs[w], slots[k], Center(0, Free)), answer);
      Reached(System(slots[k := v.slot], xs[w := v.worker], y, Free), log)
  {
    ScanSparesCenter(w, View(xs[w], slots[SlotAt(w, xs[w].i)], Center(0, Free)), answer);
    NextIsReached(System(slots, xs, y, Free), log, ByWorker(w, answer));
    assert log + [] == log;
  }

  lemma {:induction false} ScanSparesCenter(w: nat, v: View, answer: Answer)
    requires Scanning(v.worker.pc) || v.worker.pc.LoopTest?
    ensures CanStep(v) && StepView(w, v, answer).center == v.center
  {
  }

  // ---------------------------------------------------------------- the client makes its calls

  /** The scan of a call that has the list lock, up to the first slot that holds what is wanted. */
  lemma {:induction false} ClientScans(slots: seq<Slot>, tasks: seq<nat>, xs: seq<WorkerState>, y: ClientState,
                                       log: seq<Entry>, k: nat)
    requires Idling(slots, tasks) && (y.pc.AddScan? || y.pc.ReleaseScan?) && y.i <= k <= SLOTS
    requires NoneBefore(tasks, k, Wanted(y)) && Reached(System(slots, xs, y, HeldBy(Client(0))), log)
    ensures Reached(System(slots, xs, y.(i := k), HeldBy(Client(0))), log)
    decreases k - y.i
  {
    if y.i == k {
      assert y.(i := k) == y;
    } else {
      assert tasks[y.i] != Wanted(y);
      ClientLooks(slots, xs, y, log);
      ClientScans(slots, tasks, xs, y.(i := y.i + 1), log, k);
    }
  }

  lemma {:induction false} ClientLooks(slots: seq<Slot>, xs: seq<WorkerState>, y: ClientState, log: seq<Entry>)
    requires |slots| == SLOTS && (y.pc.AddScan? || y.pc.ReleaseScan?) && y.i < SLOTS
    requires slots[y.i].task != Wanted(y) && Reached(System(slots, xs, y, HeldBy(Client(0))), log)
    ensures Reached(System(slots, xs, y.(i := y.i + 1), HeldBy(Client(0))), log)
  {
    var k, held := y.i, HeldBy(Client(0));
    var was := slots[k];
    assert slots[k := was] == slots;
    ClientTurns(slots, k, was, xs, y, held, log, ClientView(y.(i := y.i + 1), was, held));
  }

  /** The client is at slot `k`, which is now `slot`. */
  ghost predicate ClientAt(slots: seq<Slot>, k: nat, slot: Slot, xs: seq<WorkerState>, y: ClientState, listLock: Lock,
                           log: seq<Entry>) {
    |slots| == SLOTS && k < SLOTS && Reached(System(slots[k := slot], xs, y, listLock), log)
  }

  lemma {:induction false} ClientTurns(slots: seq<Slot>, k: nat, slot: Slot, xs: seq<WorkerState>, y: ClientState,
                                       listLock: Lock, log: seq<Entry>, v: ClientView)
    requires ClientAt(slots, k, slot, xs, y, listLock, log) && k == ClientSlot(y.i) && !y.pc.Idle?
    requires CanStepClient(ClientView(y, slot, listLock))
    requires v == StepClientView(0, ClientView(y, slot, listLock), Add(0))
    ensures ClientAt(slots, k, v.slot, xs, v.client, v.listLock,
                     if y.result.NoResult? && !v.client.result.NoResult?
                     then log + [Entry(0, CallOf(y), v.client.result)] else log)
  {
    ClientGoes(slots[k := slot], xs, y, listLock, log, Add(0));
    assert slots[k := slot][k := v.slot] == slots[k := v.slot];
  }

  /** Loading or unloading slot `k`, which the scan has found. */
  lemma {:induction false} ClientStores(slots: seq<Slot>, tasks: seq<nat>, xs: seq<WorkerState>, y: ClientState,
                                        log: seq<Entry>)
    requires Idling(slots, tasks) && (y.pc.AddScan? || y.pc.ReleaseScan?) && y.result.NoResult? && y.i < SLOTS
    requires tasks[y.i] == Wanted(y) && Reached(System(slots, xs, y, HeldBy(Client(0))), log)
    ensures var t := if y.pc.AddScan? then y.task else NO_TASK;
      Reached(System(slots[y.i := Slot(0, Free, t)], xs, y.(pc := Idle, result := Success), Free),
              log + [Entry(0, CallOf(y), Success)])
  {
    var k, t := y.i, if y.pc.AddScan? then y.task else NO_TASK;
    assert slots[k := Slot(0, Free, tasks[k])] == slots;
    ClientLocks(slots, k, xs, y, log);
    var y2 := y.(pc := if y.pc.AddScan? then AddCheck else ReleaseCheck);
    var log' := log + [Entry(0, CallOf(y), Success)];
    ClientWrites(slots, k, xs, y2, log, t, log');
    ClientLeaves(slots, k, xs, y2.(pc := SlotUnlock, result := Success), log', t);
    assert y2.(pc := SlotUnlock, result := Success).(pc := Idle) == y.(pc := Idle, result := Success);
  }

  /** From the scan to the lock of the slot found. */
  lemma {:induction false} ClientLocks(slots: seq<Slot>, k: nat, xs: seq<WorkerState>, y: ClientState, log: seq<Entry>)
    requires (y.pc.AddScan? || y.pc.ReleaseScan?) && y.result.NoResult? && y.i == k < SLOTS
    requires ClientAt(slots, k, Slot(0, Free, Wanted(y)), xs, y, HeldBy(Client(0)), log)
    ensures ClientAt(slots, k, Slot(0, HeldBy(Client(0)), Wanted(y)), xs,
                     y.(pc := if y.pc.AddScan? then AddCheck else ReleaseCheck), HeldBy(Client(0)), log)
  {
    var held, was := HeldBy(Client(0)), Slot(0, Free, Wanted(y));
    var y1 := y.(pc := if y.pc.AddScan? then AddSlotLock else ReleaseSlotLock);
    var y2 := y.(pc := if y.pc.AddScan? then AddCheck else ReleaseCheck);
    ClientTurns(slots, k, was, xs, y, held, log, ClientView(y1, was, held));
    ClientTurns(slots, k, was, xs, y1, held, log, ClientView(y2, was.(lock := held), held));
  }

  /** From there to the return. */
  lemma {:induction false} ClientLeaves(slots: seq<Slot>, k: nat, xs: seq<WorkerState>, y: ClientState, log: seq<Entry>,
                                        t: nat)
    requires y.pc.SlotUnlock? && y.result.Success? && y.i == k < SLOTS
    requires ClientAt(slots, k, Slot(0, HeldBy(Client(0)), t), xs, y, HeldBy(Client(0)), log)
    ensures ClientAt(slots, k, Slot(0, Free, t), xs, y.(pc := Idle), Free, log)
  {
    var held, y1 := HeldBy(Client(0)), y.(pc := ListUnlock);
    ClientTurns(slots, k, Slot(0, held, t), xs, y, held, log, ClientView(y1, Slot(0, Free, t), held));
    ClientTurns(slots, k, Slot(0, Free, t), xs, y1, held, log, ClientView(y.(pc := Idle), Slot(0, Free, t), Free));
  }

  /** From the check to the new task in the slot. */
  lemma {:induction false} ClientWrites(slots: seq<Slot>, k: nat, xs: seq<WorkerState>, y: ClientState,
                                        log: seq<Entry>, t: nat, log': seq<Entry>)
    requires y.i == k < SLOTS && y.result.NoResult? && log' == log + [Entry(0, CallOf(y), Success)]
    requires if y.pc.AddCheck? then t == y.task else y.pc.ReleaseCheck? && t == NO_TASK
    requires var task := if y.pc.AddCheck? then NO_TASK else y.task;
      ClientAt(slots, k, Slot(0, HeldBy(Client(0)), task), xs, y, HeldBy(Client(0)), log)
    ensures ClientAt(slots, k, Slot(0, HeldBy(Client(0)), t), xs, y.(pc := SlotUnlock, result := Success),
                     HeldBy(Client(0)), log')
  {
    var held, was := HeldBy(Client(0)), Slot(0, HeldBy(Client(0)), if y.pc.AddCheck? then NO_TASK else y.task);
    var done := y.(pc := SlotUnlock, result := Success);
    if y.pc.ReleaseCheck? && y.task == NO_TASK {
      ClientTurns(slots, k, was, xs, y, held, log, ClientView(done, was, held));
    } else {
      var y3 := y.(pc := if y.pc.AddCheck? then AddStore else ReleaseClear);
      ClientTurns(slots, k, was, xs, y, held, log, ClientView(y3, was, held));
      ClientTurns(slots, k, was, xs, y3, held, log, ClientView(done, Slot(0, held, t), held));
    }
  }

  lemma {:induction false} ClientGivesUp(slots: seq<Slot>, xs: seq<WorkerState>, y: ClientState, log: seq<Entry>)
    requires |slots| == SLOTS && (y.pc.AddScan? || y.pc.ReleaseScan?) && y.result.NoResult? && y.i == SLOTS
    requires Reached(System(slots, xs, y, HeldBy(Client(0))), log)
    ensures var r := if y.pc.AddScan? then OutOfMem else NotFound;
      Reached(System(slots, xs, y.(pc := Idle, result := r), Free), log + [Entry(0, CallOf(y), r)])
  {
    var r, was := if y.pc.AddScan? then OutOfMem else NotFound, slots[0];
    assert slots[0 := was] == slots;
    ClientMisses(slots, was, xs, y, log, r);
    var y1, log' := y.(pc := ListUnlock, result := r), log + [Entry(0, CallOf(y), r)];
    ClientTurns(slots, 0, was, xs, y1, HeldBy(Client(0)), log', ClientView(y1.(pc := Idle), was, Free));
  }

  /** The end of a scan that has found nothing. */
  lemma {:induction false} ClientMisses(slots: seq<Slot>, was: Slot, xs: seq<WorkerState>, y: ClientState,
                                        log: seq<Entry>, r: Result)
    requires (y.pc.AddScan? || y.pc.ReleaseScan?) && y.result.NoResult? && y.i == SLOTS
    requires r == if y.pc.AddScan? then OutOfMem else NotFound
    requires ClientAt(slots, 0, was, xs, y, HeldBy(Client(0)), log)
    ensures ClientAt(slots, 0, was, xs, y.(pc := ListUnlock, result := r), HeldBy(Client(0)),
                     log + [Entry(0, CallOf(y), r)])
  {
    var y1 := y.(pc := ListUnlock, result := r);
    ClientTurns(slots, 0, was, xs, y, HeldBy(Client(0)), log, ClientView(y1, was, HeldBy(Client(0))));
  }

  /** A client alone makes one call, from start to return. */
  lemma {:induction false} ClientCalls(slots: seq<Slot>, tasks: seq<nat>, xs: seq<WorkerState>, y: ClientState,
                                       log: seq<Entry>, call: Call)
      returns (slots': seq<Slot>, y': ClientState)
    requires Idling(slots, tasks) && y.pc.Idle? && Reached(System(slots, xs, y, Free), log)
    ensures Idling(slots', Perform(tasks, call).tasks) && y'.pc.Idle?
    ensures Reached(System(slots', xs, y', Free), log + [Entry(0, call, Perform(tasks, call).result)])
  {
    assert forall k :: 0 <= k < SLOTS ==> slots[k := slots[k]] == slots;
    ClientGoes(slots, xs, y, Free, log, call);
    var y0 := ClientState(if call.Add? then AddLock else ReleaseLock, call.task, 0, NoResult);
    ClientGoes(slots, xs, y0, Free, log, call);
    var y1 := y0.(pc := if call.Add? then AddScan else ReleaseScan);
    var k := FirstOf(tasks, Wanted(y1));
    ClientScans(slots, tasks, xs, y1, log, k);
    var y2 := y1.(i := k);
    if k < SLOTS {
      ClientStores(slots, tasks, xs, y2, log);
      slots' := slots[k := Slot(0, Free, if call.Add? then call.task else NO_TASK)];
      y' := y2.(pc := Idle, result := Success);
    } else {
      ClientGivesUp(slots, xs, y2, log);
      slots', y' := slots, y2.(pc := Idle, result := if call.Add? then OutOfMem else NotFound);
    }
  }

  const FRESH: WorkerState := WorkerState(LoopTest, 0, true, 0, 0, true, true, 0)

  /** Any calls at all can be made one after the other before a worker takes its first step. */
  lemma {:induction false} CallsCanBeMade(calls: seq<Call>)
      returns (slots: seq<Slot>, y: ClientState, log: seq<Entry>)
    ensures Idling(slots, Table(calls)) && Calls(log) == calls
    ensures Reached(System(slots, [FRESH, FRESH], y, Free), log)
    ensures y.pc.Idle?
  {
    if calls == [] {
      slots, y, log := seq(SLOTS, _ => Slot(0, Free, NO_TASK)), ClientState(Idle, 0, 0, NoResult), [];
      StartIsReached(System(slots, [FRESH, FRESH], y, Free));
    } else {
      var n := |calls| - 1;
      var before, call := calls[..n], calls[n];
      assert calls == before + [call];
      slots, y, log := CallsCanBeMade(before);
      slots, y, log := OneMoreCall(before, call, slots, y, log);
    }
  }

  lemma {:induction false} OneMoreCall(calls: seq<Call>, call: Call, slots: seq<Slot>, y: ClientState, log: seq<Entry>)
      returns (slots': seq<Slot>, y': ClientState, log': seq<Entry>)
    requires Idling(slots, Table(calls)) && Calls(log) == calls && y.pc.Idle?
    requires Reached(System(slots, [FRESH, FRESH], y, Free), log)
    ensures Idling(slots', Table(calls + [call])) && Calls(log') == calls + [call] && y'.pc.Idle?
    ensures Reached(System(slots', [FRESH, FRESH], y', Free), log')
  {
    var e := Entry(0, call, Perform(Table(calls), call).result);
    slots', y' := ClientCalls(slots, Table(calls), [FRESH, FRESH], y, log, call);
    log' := log + [e];
    CallsOfLonger(log, e);
    TableOfMore(calls, call);
  }

  lemma {:induction false} CallsOfLonger(log: seq<Entry>, e: Entry)
    ensures Calls(log + [e]) == Calls(log) + [e.call]
  {
    assert (log + [e])[..|log|] == log;
  }

  // ---------------------------------------------------------------- a worker goes to a slot

  /** Worker `w`, now `x`, is at slot `k`, which is now `slot`. */
  ghost predicate WorkerAt(slots: seq<Slot>, k: nat, slot: Slot, xs: seq<WorkerState>, w: nat, x: WorkerState,
                           y: ClientState, log: seq<Entry>) {
    && |slots| == SLOTS && k < SLOTS && w < |xs|
    && Reached(System(slots[k := slot], xs[w := x], y, Free), log)
  }

  lemma {:induction false} WorkerTurns(slots: seq<Slot>, k: nat, slot: Slot, xs: seq<WorkerState>, w: nat,
                                       x: WorkerState, y: ClientState, log: seq<Entry>, answer: Answer,
                                       slot': Slot, x': WorkerState)
    requires WorkerAt(slots, k, slot, xs, w, x, y, log) && k == SlotAt(w, x.i)
    requires Scanning(x.pc) || x.pc.LoopTest?
    requires StepView(w, View(x, slot, Center(0, Free)), answer) == View(x', slot', Center(0, Free))
    ensures WorkerAt(slots, k, slot', xs, w, x', y, log)
  {
    WorkerGoes(slots[k := slot], xs[w := x], y, log, w, answer);
    assert slots[k := slot][k := slot'] == slots[k := slot'];
    assert xs[w := x][w := x'] == xs[w := x'];
  }

  /** From CheckFree to the slot's lock. */
  lemma {:induction false} WorkerLocks(slots: seq<Slot>, k: nat, t: nat, xs: seq<WorkerState>, w: nat,
                                       x: WorkerState, y: ClientState, log: seq<Entry>)
    requires WorkerAt(slots, k, Slot(0, Free, t), xs, w, x, y, log) && k == SlotAt(w, x.i) && x.pc.CheckFree?
    ensures WorkerAt(slots, k, Slot(0, HeldBy(Worker(w)), t), xs, w, x.(pc := Recheck), y, log)
  {
    var no, free := Answer(false, 0), Slot(0, Free, t);
    WorkerTurns(slots, k, free, xs, w, x, y, log, no, free, x.(pc := TryLock));
    WorkerTurns(slots, k, free, xs, w, x.(pc := TryLock), y, log, no,
                Slot(0, HeldBy(Worker(w)), t), x.(pc := Recheck));
  }

  /** And on to a slot claimed. */
  lemma {:induction false} WorkerClaims(slots: seq<Slot>, k: nat, t: nat, xs: seq<WorkerState>, w: nat,
                                        x: WorkerState, y: ClientState, log: seq<Entry>)
    requires WorkerAt(slots, k, Slot(0, HeldBy(Worker(w)), t), xs, w, x, y, log)
    requires k == SlotAt(w, x.i) && x.pc.Recheck?
    ensures WorkerAt(slots, k, Slot(w, HeldBy(Worker(w)), t), xs, w, x.(pc := LoadTask), y, log)
  {
    var no, held := Answer(false, 0), Slot(0, HeldBy(Worker(w)), t);
    WorkerTurns(slots, k, held, xs, w, x, y, log, no, held, x.(pc := Claim));
    WorkerTurns(slots, k, held, xs, w, x.(pc := Claim), y, log, no,
                Slot(w, HeldBy(Worker(w)), t), x.(pc := LoadTask));
  }

  /** From there to after Begin. */
  lemma {:induction false} WorkerBegins(slots: seq<Slot>, k: nat, slot: Slot, xs: seq<WorkerState>, w: nat,
                                        x: WorkerState, y: ClientState, log: seq<Entry>, begins: bool)
    requires WorkerAt(slots, k, slot, xs, w, x, y, log) && k == SlotAt(w, x.i) && x.pc.LoadTask?
    requires slot.task != NO_TASK
    ensures WorkerAt(slots, k, slot, xs, w,
                     x.(pc := if begins then RunTask else Disown, usedCnt := 0, begun := slot.task), y, log)
  {
    var answer, x1 := Answer(begins, 0), x.(pc := Begin, usedCnt := 0);
    WorkerTurns(slots, k, slot, xs, w, x, y, log, answer, slot, x1);
    WorkerTurns(slots, k, slot, xs, w, x1, y, log, answer, slot,
                x1.(pc := if begins then RunTask else Disown, begun := slot.task));
  }

  /** From QuitTask to the next slot, after a task that has done nothing. */
  lemma {:induction false} WorkerQuits(slots: seq<Slot>, k: nat, t: nat, xs: seq<WorkerState>, w: nat,
                                       x: WorkerState, y: ClientState, log: seq<Entry>) returns (x': WorkerState)
    requires WorkerAt(slots, k, Slot(w, HeldBy(Worker(w)), t), xs, w, x, y, log) && k == SlotAt(w, x.i)
    requires x.pc.Disown? && x.usedCnt == 0
    ensures x'.pc.NextSlot? && x'.i == x.i && WorkerAt(slots, k, Slot(0, Free, t), xs, w, x', y, log)
  {
    var no, held := Answer(false, 0), Slot(0, HeldBy(Worker(w)), t);
    var x1 := x.(pc := Unlock);
    WorkerTurns(slots, k, Slot(w, HeldBy(Worker(w)), t), xs, w, x, y, log, no, held, x1);
    x' := x1.(pc := NextSlot, allDone := x1.allDone && x1.usedCnt == 0);
    WorkerTurns(slots, k, held, xs, w, x1, y, log, no, Slot(0, Free, t), x');
  }

  /** ApplyTask and Begin on a task in a slot that nobody is in. */
  lemma {:induction false} WorkerTries(slots: seq<Slot>, k: nat, t: nat, xs: seq<WorkerState>, w: nat,
                                       x: WorkerState, y: ClientState, log: seq<Entry>, begins: bool)
    requires WorkerAt(slots, k, Slot(0, Free, t), xs, w, x, y, log) && k == SlotAt(w, x.i) && x.pc.CheckFree?
    requires t != NO_TASK
    ensures WorkerAt(slots, k, Slot(w, HeldBy(Worker(w)), t), xs, w,
                     x.(pc := if begins then RunTask else Disown, usedCnt := 0, begun := t), y, log)
  {
    WorkerLocks(slots, k, t, xs, w, x, y, log);
    WorkerClaims(slots, k, t, xs, w, x.(pc := Recheck), y, log);
    WorkerBegins(slots, k, Slot(w, HeldBy(Worker(w)), t), xs, w, x.(pc := LoadTask), y, log, begins);
  }

  /** The look at a slot that nobody is in. */
  lemma {:induction false} WorkerLooks(slots: seq<Slot>, k: nat, t: nat, xs: seq<WorkerState>, w: nat,
                                       x: WorkerState, y: ClientState, log: seq<Entry>) returns (x': WorkerState)
    requires WorkerAt(slots, k, Slot(0, Free, t), xs, w, x, y, log) && k == SlotAt(w, x.i) && x.pc.CheckUsed?
    ensures x'.i == x.i && x'.pc == (if t != NO_TASK then CheckFree else NextSlot)
    ensures WorkerAt(slots, k, Slot(0, Free, t), xs, w, x', y, log)
  {
    x' := x.(pc := if t != NO_TASK then CheckFree else NextSlot);
    WorkerTurns(slots, k, Slot(0, Free, t), xs, w, x, y, log, Answer(false, 0), Slot(0, Free, t), x');
  }

  /** Such a slot is left as it was: without a task it is skipped, with one it is claimed, the
      task does not begin, and it is given back. */
  lemma {:induction false} WorkerPasses(slots: seq<Slot>, k: nat, t: nat, xs: seq<WorkerState>, w: nat,
                                        x: WorkerState, y: ClientState, log: seq<Entry>) returns (x': WorkerState)
    requires WorkerAt(slots, k, Slot(0, Free, t), xs, w, x, y, log) && k == SlotAt(w, x.i)
    requires x.pc.CheckUsed? && x.i + 1 < SLOTS
    ensures x'.pc.CheckUsed? && x'.i == x.i + 1 && WorkerAt(slots, k, Slot(0, Free, t), xs, w, x', y, log)
  {
    var x1 := WorkerLooks(slots, k, t, xs, w, x, y, log);
    if t != NO_TASK {
      WorkerTries(slots, k, t, xs, w, x1, y, log, false);
      x1 := WorkerQuits(slots, k, t, xs, w, x1.(pc := Disown, usedCnt := 0, begun := t), y, log);
    }
    x' := WorkerMovesOn(slots, k, t, xs, w, x1, y, log);
  }

  lemma {:induction false} WorkerMovesOn(slots: seq<Slot>, k: nat, t: nat, xs: seq<WorkerState>, w: nat,
                                         x: WorkerState, y: ClientState, log: seq<Entry>) returns (x': WorkerState)
    requires WorkerAt(slots, k, Slot(0, Free, t), xs, w, x, y, log) && k == SlotAt(w, x.i)
    requires x.pc.NextSlot? && x.i + 1 < SLOTS
    ensures x'.pc.CheckUsed? && x'.i == x.i + 1 && WorkerAt(slots, k, Slot(0, Free, t), xs, w, x', y, log)
  {
    x' := x.(pc := CheckUsed, i := x.i + 1);
    WorkerTurns(slots, k, Slot(0, Free, t), xs, w, x, y, log, Answer(false, 0), Slot(0, Free, t), x');
  }

  /** Nobody is in the slots that have their turn before turn `i`. */
  ghost predicate WayIsFree(slots: seq<Slot>, w: nat, i: nat)
    requires |slots| == SLOTS
  {
    forall j: nat :: j < i ==> NobodyIn(slots[SlotAt(w, j)])
  }

  predicate NobodyIn(slot: Slot) {
    slot == Slot(0, Free, slot.task)
  }

  /** A worker at the start of a pass goes to its turn `i`. */
  lemma {:induction false} WorkerArrives(slots: seq<Slot>, xs: seq<WorkerState>, y: ClientState, log: seq<Entry>,
                                         w: nat, i: nat) returns (x: WorkerState)
    requires |slots| == SLOTS && w < |xs| && xs[w] == FRESH && i < SLOTS && Reached(System(slots, xs, y, Free), log)
    requires WayIsFree(slots, w, i)
    ensures x.pc.CheckUsed? && x.i == i && Reached(System(slots, xs[w := x], y, Free), log)
    decreases i
  {
    if i == 0 {
      var k := SlotAt(w, 0);
      assert slots[k := slots[k]] == slots && xs[w := FRESH] == xs;
      x := FRESH.(pc := CheckUsed, i := 0, allDone := true);
      WorkerTurns(slots, k, slots[k], xs, w, FRESH, y, log, Answer(true, 0), slots[k], x);
    } else {
      var k := SlotAt(w, i - 1);
      assert slots[k := slots[k]] == slots && NobodyIn(slots[k]);
      x := WorkerArrives(slots, xs, y, log, w, i - 1);
      x := WorkerPasses(slots, k, slots[k].task, xs, w, x, y, log);
    }
  }

  /** And begins the task of slot `k`, whose turn it is. */
  lemma {:induction false} WorkerRuns(slots: seq<Slot>, xs: seq<WorkerState>, y: ClientState, log: seq<Entry>,
                                      w: nat, i: nat, k: nat) returns (x: WorkerState)
    requires |slots| == SLOTS && w < |xs| && xs[w] == FRESH && i < SLOTS && Reached(System(slots, xs, y, Free), log)
    requires k == SlotAt(w, i) && WayIsFree(slots, w, i) && NobodyIn(slots[k]) && slots[k].task != NO_TASK
    ensures Runs(x, slots[k].task)
    ensures WorkerAt(slots, k, Slot(w, HeldBy(Worker(w)), slots[k].task), xs, w, x, y, log)
  {
    var t := slots[k].task;
    var x0 := WorkerArrives(slots, xs, y, log, w, i);
    assert slots[k := Slot(0, Free, t)] == slots;
    var x1 := WorkerLooks(slots, k, t, xs, w, x0, y, log);
    WorkerTries(slots, k, t, xs, w, x1, y, log, true);
    x := x1.(pc := RunTask, usedCnt := 0, begun := t);
  }

  // ---------------------------------------------------------------- both directions

  /** Worker 1 goes to the later slot, then worker 0 to the earlier one. */
  lemma {:induction false} HeldTwiceRunsTwice(calls: seq<Call>, t: nat)
    requires t != NO_TASK && HeldTwice(Table(calls), t)
    ensures CanRunTwice(calls, t)
  {
    var tasks := Table(calls);
    var j, k :| 0 <= j < k < |tasks| && tasks[j] == tasks[k] == t;
    var slots, y, log := CallsCanBeMade(calls);
    TwoWorkersRun(slots, tasks, y, log, t, j, k);
  }

  lemma {:induction false} TwoWorkersRun(slots: seq<Slot>, tasks: seq<nat>, y: ClientState, log: seq<Entry>, t: nat,
                                         j: nat, k: nat)
    requires Idling(slots, tasks) && Reached(System(slots, [FRESH, FRESH], y, Free), log)
    requires j < k < SLOTS && tasks[j] == tasks[k] == t != NO_TASK
    ensures exists s :: Reached(s, log) && RunTwice(s, t)
  {
    var i := EverySlotHasItsTurn(1, k);
    var x1 := WorkerRuns(slots, [FRESH, FRESH], y, log, 1, i, k);
    var slots', xs := slots[k := Slot(1, HeldBy(Worker(1)), t)], [FRESH, x1];
    assert [FRESH, FRESH][1 := x1] == xs;
    assert forall n: nat :: n < SLOTS ==> SlotAt(0, n) == n;
    var x0 := WorkerRuns(slots', xs, y, log, 0, j, j);
    var s := System(slots'[j := Slot(0, HeldBy(Worker(0)), t)], xs[0 := x0], y, Free);
    assert Runs(s.workers[0], t) && Runs(s.workers[1], t);
    assert RunTwice(s, t);
  }

  lemma {:induction false} RunTwiceExactlyWhenHeldTwice(calls: seq<Call>, t: nat)
    requires t != NO_TASK
    ensures CanRunTwice(calls, t) <==> HeldTwice(Table(calls), t)
  {
    if CanRunTwice(calls, t) {
      RunTwiceIsHeldTwice(calls, t);
    } else if HeldTwice(Table(calls), t) {
      HeldTwiceRunsTwice(calls, t);
    }
  }

  // ---------------------------------------------------------------- what the caller can check

  /** Call number `n` adds `t` to a table that holds it already and has an empty slot. */
  ghost predicate AddedAgain(calls: seq<Call>, t: nat, n: nat) {
    n < |calls| && calls[n] == Add(t) && t in Table(calls[..n]) && NO_TASK in Table(calls[..n])
  }

  lemma {:induction false} AddedAgainIsHeldTwice(calls: seq<Call>, t: nat, n: nat)
    requires t != NO_TASK && AddedAgain(calls, t, n)
    ensures HeldTwice(Table(calls[..n + 1]), t)
  {
    var before, after := Table(calls[..n]), Table(calls[..n + 1]);
    assert calls[..n + 1][..n] == calls[..n];
    var j, k :| 0 <= j < |before| && before[j] == t && k == FirstOf(before, NO_TASK);
    assert exists i :: 0 <= i < |before| && before[i] == NO_TASK;
    assert after[j] == after[k] == t && j != k;
    var lo, hi := if j < k then j else k, if j < k then k else j;
    assert after[lo] == after[hi] == t;
  }

  /** A call other than such an Add does not put `t` in a second slot. */
  lemma {:induction false} StaysHeldOnce(tasks: seq<nat>, call: Call, t: nat)
    requires |tasks| == SLOTS && t != NO_TASK && !HeldTwice(tasks, t)
    requires !(call == Add(t) && t in tasks && NO_TASK in tasks)
    ensures !HeldTwice(Perform(tasks, call).tasks, t)
  {
    var after := Perform(tasks, call).tasks;
    forall j, k | 0 <= j < k < |after|
      ensures !(after[j] == after[k] == t)
    {
      var n := FirstOf(tasks, if call.Add? then NO_TASK else call.task);
      assert n < |tasks| ==> tasks[n] in tasks;
      assert tasks[j] in tasks && tasks[k] in tasks;
    }
  }

  lemma {:induction false} HeldTwiceWasAddedAgain(calls: seq<Call>, t: nat) returns (n: nat)
    requires t != NO_TASK && HeldTwice(Table(calls), t)
    ensures AddedAgain(calls, t, n)
    decreases |calls|
  {
    var m := |calls| - 1;
    assert calls != [];
    if HeldTwice(Table(calls[..m]), t) {
      n := HeldTwiceWasAddedAgain(calls[..m], t);
      assert calls[..m][..n] == calls[..n];
    } else {
      n := m;
      if !AddedAgain(calls, t, m) {
        StaysHeldOnce(Table(calls[..m]), calls[m], t);
      }
    }
  }

  /** By the time some of the calls have taken effect, `t` can be run by two workers at once. */
  ghost predicate EverRunTwice(calls: seq<Call>, t: nat) {
    exists m :: 0 <= m <= |calls| && CanRunTwice(calls[..m], t)
  }

  ghost predicate EverAddedAgain(calls: seq<Call>, t: nat) {
    exists n: nat :: AddedAgain(calls, t, n)
  }

  /** For any calls, in any number and order: two workers can run `t` at once, under some
      interleaving, if and only if `t` is added while it is in the table and a slot is empty. */
  lemma {:induction false} RunTwiceExactlyWhenAddedAgain(calls: seq<Call>, t: nat)
    requires t != NO_TASK
    ensures EverRunTwice(calls, t) <==> EverAddedAgain(calls, t)
  {
    if EverRunTwice(calls, t) {
      var m :| 0 <= m <= |calls| && CanRunTwice(calls[..m], t);
      RunTwiceIsHeldTwice(calls[..m], t);
      var n := HeldTwiceWasAddedAgain(calls[..m], t);
      assert calls[..m][..n] == calls[..n];
      assert AddedAgain(calls, t, n);
    } else if EverAddedAgain(calls, t) {
      var n: nat :| AddedAgain(calls, t, n);
      AddedAgainIsHeldTwice(calls, t, n);
      HeldTwiceRunsTwice(calls[..n + 1], t);
    }
  }

  /** The shortest such calls: one task added twice. */
  lemma {:induction false} AddedTwiceRunsTwice(t: nat)
    requires t != NO_TASK
    ensures CanRunTwice([Add(t), Add(t)], t)
  {
    var calls, none, once := [Add(t), Add(t)], Empty(), [Add(t)];
    assert none[0] == NO_TASK && none[1] == NO_TASK;
    var k := FirstOf(none, NO_TASK);
    var one := none[k := t];
    assert [] + once == once;
    TableOfMore([], Add(t));
    assert Table(once) == one && one[k] == t && one[if k == 0 then 1 else 0] == NO_TASK;
    assert calls[..1] == once && calls[..2] == calls;
    assert AddedAgain(calls, t, 1);
    AddedAgainIsHeldTwice(calls, t, 1);
    HeldTwiceRunsTwice(calls, t);
  }

  lemma {:induction false} TableOfMore(calls: seq<Call>, call: Call)
    ensures Table(calls + [call]) == Perform(Table(calls), call).tasks
  {
    assert (calls + [call])[..|calls|] == calls;
  }

  /** A caller who never adds a task that is in the table never has it run twice at once. */
  lemma {:induction false} NeverRunTwice(tr: seq<State>, ms: seq<Move>, n: nat, t: nat)
    requires IsRun(tr, ms) && n <= |ms| && t != NO_TASK
    requires !EverAddedAgain(Calls(Log(tr, ms, 0, n)), t)
    ensures !RunTwice(tr[n], t)
  {
    var log := Log(tr, ms, 0, n);
    if RunTwice(tr[n], t) {
      var u: nat, w: nat :| u < w < |tr[n].workers| && Runs(tr[n].workers[u], t) && Runs(tr[n].workers[w], t);
      RunningTaskIsRegistered(tr, ms, n, u, w);
      CallsTakeEffectInOrder(tr, ms, n);
      ReplayIsTable(log);
      var m := HeldTwiceWasAddedAgain(Calls(log), t);
    }
  }
}
