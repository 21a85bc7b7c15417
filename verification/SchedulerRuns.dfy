/** What holds in every run of the scheduler, however its threads are interleaved. */
module SchedulerRuns {
  import opened SchedulerModel
  import opened SchedulerInvariant

  // ---------------------------------------------------------------- one worker per task

  /** Two workers between ApplyTask and the end of QuitTask are in different slots, worker 0,
      whose number marks a slot as free, included. */
  lemma {:induction false} OneWorkerPerSlot(tr: seq<State>, ms: seq<Move>, n: nat, u: nat, w: nat)
    requires IsRun(tr, ms) && n < |tr| && u < |tr[n].workers| && w < |tr[n].workers| && u != w
    requires Holding(tr[n].workers[u].pc) && Holding(tr[n].workers[w].pc)
    ensures SlotAt(u, tr[n].workers[u].i) != SlotAt(w, tr[n].workers[w].i)
  {
    RunKeepsInv(tr, ms, n);
    var s := tr[n];
    var k := SlotAt(w, s.workers[w].i);
    assert WorkerSlot(u, s.workers[u], k, s.slots[k]) && WorkerSlot(w, s.workers[w], k, s.slots[k]);
  }

  /** Nor is a client in there that loads or unloads the slot's task. */
  lemma {:induction false} NoClientInSlot(tr: seq<State>, ms: seq<Move>, n: nat, w: nat, c: nat)
    requires IsRun(tr, ms) && n < |tr| && w < |tr[n].workers| && c < |tr[n].clients|
    requires Holding(tr[n].workers[w].pc) && HoldsClientSlot(tr[n].clients[c].pc)
    ensures tr[n].clients[c].i != SlotAt(w, tr[n].workers[w].i)
  {
    RunKeepsInv(tr, ms, n);
    var s := tr[n];
    var k := SlotAt(w, s.workers[w].i);
    assert WorkerSlot(w, s.workers[w], k, s.slots[k]) && ClientHoldsSlot(c, s.clients[c], k, s.slots[k]);
  }

  /** The second look at m_operatingThread never finds a worker there. */
  lemma {:induction false} SecondLookFindsNobody(tr: seq<State>, ms: seq<Move>, n: nat, w: nat, answer: Answer)
    requires IsRun(tr, ms) && n < |tr| && w < |tr[n].workers| && tr[n].workers[w].pc.Recheck?
    ensures Allowed(tr[n], ByWorker(w, answer))
    ensures Take(tr[n], ByWorker(w, answer)).workers[w].pc.Claim?
  {
    RunKeepsInv(tr, ms, n);
    var k := SlotAt(w, tr[n].workers[w].i);
    assert WorkerSlot(w, tr[n].workers[w], k, tr[n].slots[k]);
  }

  ghost predicate HoldsThroughout(tr: seq<State>, a: nat, b: nat, w: nat)
    requires a <= b < |tr|
  {
    forall n :: a <= n <= b ==> w < |tr[n].workers| && Holding(tr[n].workers[w].pc)
  }

  lemma {:induction false} HeldSlotStays(s: State, m: Move, w: nat)
    requires Inv(s) && Allowed(s, m) && w < |s.workers| && Holding(s.workers[w].pc)
    requires Holding(Take(s, m).workers[w].pc)
    ensures Take(s, m).workers[w].i == s.workers[w].i
    ensures var k := SlotAt(w, s.workers[w].i); Take(s, m).slots[k].task == s.slots[k].task
    ensures !m.ByWorker? || m.w != w ==> var k := SlotAt(w, s.workers[w].i); Take(s, m).slots[k] == s.slots[k]
  {
    var k := SlotAt(w, s.workers[w].i);
    assert WorkerSlot(w, s.workers[w], k, s.slots[k]);
    match m
    case ByWorker(u, answer) =>
      var k0 := SlotAt(u, s.workers[u].i);
      assert WorkerSlot(u, s.workers[u], k0, s.slots[k0]) && SlotOk(s.slots[k0]);
      WorkerSparesOthers(u, WorkerView(s, u), answer, k0, Worker(w));
    case ByClient(c, call) =>
      var k0 := ClientSlot(s.clients[c].i);
      assert ClientKnows(s.clients[c], Tasks(s.slots));
      assert ClientHoldsSlot(c, s.clients[c], k0, s.slots[k0]) && SlotOk(s.slots[k0]);
      ClientStepsOnSlot(c, ClientViewOf(s, c), call, k0, Worker(w));
    case ByStopper =>
  }

  /** While a worker is in a slot, nobody puts a task there or takes it away. */
  lemma {:induction false} TaskStaysWhileHeld(tr: seq<State>, ms: seq<Move>, a: nat, b: nat, w: nat)
    requires IsRun(tr, ms) && a <= b < |tr| && HoldsThroughout(tr, a, b, w)
    ensures Shape(tr[a]) && Shape(tr[b]) && tr[b].workers[w].i == tr[a].workers[w].i
    ensures var k := SlotAt(w, tr[a].workers[w].i); tr[b].slots[k].task == tr[a].slots[k].task
    decreases b
  {
    RunKeepsInv(tr, ms, b);
    if a < b {
      assert HoldsThroughout(tr, a, b - 1, w);
      TaskStaysWhileHeld(tr, ms, a, b - 1, w);
      RunKeepsInv(tr, ms, b - 1);
      assert IsStep(tr, ms, b - 1);
      assert Holding(tr[b - 1].workers[w].pc) && Holding(tr[b].workers[w].pc);
      HeldSlotStays(tr[b - 1], ms[b - 1], w);
    }
  }

  /** Begin, Run and End are called on one task, which its slot holds until QuitTask: a task
      in no slot is not being run, and one that two workers run is in two slots. */
  lemma {:induction false} RunningTaskIsRegistered(tr: seq<State>, ms: seq<Move>, n: nat, u: nat, w: nat)
    requires IsRun(tr, ms) && n < |tr| && u < |tr[n].workers| && w < |tr[n].workers|
    requires tr[n].workers[w].pc.RunTask? || tr[n].workers[w].pc.EndTask?
    ensures Shape(tr[n])
    ensures var k := SlotAt(w, tr[n].workers[w].i); tr[n].slots[k].task == tr[n].workers[w].begun != NO_TASK
    ensures var k := SlotAt(w, tr[n].workers[w].i);
      tr[n].slots[k].operating == w && tr[n].slots[k].lock == HeldBy(Worker(w))
    ensures tr[n].workers[w].begun in Tasks(tr[n].slots)
    ensures (tr[n].workers[u].pc.RunTask? || tr[n].workers[u].pc.EndTask?) && u != w
            && tr[n].workers[u].begun == tr[n].workers[w].begun
            ==> exists j, k :: 0 <= j < k < SLOTS
                  && Tasks(tr[n].slots)[j] == Tasks(tr[n].slots)[k] == tr[n].workers[w].begun
  {
    RunKeepsInv(tr, ms, n);
    var s := tr[n];
    var j, k := SlotAt(u, s.workers[u].i), SlotAt(w, s.workers[w].i);
    assert WorkerSlot(w, s.workers[w], k, s.slots[k]) && WorkerSlot(u, s.workers[u], j, s.slots[j]);
    assert WorkerSlot(u, s.workers[u], k, s.slots[k]);
    var tasks := Tasks(s.slots);
    assert tasks[k] == s.slots[k].task && tasks[j] == s.slots[j].task;
    if (s.workers[u].pc.RunTask? || s.workers[u].pc.EndTask?) && u != w && s.workers[u].begun == s.workers[w].begun {
      assert j != k;
      var lo, hi := if j < k then j else k, if j < k then k else j;
      assert tasks[lo] == tasks[hi] == s.workers[w].begun;
    }
  }

  // ---------------------------------------------------------------- sleeping

  lemma {:induction false} SomeoneAwake(workers: seq<WorkerState>)
    requires workers != [] && !Asleep(workers[0].pc)
    ensures CountAsleep(workers) < |workers|
  {
    if |workers| > 1 {
      SomeoneAwake(workers[..|workers| - 1]);
    }
  }

  /** m_nSleepingNr counts the workers between its increment and its decrement, and since
      worker 0 never sleeps it stays below their number: the unsigned decrement never wraps. */
  lemma {:induction false} SleepersAreCounted(tr: seq<State>, ms: seq<Move>, n: nat)
    requires IsRun(tr, ms) && n < |tr|
    ensures tr[n].center.sleeping == CountAsleep(tr[n].workers) >= 0
    ensures tr[n].workers != [] ==> !Asleep(tr[n].workers[0].pc) && tr[n].center.sleeping < |tr[n].workers|
  {
    RunKeepsInv(tr, ms, n);
    if tr[n].workers != [] {
      assert WorkerOk(0, tr[n].workers[0]);
      SomeoneAwake(tr[n].workers);
    }
  }

  /** In a pass every slot has its turn, once. */
  lemma {:induction false} EverySlotHasItsTurn(w: nat, k: nat) returns (i: nat)
    requires k < SLOTS
    ensures i < SLOTS && SlotAt(w, i) == k
    ensures forall j: nat :: j < SLOTS && SlotAt(w, j) == k ==> j == i
  {
    var r := w % SLOTS;
    i := if r <= k then k - r else k + SLOTS - r;
    forall j: nat | j < SLOTS
      ensures SlotAt(w, j) == (if j + r < SLOTS then j + r else j + r - SLOTS)
    {
      assert w == SLOTS * (w / SLOTS) + r;
      assert (j + w) % SLOTS == (j + r) % SLOTS;
    }
  }

  // ---------------------------------------------------------------- stopping

  /** When StopWorking returns every worker has left Loop, and none holds a lock, operates on
      a slot or counts as sleeping. */
  lemma {:induction false} StoppedMeansGone(tr: seq<State>, ms: seq<Move>, n: nat)
    requires IsRun(tr, ms) && n < |tr| && tr[n].stopper.Stopped?
    ensures Shape(tr[n])
    ensures forall w: nat :: w < |tr[n].workers| ==> tr[n].workers[w].pc.Done? && !tr[n].workers[w].hasInfo
    ensures forall k: nat :: k < SLOTS ==> tr[n].slots[k].operating == 0
    ensures forall k: nat, w: nat :: k < SLOTS ==> tr[n].slots[k].lock != HeldBy(Worker(w))
    ensures tr[n].center == Center(0, Free)
  {
    RunKeepsInv(tr, ms, n);
    var s := tr[n];
    forall k: nat, w: nat | k < SLOTS
      ensures s.slots[k].lock != HeldBy(Worker(w))
    {
      assert OwnerExists(s.slots[k].lock, |s.workers|, |s.clients|);
      assert w < |s.workers| ==> WorkerSlot(w, s.workers[w], k, s.slots[k]);
    }
    forall k: nat | k < SLOTS
      ensures s.slots[k].operating == 0
    {
      assert SlotOk(s.slots[k]);
    }
    forall w: nat ensures s.center.lock != HeldBy(Worker(w)) {
      assert w < |s.workers| ==> WorkerCenter(w, s.workers[w], s.center);
    }
    assert OwnerExists(s.center.lock, |s.workers|, 0);
    NoneAsleep(s.workers);
  }

  lemma {:induction false} NoneAsleep(workers: seq<WorkerState>)
    requires forall w :: 0 <= w < |workers| ==> workers[w].pc.Done?
    ensures CountAsleep(workers) == 0
  {
    if workers != [] {
      NoneAsleep(workers[..|workers| - 1]);
    }
  }

  /** How many steps a worker that has been told to stop still takes, at most. */
  function StepsLeft(x: WorkerState): (n: nat)
    requires Scanning(x.pc) ==> x.i < SLOTS
    ensures n <= 428
    ensures n == 0 <==> x.pc.Done?
  {
    if Scanning(x.pc) then 12 + 13 * (SLOTS - 1 - x.i) + StepsInTurn(x.pc)
    else match x.pc
      case Done => 0
      case Leave => 1
      case LoopTest => 2
      case RiseUnlock => 3
      case RiseWrite => 4
      case RiseRead => 5
      case RiseLock => 6
      case Wait => 7
      case SleepUnlock => 8
      case SleepWrite => 9
      case SleepRead => 10
      case SleepLock => 11
      case _ => 12
  }

  /** How many steps are left until the next slot has its turn, at most. */
  function StepsInTurn(pc: WorkerPc): (n: nat)
    ensures n <= 13
  {
    match pc
    case NextSlot => 1
    case WakeUp => 2
    case Unlock => 3
    case Disown => 4
    case EndTask => 5
    case RunTask => 6
    case Begin => 7
    case LoadTask => 8
    case Claim => 9
    case Recheck => 10
    case TryLock => 11
    case CheckFree => 12
    case CheckUsed => 13
    case _ => 0
  }

  /** How many of the moves `a` to `b` are worker `w`'s. */
  function MovesOf(ms: seq<Move>, a: nat, b: nat, w: nat): nat
    requires a <= b <= |ms|
    decreases b
  {
    if a == b then 0
    else MovesOf(ms, a, b - 1, w) + (if ms[b - 1].ByWorker? && ms[b - 1].w == w then 1 else 0)
  }

  lemma {:induction false} ScanProgresses(w: nat, v: View, answer: Answer)
    requires CanStep(v) && Scanning(v.worker.pc) && v.worker.i < SLOTS
    ensures var x' := StepView(w, v, answer).worker;
      && (Scanning(x'.pc) ==> x'.i < SLOTS)
      && StepsLeft(x') < StepsLeft(v.worker)
  {
    var x' := StepView(w, v, answer).worker;
    if !v.worker.pc.NextSlot? {
      assert x'.i == v.worker.i && StepsInTurn(x'.pc) < StepsInTurn(v.worker.pc);
    }
  }

  lemma {:induction false} LoopProgresses(w: nat, v: View, answer: Answer)
    requires CanStep(v) && !Scanning(v.worker.pc) && !v.worker.handle
    ensures var x' := StepView(w, v, answer).worker;
      !Scanning(x'.pc) && StepsLeft(x') < StepsLeft(v.worker)
  {
  }

  lemma {:induction false} ToldWorkerProgresses(s: State, m: Move, w: nat)
    requires Allowed(s, m) && w < |s.workers| && !s.workers[w].handle
    requires Scanning(s.workers[w].pc) ==> s.workers[w].i < SLOTS
    ensures var x' := Take(s, m).workers[w];
      && !x'.handle && (Scanning(x'.pc) ==> x'.i < SLOTS)
      && StepsLeft(x') + (if m.ByWorker? && m.w == w then 1 else 0) <= StepsLeft(s.workers[w])
  {
    if m.ByWorker? && m.w == w {
      if Scanning(s.workers[w].pc) {
        ScanProgresses(w, WorkerView(s, w), m.answer);
      } else {
        LoopProgresses(w, WorkerView(s, w), m.answer);
      }
    }
  }

  /** A worker whose handle is 0 leaves Loop within 428 of its own steps, so Stop waits for it
      no longer than that. */
  lemma {:induction false} ToldWorkerLeaves(tr: seq<State>, ms: seq<Move>, a: nat, b: nat, w: nat)
    requires IsRun(tr, ms) && a <= b < |tr| && w < |tr[a].workers| && !tr[a].workers[w].handle
    ensures w < |tr[b].workers| && !tr[b].workers[w].handle
    ensures Scanning(tr[a].workers[w].pc) ==> tr[a].workers[w].i < SLOTS
    ensures Scanning(tr[b].workers[w].pc) ==> tr[b].workers[w].i < SLOTS
    ensures MovesOf(ms, a, b, w) + StepsLeft(tr[b].workers[w]) <= StepsLeft(tr[a].workers[w])
    ensures MovesOf(ms, a, b, w) <= 428
    ensures MovesOf(ms, a, b, w) == 428 ==> tr[b].workers[w].pc.Done?
    decreases b
  {
    RunKeepsInv(tr, ms, a);
    assert WorkerOk(w, tr[a].workers[w]);
    if a < b {
      ToldWorkerLeaves(tr, ms, a, b - 1, w);
      RunKeepsInv(tr, ms, b - 1);
      assert IsStep(tr, ms, b - 1);
      ToldWorkerProgresses(tr[b - 1], ms[b - 1], w);
    }
  }

  // ---------------------------------------------------------------- nobody waits for a cycle

  ghost predicate WorkerMoves(s: State, u: nat)
    requires Shape(s)
  {
    u < |s.workers| && CanStep(WorkerView(s, u))
  }

  /** A worker in Loop that cannot step waits for m_tLock, held by a worker that can. */
  lemma {:induction false} WaitingWorkerIsServed(tr: seq<State>, ms: seq<Move>, n: nat, w: nat) returns (u: nat)
    requires IsRun(tr, ms) && n < |tr| && w < |tr[n].workers| && !tr[n].workers[w].pc.Done?
    ensures Shape(tr[n]) && WorkerMoves(tr[n], u)
    ensures u == w || (tr[n].center.lock == HeldBy(Worker(u)) && !WorkerMoves(tr[n], w))
  {
    RunKeepsInv(tr, ms, n);
    var s := tr[n];
    if CanStep(WorkerView(s, w)) {
      u := w;
    } else {
      assert OwnerExists(s.center.lock, |s.workers|, 0);
      u := s.center.lock.owner.w;
      assert WorkerCenter(u, s.workers[u], s.center);
    }
  }

  ghost predicate ClientMoves(s: State, c: nat)
    requires Shape(s)
  {
    c < |s.clients| && CanStepClient(ClientViewOf(s, c))
  }

  /** A client that waits for a slot waits for a worker that can step. */
  lemma {:induction false} SlotWaiterIsServed(s: State, c: nat)
    requires Inv(s) && c < |s.clients| && !ClientMoves(s, c) && HoldsList(s.clients[c].pc)
    ensures SlotIsServed(s, c)
  {
    var k := ClientSlot(s.clients[c].i);
    var lock := s.slots[k].lock;
    assert OwnerExists(lock, |s.workers|, |s.clients|);
    assert ClientKnows(s.clients[c], Tasks(s.slots)) && ClientHoldsList(c, s.clients[c], s.listLock);
    forall d: nat ensures lock != HeldBy(Client(d)) {
      assert d < |s.clients| ==>
          ClientHoldsSlot(d, s.clients[d], k, s.slots[k]) && ClientHoldsList(d, s.clients[d], s.listLock);
    }
    assert WorkerSlot(lock.owner.w, s.workers[lock.owner.w], k, s.slots[k]);
  }

  /** The client whose step is awaited by client `c`: `c` itself, or, when `c` waits for the
      list lock, the one that holds it. */
  ghost predicate Awaits(s: State, c: nat, d: nat)
    requires Shape(s)
  {
    d == c || (!ClientMoves(s, c) && s.listLock == HeldBy(Client(d)))
  }

  /** Client `d` waits for the lock of its slot, held by a worker that can step. */
  ghost predicate SlotIsServed(s: State, d: nat)
    requires Shape(s) && d < |s.clients|
  {
    var y := s.clients[d];
    var lock := s.slots[ClientSlot(y.i)].lock;
    (y.pc.AddSlotLock? || y.pc.ReleaseSlotLock?) && lock.HeldBy? && lock.owner.Worker? && WorkerMoves(s, lock.owner.w)
  }

  /** A client that cannot step waits for the list lock or for the lock of its slot.  The one
      it waits for can step, or waits in turn for its own slot's lock, whose holder, a worker,
      can step: the locks are never waited for in a cycle. */
  lemma {:induction false} WaitingClientIsServed(tr: seq<State>, ms: seq<Move>, n: nat, c: nat) returns (d: nat)
    requires IsRun(tr, ms) && n < |tr| && c < |tr[n].clients|
    ensures Shape(tr[n]) && d < |tr[n].clients| && Awaits(tr[n], c, d)
    ensures ClientMoves(tr[n], d) || SlotIsServed(tr[n], d)
  {
    RunKeepsInv(tr, ms, n);
    var s := tr[n];
    d := c;
    if !ClientMoves(s, c) {
      if !HoldsList(s.clients[c].pc) {
        assert OwnerExists(s.listLock, 0, |s.clients|);
        d := s.listLock.owner.c;
        assert ClientHoldsList(d, s.clients[d], s.listLock);
      }
      if !ClientMoves(s, d) {
        SlotWaiterIsServed(s, d);
      }
    }
  }
}
