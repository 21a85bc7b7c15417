/** What every state of the scheduler keeps, and why every step keeps it: a step is compared
    with what it may touch, then with what every other thread relies on. */
module SchedulerInvariant {
  import opened SchedulerModel

  // ---------------------------------------------------------------- what each thread relies on

  /** From a successful TryLock to the end of QuitTask. */
  predicate Holding(pc: WorkerPc) {
    pc.Recheck? || pc.Claim? || pc.LoadTask? || pc.Begin? || pc.RunTask? || pc.EndTask? || pc.Disown? || pc.Unlock?
  }

  predicate HoldsSlot(w: nat, x: WorkerState, k: nat) {
    Holding(x.pc) && SlotAt(w, x.i) == k
  }

  /** Worker `w` and slot `k`: it holds the lock exactly while it is in there, and under the
      lock the operating thread and the task are as its position says. */
  ghost predicate WorkerSlot(w: nat, x: WorkerState, k: nat, slot: Slot) {
    && (slot.lock == HeldBy(Worker(w)) <==> HoldsSlot(w, x, k))
    && (HoldsSlot(w, x, k) ==>
          && slot.operating == (if x.pc.Recheck? || x.pc.Claim? || x.pc.Unlock? then 0 else w)
          && (x.pc.Begin? ==> slot.task != NO_TASK)
          && (x.pc.RunTask? || x.pc.EndTask? ==> slot.task == x.begun != NO_TASK))
  }

  /** Run has set nUsedCnt to 0 and the task has not changed it. */
  predicate NotRunYet(x: WorkerState) {
    x.pc.Begin? || x.pc.RunTask? ==> x.usedCnt == 0
  }

  predicate HoldsCenter(pc: WorkerPc) {
    pc.SleepRead? || pc.SleepWrite? || pc.SleepUnlock? || pc.RiseRead? || pc.RiseWrite? || pc.RiseUnlock?
  }

  ghost predicate WorkerCenter(w: nat, x: WorkerState, center: Center) {
    && (center.lock == HeldBy(Worker(w)) <==> HoldsCenter(x.pc))
    && (x.pc.SleepWrite? || x.pc.RiseWrite? ==> x.tmp == center.sleeping)
  }

  predicate InSleep(pc: WorkerPc) {
    pc.SleepLock? || HoldsCenter(pc) || pc.Wait? || pc.RiseLock?
  }

  /** Between the increment and the decrement of m_nSleepingNr. */
  predicate Asleep(pc: WorkerPc) {
    pc.SleepUnlock? || pc.Wait? || pc.RiseLock? || pc.RiseRead? || pc.RiseWrite?
  }

  /** What a worker remembers of its pass. */
  ghost predicate WorkerOk(w: nat, x: WorkerState) {
    && (x.hasInfo <==> !x.pc.Done?)
    && (x.pc.Leave? || x.pc.Done? ==> !x.handle)
    && (!x.pc.LoopTest? && !x.pc.Leave? && !x.pc.Done? ==>
          if x.pc.PassEnd? || InSleep(x.pc) then x.i == SLOTS else x.i < SLOTS)
    && (InSleep(x.pc) ==> w != 0 && x.allDone)
  }

  predicate HoldsClientSlot(pc: ClientPc) {
    pc.AddCheck? || pc.AddStore? || pc.ReleaseCheck? || pc.ReleaseClear? || pc.SlotUnlock?
  }

  ghost predicate ClientHoldsSlot(c: nat, y: ClientState, k: nat, slot: Slot) {
    slot.lock == HeldBy(Client(c)) <==> HoldsClientSlot(y.pc) && y.i == k
  }

  predicate HoldsList(pc: ClientPc) {
    !pc.Idle? && !pc.AddLock? && !pc.ReleaseLock?
  }

  ghost predicate ClientHoldsList(c: nat, y: ClientState, listLock: Lock) {
    listLock == HeldBy(Client(c)) <==> HoldsList(y.pc)
  }

  ghost predicate NoneBefore(tasks: seq<nat>, upto: nat, t: nat)
    requires upto <= |tasks|
  {
    forall k :: 0 <= k < upto ==> tasks[k] != t
  }

  predicate Adding(pc: ClientPc) {
    pc.AddLock? || pc.AddScan? || pc.AddSlotLock? || pc.AddCheck? || pc.AddStore?
  }

  predicate Releasing(pc: ClientPc) {
    pc.ReleaseLock? || pc.ReleaseScan? || pc.ReleaseSlotLock? || pc.ReleaseCheck? || pc.ReleaseClear?
  }

  /** What a call looks for: an empty slot, or the task it is to release. */
  function Wanted(y: ClientState): nat {
    if Adding(y.pc) then NO_TASK else y.task
  }

  /** What a call knows of the tasks while it holds the list lock. */
  ghost predicate ClientKnows(y: ClientState, tasks: seq<nat>) {
    && |tasks| == SLOTS
    && (Adding(y.pc) || Releasing(y.pc) ==> y.result.NoResult?)
    && (y.pc.AddLock? || y.pc.ReleaseLock? ==> y.i == 0)
    && (HoldsList(y.pc) && (Adding(y.pc) || Releasing(y.pc)) ==>
          && y.i <= SLOTS && NoneBefore(tasks, y.i, Wanted(y))
          && (!y.pc.AddScan? && !y.pc.ReleaseScan? ==> y.i < SLOTS && tasks[y.i] == Wanted(y))
          && (y.pc.ReleaseClear? ==> y.task != NO_TASK))
    && (y.pc.SlotUnlock? ==> y.i < SLOTS && y.result.Success?)
    && (y.pc.ListUnlock? || y.pc.SlotUnlock? ==> !y.result.NoResult? && !y.result.AlreadyInited?)
  }

  // ---------------------------------------------------------------- what the shared objects keep

  ghost predicate OwnerExists(lock: Lock, workers: nat, clients: nat) {
    match lock
    case Free => true
    case HeldBy(Worker(w)) => w < workers
    case HeldBy(Client(c)) => c < clients
  }

  /** A slot that a worker other than 0 operates on is locked by it. */
  ghost predicate SlotOk(slot: Slot) {
    slot.operating != 0 ==> slot.lock == HeldBy(Worker(slot.operating))
  }

  function Tasks(slots: seq<Slot>): (tasks: seq<nat>)
    ensures |tasks| == |slots| && forall k :: 0 <= k < |slots| ==> tasks[k] == slots[k].task
  {
    seq(|slots|, k requires 0 <= k < |slots| => slots[k].task)
  }

  function CountAsleep(workers: seq<WorkerState>): (n: nat)
    ensures n <= |workers|
  {
    if workers == [] then 0
    else CountAsleep(workers[..|workers| - 1]) + (if Asleep(workers[|workers| - 1].pc) then 1 else 0)
  }

  // ---------------------------------------------------------------- the invariant

  ghost predicate WorkersOk(s: State) {
    forall w: nat :: w < |s.workers| ==> WorkerOk(w, s.workers[w])
  }

  ghost predicate WorkerSlotsOk(s: State)
    requires Shape(s)
  {
    forall w: nat, k: nat :: w < |s.workers| && k < SLOTS ==> WorkerSlot(w, s.workers[w], k, s.slots[k])
  }

  ghost predicate ClientSlotsOk(s: State)
    requires Shape(s)
  {
    forall c: nat, k: nat :: c < |s.clients| && k < SLOTS ==> ClientHoldsSlot(c, s.clients[c], k, s.slots[k])
  }

  ghost predicate SlotsOk(s: State)
    requires Shape(s)
  {
    forall k: nat :: k < SLOTS ==> SlotOk(s.slots[k]) && OwnerExists(s.slots[k].lock, |s.workers|, |s.clients|)
  }

  ghost predicate CenterOk(s: State) {
    && (forall w: nat :: w < |s.workers| ==> WorkerCenter(w, s.workers[w], s.center))
    && OwnerExists(s.center.lock, |s.workers|, 0)
    && s.center.sleeping == CountAsleep(s.workers)
  }

  ghost predicate ListOk(s: State) {
    && (forall c: nat :: c < |s.clients| ==> ClientHoldsList(c, s.clients[c], s.listLock))
    && OwnerExists(s.listLock, 0, |s.clients|)
  }

  ghost predicate ClientsKnow(s: State) {
    forall c: nat :: c < |s.clients| ==> ClientKnows(s.clients[c], Tasks(s.slots))
  }

  /** Workers 0 to `told` have been told to stop, workers 0 to `gone` have left. */
  ghost predicate Stopping(workers: seq<WorkerState>, told: nat, gone: nat) {
    && gone <= told <= |workers|
    && (forall w :: 0 <= w < told ==> !workers[w].handle)
    && (forall w :: 0 <= w < gone ==> workers[w].pc.Done?)
  }

  ghost predicate StopperOk(s: State) {
    var n := |s.workers|;
    match s.stopper
    case NotStopping => true
    case Ask(j) => j <= n && Stopping(s.workers, j, 0)
    case Set(j) => j <= n && Stopping(s.workers, n, j)
    case AwaitDone(j) => j < n && Stopping(s.workers, n, j)
    case Stopped => Stopping(s.workers, n, n)
  }

  ghost predicate Inv(s: State) {
    && Shape(s) && WorkersOk(s) && WorkerSlotsOk(s) && ClientSlotsOk(s) && SlotsOk(s)
    && CenterOk(s) && ListOk(s) && ClientsKnow(s) && StopperOk(s)
  }

  // ---------------------------------------------------------------- one step, seen by itself

  /** `o` finds the lock and, under it, the slot as it left them. */
  ghost predicate Respects(o: Owner, before: Slot, after: Slot) {
    && (after.lock == HeldBy(o) <==> before.lock == HeldBy(o))
    && (before.lock == HeldBy(o) ==> after == before)
  }

  lemma {:induction false} WorkerStepsInSlot(w: nat, v: View, answer: Answer, k: nat)
    requires Holding(v.worker.pc) && CanStep(v)
    requires k == SlotAt(w, v.worker.i) && SlotOk(v.slot) && WorkerSlot(w, v.worker, k, v.slot)
    ensures var v' := StepView(w, v, answer);
      WorkerSlot(w, v'.worker, k, v'.slot) && SlotOk(v'.slot)
  {
    assert StepView(w, v, answer).worker.i == v.worker.i;
  }

  lemma {:induction false} WorkerStepsOutside(w: nat, v: View, answer: Answer, k: nat)
    requires !Holding(v.worker.pc) && CanStep(v)
    requires k == SlotAt(w, v.worker.i) && SlotOk(v.slot) && WorkerSlot(w, v.worker, k, v.slot)
    ensures var v' := StepView(w, v, answer);
      WorkerSlot(w, v'.worker, k, v'.slot) && SlotOk(v'.slot)
  {
    var v' := StepView(w, v, answer);
    if !v.worker.pc.TryLock? {
      assert v'.slot == v.slot && !Holding(v'.worker.pc);
    }
  }

  lemma {:induction false} WorkerStepsOnSlot(w: nat, v: View, answer: Answer, k: nat)
    requires CanStep(v) && k == SlotAt(w, v.worker.i) && SlotOk(v.slot) && WorkerSlot(w, v.worker, k, v.slot)
    ensures var v' := StepView(w, v, answer);
      WorkerSlot(w, v'.worker, k, v'.slot) && SlotOk(v'.slot)
  {
    if Holding(v.worker.pc) {
      WorkerStepsInSlot(w, v, answer, k);
    } else {
      WorkerStepsOutside(w, v, answer, k);
    }
  }

  lemma {:induction false} WorkerSparesOthers(w: nat, v: View, answer: Answer, k: nat, o: Owner)
    requires CanStep(v) && k == SlotAt(w, v.worker.i) && WorkerSlot(w, v.worker, k, v.slot)
    ensures var v' := StepView(w, v, answer);
      && v'.slot.task == v.slot.task
      && (o != Worker(w) ==> Respects(o, v.slot, v'.slot))
      && (v'.slot.lock == v.slot.lock || v'.slot.lock == Free || v'.slot.lock == HeldBy(Worker(w)))
      && (Holding(v'.worker.pc) ==> v'.worker.i == v.worker.i)
  {
  }

  lemma {:induction false} AwakeSparesCenter(w: nat, v: View, answer: Answer)
    requires CanStep(v) && !InSleep(v.worker.pc)
    ensures var v' := StepView(w, v, answer);
      v'.center == v.center && !HoldsCenter(v'.worker.pc) && !Asleep(v'.worker.pc)
  {
  }

  lemma {:induction false} SleeperStepsOnCenter(w: nat, v: View, answer: Answer)
    requires CanStep(v) && WorkerCenter(w, v.worker, v.center) && InSleep(v.worker.pc)
    ensures var v' := StepView(w, v, answer);
      && WorkerCenter(w, v'.worker, v'.center)
      && v'.center.sleeping - v.center.sleeping
         == (if Asleep(v'.worker.pc) then 1 else 0) - (if Asleep(v.worker.pc) then 1 else 0)
  {
  }

  lemma {:induction false} WorkerStepsOnCenter(w: nat, v: View, answer: Answer)
    requires CanStep(v) && WorkerCenter(w, v.worker, v.center)
    ensures var v' := StepView(w, v, answer);
      && WorkerCenter(w, v'.worker, v'.center)
      && v'.center.sleeping - v.center.sleeping
         == (if Asleep(v'.worker.pc) then 1 else 0) - (if Asleep(v.worker.pc) then 1 else 0)
  {
    if InSleep(v.worker.pc) {
      SleeperStepsOnCenter(w, v, answer);
    } else {
      AwakeSparesCenter(w, v, answer);
    }
  }

  lemma {:induction false} WorkerSparesCenter(w: nat, v: View, answer: Answer, u: nat, x: WorkerState)
    requires CanStep(v) && WorkerCenter(w, v.worker, v.center) && WorkerCenter(u, x, v.center)
    ensures var v' := StepView(w, v, answer);
      && (u != w ==> WorkerCenter(u, x, v'.center))
      && (v'.center.lock == v.center.lock || v'.center.lock == Free || v'.center.lock == HeldBy(Worker(w)))
  {
    assert u != w && HoldsCenter(x.pc) ==> !HoldsCenter(v.worker.pc) && StepView(w, v, answer).center == v.center;
  }

  predicate Scanning(pc: WorkerPc) {
    !pc.LoopTest? && !pc.Leave? && !pc.Done? && !pc.PassEnd? && !InSleep(pc)
  }

  lemma {:induction false} WorkerRemembers(w: nat, v: View, answer: Answer)
    requires CanStep(v) && WorkerOk(w, v.worker)
    ensures WorkerOk(w, StepView(w, v, answer).worker)
  {
  }

  // ---------------------------------------------------------------- a step of a worker

  lemma {:induction false} CountUpdated(workers: seq<WorkerState>, w: nat, x: WorkerState)
    requires w < |workers|
    ensures CountAsleep(workers[w := x]) - CountAsleep(workers)
            == (if Asleep(x.pc) then 1 else 0) - (if Asleep(workers[w].pc) then 1 else 0)
  {
    var n := |workers| - 1;
    if w == n {
      assert workers[w := x][..n] == workers[..n];
    } else {
      CountUpdated(workers[..n], w, x);
      assert workers[w := x][..n] == workers[..n][w := x];
    }
  }

  lemma {:induction false} WorkerKeepsSlots(s: State, w: nat, answer: Answer)
    requires Inv(s) && w < |s.workers| && CanStep(WorkerView(s, w))
    ensures WorkerSlotsOk(StepWorker(s, w, answer)) && ClientSlotsOk(StepWorker(s, w, answer))
  {
    var v, s' := WorkerView(s, w), StepWorker(s, w, answer);
    var k0 := SlotAt(w, s.workers[w].i);
    assert WorkerSlot(w, s.workers[w], k0, s.slots[k0]) && SlotOk(s.slots[k0]);
    forall u: nat, k: nat | u < |s.workers| && k < SLOTS
      ensures WorkerSlot(u, s'.workers[u], k, s'.slots[k])
    {
      assert WorkerSlot(u, s.workers[u], k, s.slots[k]);
      WorkerStepsOnSlot(w, v, answer, k0);
      WorkerSparesOthers(w, v, answer, k0, Worker(u));
    }
    forall c: nat, k: nat | c < |s.clients| && k < SLOTS
      ensures ClientHoldsSlot(c, s'.clients[c], k, s'.slots[k])
    {
      assert ClientHoldsSlot(c, s.clients[c], k, s.slots[k]);
      WorkerSparesOthers(w, v, answer, k0, Client(c));
    }
  }

  lemma {:induction false} WorkerKeepsTasks(s: State, w: nat, answer: Answer)
    requires Inv(s) && w < |s.workers| && CanStep(WorkerView(s, w))
    ensures Tasks(StepWorker(s, w, answer).slots) == Tasks(s.slots)
    ensures SlotsOk(StepWorker(s, w, answer)) && ClientsKnow(StepWorker(s, w, answer))
  {
    var k0 := SlotAt(w, s.workers[w].i);
    assert WorkerSlot(w, s.workers[w], k0, s.slots[k0]) && SlotOk(s.slots[k0]);
    WorkerStepsOnSlot(w, WorkerView(s, w), answer, k0);
    WorkerSparesOthers(w, WorkerView(s, w), answer, k0, Worker(w));
    assert Tasks(StepWorker(s, w, answer).slots) == Tasks(s.slots);
  }

  lemma {:induction false} WorkerKeepsCenter(s: State, w: nat, answer: Answer)
    requires Inv(s) && w < |s.workers| && CanStep(WorkerView(s, w))
    ensures CenterOk(StepWorker(s, w, answer)) && WorkersOk(StepWorker(s, w, answer))
  {
    var v, s' := WorkerView(s, w), StepWorker(s, w, answer);
    WorkerRemembers(w, v, answer);
    CountUpdated(s.workers, w, s'.workers[w]);
    WorkerStepsOnCenter(w, v, answer);
    WorkerSparesCenter(w, v, answer, w, v.worker);
    forall u: nat | u < |s.workers|
      ensures WorkerCenter(u, s'.workers[u], s'.center)
    {
      assert WorkerCenter(u, s.workers[u], s.center);
      WorkerSparesCenter(w, v, answer, u, s.workers[u]);
    }
  }

  lemma {:induction false} WorkerKeepsStopper(s: State, w: nat, answer: Answer)
    requires Inv(s) && w < |s.workers| && CanStep(WorkerView(s, w))
    ensures ListOk(StepWorker(s, w, answer)) && StopperOk(StepWorker(s, w, answer))
  {
    var s' := StepWorker(s, w, answer);
    assert s'.workers[w].handle == s.workers[w].handle && !s.workers[w].pc.Done?;
    assert forall u: nat :: u < |s.workers| && u != w ==> s'.workers[u] == s.workers[u];
  }

  lemma {:induction false} WorkerKeepsInv(s: State, w: nat, answer: Answer)
    requires Inv(s) && w < |s.workers| && CanStep(WorkerView(s, w))
    ensures Inv(StepWorker(s, w, answer))
  {
    WorkerKeepsSlots(s, w, answer);
    WorkerKeepsTasks(s, w, answer);
    WorkerKeepsCenter(s, w, answer);
    WorkerKeepsStopper(s, w, answer);
  }

  // ---------------------------------------------------------------- a step of a client

  lemma {:induction false} ClientStepsOnSlot(c: nat, v: ClientView, call: Call, k: nat, o: Owner)
    requires CanStepClient(v) && k == ClientSlot(v.client.i) && SlotOk(v.slot)
    requires ClientHoldsSlot(c, v.client, k, v.slot)
    requires HoldsClientSlot(v.client.pc) || v.client.pc.AddSlotLock? || v.client.pc.ReleaseSlotLock?
             ==> v.client.i < SLOTS
    ensures var v' := StepClientView(c, v, call);
      && ClientHoldsSlot(c, v'.client, k, v'.slot) && SlotOk(v'.slot)
      && (o != Client(c) ==> Respects(o, v.slot, v'.slot))
      && (v'.slot.lock == v.slot.lock || v'.slot.lock == Free || v'.slot.lock == HeldBy(Client(c)))
      && (HoldsClientSlot(v'.client.pc) ==> v'.client.i == v.client.i)
  {
  }

  lemma {:induction false} ClientStepsOnList(c: nat, v: ClientView, call: Call, d: nat)
    requires CanStepClient(v) && ClientHoldsList(c, v.client, v.listLock)
    ensures var v' := StepClientView(c, v, call);
      && ClientHoldsList(c, v'.client, v'.listLock)
      && (d != c ==> (v'.listLock == HeldBy(Client(d)) <==> v.listLock == HeldBy(Client(d))))
      && (v'.listLock == v.listLock || v'.listLock == Free || v'.listLock == HeldBy(Client(c)))
      && (v'.slot.task != v.slot.task ==> v.listLock == HeldBy(Client(c)))
  {
  }

  lemma {:induction false} ClientLearns(c: nat, v: ClientView, call: Call, tasks: seq<nat>)
    requires CanStepClient(v) && ClientKnows(v.client, tasks)
    requires v.slot.task == tasks[ClientSlot(v.client.i)]
    ensures var v' := StepClientView(c, v, call);
      ClientKnows(v'.client, tasks[ClientSlot(v.client.i) := v'.slot.task])
  {
    var v' := StepClientView(c, v, call);
    assert v'.slot.task == v.slot.task ==> tasks[ClientSlot(v.client.i) := v'.slot.task] == tasks;
  }

  lemma {:induction false} ClientKeepsSlots(s: State, c: nat, call: Call)
    requires Inv(s) && c < |s.clients| && CanStepClient(ClientViewOf(s, c))
    ensures WorkerSlotsOk(StepClient(s, c, call)) && ClientSlotsOk(StepClient(s, c, call))
    ensures SlotsOk(StepClient(s, c, call))
  {
    var v, s' := ClientViewOf(s, c), StepClient(s, c, call);
    var k0 := ClientSlot(s.clients[c].i);
    assert ClientKnows(s.clients[c], Tasks(s.slots));
    assert ClientHoldsSlot(c, s.clients[c], k0, s.slots[k0]) && SlotOk(s.slots[k0]);
    ClientStepsOnSlot(c, v, call, k0, Client(c));
    forall u: nat, k: nat | u < |s.workers| && k < SLOTS
      ensures WorkerSlot(u, s'.workers[u], k, s'.slots[k])
    {
      assert WorkerSlot(u, s.workers[u], k, s.slots[k]);
      ClientStepsOnSlot(c, v, call, k0, Worker(u));
    }
    forall d: nat, k: nat | d < |s.clients| && k < SLOTS
      ensures ClientHoldsSlot(d, s'.clients[d], k, s'.slots[k])
    {
      assert ClientHoldsSlot(d, s.clients[d], k, s.slots[k]);
      ClientStepsOnSlot(c, v, call, k0, Client(d));
    }
  }

  lemma {:induction false} ClientKeepsKnowledge(s: State, c: nat, call: Call)
    requires Inv(s) && c < |s.clients| && CanStepClient(ClientViewOf(s, c))
    ensures ListOk(StepClient(s, c, call)) && ClientsKnow(StepClient(s, c, call))
  {
    var v, s' := ClientViewOf(s, c), StepClient(s, c, call);
    var k0, before, after := ClientSlot(s.clients[c].i), Tasks(s.slots), Tasks(s'.slots);
    assert ClientKnows(s.clients[c], before);
    ClientLearns(c, v, call, before);
    assert after == before[k0 := s'.slots[k0].task];
    forall d: nat | d < |s.clients|
      ensures ClientHoldsList(d, s'.clients[d], s'.listLock) && ClientKnows(s'.clients[d], after)
    {
      assert ClientHoldsList(d, s.clients[d], s.listLock) && ClientHoldsList(c, s.clients[c], s.listLock);
      assert ClientKnows(s.clients[d], before);
      ClientStepsOnList(c, v, call, d);
      assert s'.slots[k0].task == s.slots[k0].task ==> after == before;
    }
    ClientStepsOnList(c, v, call, c);
  }

  lemma {:induction false} ClientKeepsInv(s: State, c: nat, call: Call)
    requires Inv(s) && c < |s.clients| && CanStepClient(ClientViewOf(s, c))
    ensures Inv(StepClient(s, c, call))
  {
    ClientKeepsSlots(s, c, call);
    ClientKeepsKnowledge(s, c, call);
  }

  // ---------------------------------------------------------------- a step of the stopper

  lemma {:induction false} StopperKeepsInv(s: State)
    requires Inv(s) && CanStepStopper(s)
    ensures Inv(StepStopper(s))
  {
    var s' := StepStopper(s);
    var told := match s.stopper { case Ask(j) => j case Set(j) => j case _ => |s.workers| };
    if told < |s.workers| {
      var x := s.workers[told].(handle := false);
      CountUpdated(s.workers, told, x);
      assert s'.workers == s.workers[told := x];
      forall u: nat | u < |s.workers|
        ensures WorkerCenter(u, s'.workers[u], s'.center) && WorkerOk(u, s'.workers[u])
      {
        assert WorkerCenter(u, s.workers[u], s.center) && WorkerOk(u, s.workers[u]);
      }
      forall u: nat, k: nat | u < |s.workers| && k < SLOTS
        ensures WorkerSlot(u, s'.workers[u], k, s'.slots[k])
      {
        assert WorkerSlot(u, s.workers[u], k, s.slots[k]);
      }
    } else {
      assert s'.workers == s.workers;
    }
  }

  // ---------------------------------------------------------------- every state of every run

  lemma {:induction false} NobodyAsleep(workers: seq<WorkerState>)
    requires forall w :: 0 <= w < |workers| ==> workers[w].pc.LoopTest?
    ensures CountAsleep(workers) == 0
  {
    if workers != [] {
      NobodyAsleep(workers[..|workers| - 1]);
    }
  }

  lemma {:induction false} InitHasInv(s: State)
    requires Init(s)
    ensures Inv(s)
  {
    assert forall w :: 0 <= w < |s.workers| ==> Started(s.workers[w]);
    NobodyAsleep(s.workers);
  }

  lemma {:induction false} MoveKeepsInv(s: State, m: Move)
    requires Inv(s) && Allowed(s, m)
    ensures Inv(Take(s, m))
  {
    match m
    case ByWorker(w, answer) => WorkerKeepsInv(s, w, answer);
    case ByClient(c, call) => ClientKeepsInv(s, c, call);
    case ByStopper => StopperKeepsInv(s);
  }

  lemma {:induction false} RunKeepsInv(tr: seq<State>, ms: seq<Move>, n: nat)
    requires IsRun(tr, ms) && n < |tr|
    ensures Inv(tr[n])
  {
    if n == 0 {
      InitHasInv(tr[0]);
    } else {
      RunKeepsInv(tr, ms, n - 1);
      assert IsStep(tr, ms, n - 1);
      MoveKeepsInv(tr[n - 1], ms[n - 1]);
    }
  }
}
