/** The task scheduler as a transition system: any number of workers and of threads that add
    and release tasks, interleaved at every read and write of shared memory.  A task is
    named by the address of its object, 0 being NULL. */
module SchedulerModel {

  const SLOTS: nat := 32
  const NO_TASK: nat := 0

  datatype Owner = Worker(w: nat) | Client(c: nat)

  datatype Lock = Free | HeldBy(owner: Owner)

  /** CTaskInfo: m_operatingThread, m_lock, m_pTask. */
  datatype Slot = Slot(operating: nat, lock: Lock, task: nat)

  /** CWorkerControler: m_nSleepingNr, m_tLock. */
  datatype Center = Center(sleeping: int, lock: Lock)

  // ---------------------------------------------------------------- workers

  /** Where a worker is: each step is one read or write of shared memory, one call on a lock,
      or one call on a task. */
  datatype WorkerPc =
    | LoopTest        // while (m_workerThreadHandle)
    | CheckUsed       // IsUsed
    | CheckFree       // ApplyTask: the first look at m_operatingThread
    | TryLock
    | Recheck         // the second look, under the lock
    | Claim           // m_operatingThread = threadId
    | LoadTask        // Run: if (m_pTask)
    | Begin
    | RunTask
    | EndTask
    | Disown          // QuitTask: m_operatingThread = 0
    | Unlock
    | WakeUp
    | NextSlot
    | PassEnd         // if (bIsAllTaskDone) if (m_threadIdx)
    | SleepLock | SleepRead | SleepWrite | SleepUnlock
    | Wait            // RequireFetchProduct, which also returns on a timeout
    | RiseLock | RiseRead | RiseWrite | RiseUnlock
    | Leave           // m_pTaskInfo = NULL
    | Done

  /** `handle` and `hasInfo` are m_workerThreadHandle != 0 and m_pTaskInfo != NULL, the others
      locals of Loop.  `begun` records the task begun last. */
  datatype WorkerState = WorkerState(
    pc: WorkerPc, i: nat, allDone: bool, usedCnt: int, tmp: int,
    handle: bool, hasInfo: bool,
    begun: nat)

  /** What the calls on a task answer: whether Begin succeeds, and what Run returns. */
  datatype Answer = Answer(begins: bool, count: int)

  /** The slot a worker looks at in turn `i` of a pass. */
  function SlotAt(w: nat, i: nat): (k: nat)
    ensures k < SLOTS
  {
    (i + w) % SLOTS
  }

  /** What one step of a worker can touch. */
  datatype View = View(worker: WorkerState, slot: Slot, center: Center)

  predicate CanStep(v: View) {
    && v.worker.pc != Done
    && (v.worker.pc == SleepLock || v.worker.pc == RiseLock ==> v.center.lock == Free)
  }

  /** One step of worker `w`. */
  function StepView(w: nat, v: View, answer: Answer): View
    requires CanStep(v)
  {
    var View(x, slot, center) := v;
    match x.pc
    case LoopTest =>
      if x.handle then v.(worker := x.(pc := CheckUsed, i := 0, allDone := true))
      else v.(worker := x.(pc := Leave))
    case CheckUsed =>
      v.(worker := x.(pc := if slot.task != NO_TASK then CheckFree else NextSlot))
    case CheckFree =>
      v.(worker := x.(pc := if slot.operating != 0 then NextSlot else TryLock))
    case TryLock =>
      if slot.lock == Free then View(x.(pc := Recheck), slot.(lock := HeldBy(Worker(w))), center)
      else v.(worker := x.(pc := NextSlot))
    case Recheck =>
      v.(worker := x.(pc := if slot.operating != 0 then NextSlot else Claim))
    case Claim =>
      View(x.(pc := LoadTask), slot.(operating := w), center)
    case LoadTask =>
      v.(worker := x.(pc := if slot.task != NO_TASK then Begin else Disown, usedCnt := 0))
    case Begin =>
      v.(worker := x.(pc := if answer.begins then RunTask else Disown, begun := slot.task))
    case RunTask =>
      v.(worker := x.(pc := EndTask, usedCnt := answer.count))
    case EndTask =>
      v.(worker := x.(pc := Disown))
    case Disown =>
      View(x.(pc := Unlock), slot.(operating := 0), center)
    case Unlock =>
      View(x.(pc := if x.usedCnt != 0 then WakeUp else NextSlot,
              allDone := x.allDone && x.usedCnt == 0),
           slot.(lock := Free), center)
    case WakeUp =>
      v.(worker := x.(pc := NextSlot))
    case NextSlot =>
      v.(worker := x.(pc := if x.i + 1 < SLOTS then CheckUsed else PassEnd, i := x.i + 1))
    case PassEnd =>
      v.(worker := x.(pc := if x.allDone && w != 0 then SleepLock else LoopTest))
    case SleepLock =>
      View(x.(pc := SleepRead), slot, center.(lock := HeldBy(Worker(w))))
    case SleepRead =>
      v.(worker := x.(pc := SleepWrite, tmp := center.sleeping))
    case SleepWrite =>
      View(x.(pc := SleepUnlock), slot, center.(sleeping := x.tmp + 1))
    case SleepUnlock =>
      View(x.(pc := Wait), slot, center.(lock := Free))
    case Wait =>
      v.(worker := x.(pc := RiseLock))
    case RiseLock =>
      View(x.(pc := RiseRead), slot, center.(lock := HeldBy(Worker(w))))
    case RiseRead =>
      v.(worker := x.(pc := RiseWrite, tmp := center.sleeping))
    case RiseWrite =>
      View(x.(pc := RiseUnlock), slot, center.(sleeping := x.tmp - 1))
    case RiseUnlock =>
      View(x.(pc := LoopTest), slot, center.(lock := Free))
    case Leave =>
      v.(worker := x.(pc := Done, hasInfo := false))
  }

  // ---------------------------------------------------------------- adding and releasing tasks

  /** What AddTask and ReleaseTask return. */
  datatype Result = NoResult | Success | AlreadyInited | OutOfMem | NotFound

  datatype ClientPc =
    | Idle
    | AddLock         // AddTask: m_listLock.Lock()
    | AddScan         // IsUsed of slot i
    | AddSlotLock     // LoadTask: m_lock.Lock()
    | AddCheck        // if (m_pTask)
    | AddStore        // m_pTask = pTask
    | ReleaseLock     // ReleaseTask: m_listLock.Lock()
    | ReleaseScan     // GetTask of slot i
    | ReleaseSlotLock // UnloadTask: m_lock.Lock()
    | ReleaseCheck    // if (m_pTask)
    | ReleaseClear    // m_pTask = NULL
    | SlotUnlock
    | ListUnlock

  datatype ClientState = ClientState(pc: ClientPc, task: nat, i: nat, result: Result)

  datatype Call = Add(task: nat) | Release(task: nat)

  /** What one step of a client can touch: itself, the slot it looks at, the list lock. */
  datatype ClientView = ClientView(client: ClientState, slot: Slot, listLock: Lock)

  predicate CanStepClient(v: ClientView) {
    && (v.client.pc == AddLock || v.client.pc == ReleaseLock ==> v.listLock == Free)
    && (v.client.pc == AddSlotLock || v.client.pc == ReleaseSlotLock ==> v.slot.lock == Free)
  }

  function StepClientView(c: nat, v: ClientView, call: Call): ClientView
    requires CanStepClient(v)
  {
    var ClientView(y, slot, listLock) := v;
    match y.pc
    case Idle =>
      v.(client := ClientState(if call.Add? then AddLock else ReleaseLock, call.task, 0, NoResult))
    case AddLock =>
      ClientView(y.(pc := AddScan), slot, HeldBy(Client(c)))
    case AddScan =>
      if y.i >= SLOTS then v.(client := y.(pc := ListUnlock, result := OutOfMem))
      else if slot.task == NO_TASK then v.(client := y.(pc := AddSlotLock))
      else v.(client := y.(i := y.i + 1))
    case AddSlotLock =>
      ClientView(y.(pc := AddCheck), slot.(lock := HeldBy(Client(c))), listLock)
    case AddCheck =>
      if slot.task != NO_TASK then v.(client := y.(pc := SlotUnlock, result := AlreadyInited))
      else v.(client := y.(pc := AddStore))
    case AddStore =>
      ClientView(y.(pc := SlotUnlock, result := Success), slot.(task := y.task), listLock)
    case ReleaseLock =>
      ClientView(y.(pc := ReleaseScan), slot, HeldBy(Client(c)))
    case ReleaseScan =>
      if y.i >= SLOTS then v.(client := y.(pc := ListUnlock, result := NotFound))
      else if slot.task == y.task then v.(client := y.(pc := ReleaseSlotLock))
      else v.(client := y.(i := y.i + 1))
    case ReleaseSlotLock =>
      ClientView(y.(pc := ReleaseCheck), slot.(lock := HeldBy(Client(c))), listLock)
    case ReleaseCheck =>
      if slot.task != NO_TASK then v.(client := y.(pc := ReleaseClear))
      else v.(client := y.(pc := SlotUnlock, result := Success))
    case ReleaseClear =>
      ClientView(y.(pc := SlotUnlock, result := Success), slot.(task := NO_TASK), listLock)
    case SlotUnlock =>
      ClientView(y.(pc := ListUnlock), slot.(lock := Free), listLock)
    case ListUnlock =>
      ClientView(y.(pc := Idle), slot, Free)
  }

  // ---------------------------------------------------------------- stopping

  /** StopWorking: TryStop on every worker, then for every worker Stop, which sets the handle
      once more and waits for m_pTaskInfo to become NULL. */
  datatype StopPc = NotStopping | Ask(j: nat) | Set(j: nat) | AwaitDone(j: nat) | Stopped

  // ---------------------------------------------------------------- the whole system

  datatype State = State(
    slots: seq<Slot>, workers: seq<WorkerState>, clients: seq<ClientState>,
    center: Center, listLock: Lock, stopper: StopPc)

  ghost predicate Shape(s: State) {
    |s.slots| == SLOTS
  }

  function WorkerView(s: State, w: nat): View
    requires |s.slots| == SLOTS && w < |s.workers|
  {
    View(s.workers[w], s.slots[SlotAt(w, s.workers[w].i)], s.center)
  }

  function StepWorker(s: State, w: nat, answer: Answer): State
    requires |s.slots| == SLOTS && w < |s.workers| && CanStep(WorkerView(s, w))
  {
    var v := StepView(w, WorkerView(s, w), answer);
    s.(workers := s.workers[w := v.worker],
       slots := s.slots[SlotAt(w, s.workers[w].i) := v.slot],
       center := v.center)
  }

  /** A client past the last slot touches no slot; slot 0 stands in. */
  function ClientSlot(i: nat): (k: nat)
    ensures k < SLOTS
  {
    if i < SLOTS then i else 0
  }

  function ClientViewOf(s: State, c: nat): ClientView
    requires |s.slots| == SLOTS && c < |s.clients|
  {
    ClientView(s.clients[c], s.slots[ClientSlot(s.clients[c].i)], s.listLock)
  }

  function StepClient(s: State, c: nat, call: Call): State
    requires |s.slots| == SLOTS && c < |s.clients| && CanStepClient(ClientViewOf(s, c))
  {
    var v := StepClientView(c, ClientViewOf(s, c), call);
    s.(clients := s.clients[c := v.client],
       slots := s.slots[ClientSlot(s.clients[c].i) := v.slot],
       listLock := v.listLock)
  }

  predicate CanStepStopper(s: State) {
    match s.stopper
    case AwaitDone(j) => j < |s.workers| ==> !s.workers[j].hasInfo
    case Stopped => false
    case _ => true
  }

  function StepStopper(s: State): State
    requires CanStepStopper(s)
  {
    match s.stopper
    case NotStopping => s.(stopper := Ask(0))
    case Ask(j) =>
      if j < |s.workers| then s.(workers := s.workers[j := s.workers[j].(handle := false)], stopper := Ask(j + 1))
      else s.(stopper := Set(0))
    case Set(j) =>
      if j < |s.workers| then s.(workers := s.workers[j := s.workers[j].(handle := false)], stopper := AwaitDone(j))
      else s.(stopper := Stopped)
    case AwaitDone(j) => s.(stopper := Set(j + 1))
    case Stopped => s
  }

  /** All workers started, no task registered yet, nobody in a call. */
  ghost predicate Init(s: State) {
    && Shape(s)
    && (forall k :: 0 <= k < SLOTS ==> s.slots[k] == Slot(0, Free, NO_TASK))
    && (forall w :: 0 <= w < |s.workers| ==> Started(s.workers[w]))
    && (forall c :: 0 <= c < |s.clients| ==> s.clients[c].pc == Idle && s.clients[c].result == NoResult)
    && s.center == Center(0, Free) && s.listLock == Free && s.stopper == NotStopping
  }

  ghost predicate Started(x: WorkerState) {
    x.pc == LoopTest && x.handle && x.hasInfo
  }

  /** Who takes the step, and what comes from outside. */
  datatype Move = ByWorker(w: nat, answer: Answer) | ByClient(c: nat, call: Call) | ByStopper

  ghost predicate Allowed(s: State, m: Move) {
    Shape(s) &&
    match m
    case ByWorker(w, _) => w < |s.workers| && CanStep(WorkerView(s, w))
    case ByClient(c, _) => c < |s.clients| && CanStepClient(ClientViewOf(s, c))
    case ByStopper => CanStepStopper(s)
  }

  ghost function Take(s: State, m: Move): State
    requires Allowed(s, m)
  {
    match m
    case ByWorker(w, answer) => StepWorker(s, w, answer)
    case ByClient(c, call) => StepClient(s, c, call)
    case ByStopper => StepStopper(s)
  }

  /** A run: the states `tr` it goes through by the moves `ms`, from a start of the system. */
  ghost predicate IsRun(tr: seq<State>, ms: seq<Move>) {
    && |tr| == |ms| + 1 && Init(tr[0])
    && forall n :: 0 <= n < |ms| ==> IsStep(tr, ms, n)
  }

  ghost predicate IsStep(tr: seq<State>, ms: seq<Move>, n: nat)
    requires n < |ms| && |tr| == |ms| + 1
  {
    Allowed(tr[n], ms[n]) && tr[n + 1] == Take(tr[n], ms[n])
  }
}
