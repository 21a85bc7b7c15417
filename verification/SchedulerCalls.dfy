/** In which order a worker makes its calls on the tasks and wakes others: what a task can rely
    on, whatever all the threads do. */
module SchedulerCalls {
  import opened SchedulerModel
  import opened SchedulerInvariant

  /** A call that a worker makes, on which task, and what it answers. */
  datatype TaskCall = BeginCall(task: nat, ok: bool) | RunCall(task: nat, count: int) | EndCall(task: nat) | WakeUpCall

  /** The call that move `m` makes for worker `w`, if any: on the task that is in the slot then. */
  ghost function CallMade(s: State, m: Move, w: nat): seq<TaskCall>
    requires Allowed(s, m)
  {
    if !m.ByWorker? || m.w != w then [] else CallAt(WorkerView(s, w), m.answer)
  }

  function CallAt(v: View, answer: Answer): seq<TaskCall> {
    match v.worker.pc
    case Begin => [BeginCall(v.slot.task, answer.begins)]
    case RunTask => [RunCall(v.slot.task, answer.count)]
    case EndTask => [EndCall(v.slot.task)]
    case WakeUp => [WakeUpCall]
    case _ => []
  }

  /** The calls worker `w` has made before state `n`. */
  ghost function CallsMade(tr: seq<State>, ms: seq<Move>, n: nat, w: nat): seq<TaskCall>
    requires IsRun(tr, ms) && n < |tr|
    decreases n
  {
    if n == 0 then []
    else
      assert IsStep(tr, ms, n - 1);
      CallsMade(tr, ms, n - 1, w) + CallMade(tr[n - 1], ms[n - 1], w)
  }

  /** How far a worker is with a task. */
  datatype Phase = Between | Begun(task: nat) | HasRun(task: nat, count: int) | Ended | OutOfOrder

  /** The order a task relies on: Run only after a successful Begin, on the same task, then End
      on the same task, and then, if Run returned anything but 0, a call of WakeUp. */
  function NextPhase(p: Phase, call: TaskCall): Phase {
    match (p, call)
    case (Between, BeginCall(t, ok)) => if t == NO_TASK then OutOfOrder else if ok then Begun(t) else Between
    case (Begun(t), RunCall(u, count)) => if t == u then HasRun(t, count) else OutOfOrder
    case (HasRun(t, count), EndCall(u)) => if t != u then OutOfOrder else if count != 0 then Ended else Between
    case (Ended, WakeUpCall) => Between
    case _ => OutOfOrder
  }

  function PhaseAfter(calls: seq<TaskCall>): Phase {
    if calls == [] then Between else NextPhase(PhaseAfter(calls[..|calls| - 1]), calls[|calls| - 1])
  }

  /** The phase that a worker's place in the program stands for. */
  function PhaseOf(x: WorkerState): Phase {
    match x.pc
    case RunTask => Begun(x.begun)
    case EndTask => HasRun(x.begun, x.usedCnt)
    case Disown => if x.usedCnt != 0 then Ended else Between
    case Unlock => if x.usedCnt != 0 then Ended else Between
    case WakeUp => Ended
    case _ => Between
  }

  lemma {:induction false} PhaseAfterOne(calls: seq<TaskCall>, more: seq<TaskCall>)
    requires |more| <= 1
    ensures PhaseAfter(calls + more) == if more == [] then PhaseAfter(calls) else NextPhase(PhaseAfter(calls), more[0])
  {
    if more == [] {
      assert calls + more == calls;
    } else {
      assert (calls + more)[..|calls|] == calls;
    }
  }

  lemma {:induction false} StepIsInOrder(w: nat, v: View, answer: Answer)
    requires CanStep(v) && NotRunYet(v.worker) && WorkerSlot(w, v.worker, SlotAt(w, v.worker.i), v.slot)
    ensures var x', calls := StepView(w, v, answer).worker, CallAt(v, answer);
      NotRunYet(x') && PhaseOf(x') == if calls == [] then PhaseOf(v.worker) else NextPhase(PhaseOf(v.worker), calls[0])
  {
  }

  ghost predicate SlotIsHis(s: State, w: nat) {
    && Shape(s) && w < |s.workers|
    && WorkerSlot(w, s.workers[w], SlotAt(w, s.workers[w].i), s.slots[SlotAt(w, s.workers[w].i)])
  }

  lemma {:induction false} RunKeepsSlot(tr: seq<State>, ms: seq<Move>, n: nat, w: nat)
    requires IsRun(tr, ms) && n < |tr| && w < |tr[n].workers|
    ensures SlotIsHis(tr[n], w)
  {
    RunKeepsInv(tr, ms, n);
  }

  lemma {:induction false} MoveIsInOrder(s: State, m: Move, w: nat, calls: seq<TaskCall>)
    requires SlotIsHis(s, w) && Allowed(s, m)
    requires NotRunYet(s.workers[w]) && PhaseAfter(calls) == PhaseOf(s.workers[w])
    ensures w < |Take(s, m).workers| && NotRunYet(Take(s, m).workers[w])
    ensures PhaseAfter(calls + CallMade(s, m, w)) == PhaseOf(Take(s, m).workers[w])
  {
    PhaseAfterOne(calls, CallMade(s, m, w));
    if m.ByWorker? && m.w == w {
      StepIsInOrder(w, WorkerView(s, w), m.answer);
    }
  }

  /** In every run the calls of every worker are in that order, and how far it is with a task
      can be told from its place in the program: it has the slot's lock from a successful
      Begin to the end of End, and is between two tasks whenever it looks for the next. */
  lemma {:induction false} CallsAreInOrder(tr: seq<State>, ms: seq<Move>, n: nat, w: nat)
    requires IsRun(tr, ms) && n < |tr| && w < |tr[n].workers|
    ensures PhaseAfter(CallsMade(tr, ms, n, w)) == PhaseOf(tr[n].workers[w]) != OutOfOrder
    ensures NotRunYet(tr[n].workers[w])
    decreases n
  {
    if n == 0 {
      assert Started(tr[0].workers[w]);
    } else {
      var j := n - 1;
      assert IsStep(tr, ms, j);
      CallsAreInOrder(tr, ms, j, w);
      RunKeepsSlot(tr, ms, j, w);
      MoveIsInOrder(tr[j], ms[j], w, CallsMade(tr, ms, j, w));
    }
  }

  /** So a worker that is between two passes, asleep or gone has ended every task it began. */
  lemma {:induction false} NothingLeftBegun(tr: seq<State>, ms: seq<Move>, n: nat, w: nat)
    requires IsRun(tr, ms) && n < |tr| && w < |tr[n].workers| && !Holding(tr[n].workers[w].pc)
    ensures PhaseAfter(CallsMade(tr, ms, n, w)) == if tr[n].workers[w].pc.WakeUp? then Ended else Between
  {
    CallsAreInOrder(tr, ms, n, w);
  }
}
