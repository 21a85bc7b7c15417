/** How many steps of its own each thread needs, at most, for what it does. */
module SchedulerProgress {
  import opened SchedulerModel
  import opened SchedulerInvariant
  import opened SchedulerRuns

  // ---------------------------------------------------------------- StopWorking

  /** How many of the moves before state `n` are the stopper's. */
  function StopperMoves(ms: seq<Move>, n: nat): (count: nat)
    requires n <= |ms|
  {
    if n == 0 then 0 else StopperMoves(ms, n - 1) + (if ms[n - 1].ByStopper? then 1 else 0)
  }

  /** How many moves StopWorking still takes with `n` workers. */
  function StopperLeft(p: StopPc, n: nat): int {
    match p
    case NotStopping => 3 * n + 3
    case Ask(j) => 3 * n + 2 - j
    case Set(j) => 2 * (n - j) + 1
    case AwaitDone(j) => 2 * (n - j)
    case Stopped => 0
  }

  lemma {:induction false} MoveOfStopper(s: State, m: Move)
    requires Inv(s) && Allowed(s, m)
    ensures |Take(s, m).workers| == |s.workers|
    ensures StopperLeft(Take(s, m).stopper, |s.workers|)
         == StopperLeft(s.stopper, |s.workers|) - (if m.ByStopper? then 1 else 0)
  {
  }

  /** StopWorking takes exactly 3 moves and 3 more for every worker, and has returned when it
      has made them all. */
  lemma {:induction false} StopWorkingReturns(tr: seq<State>, ms: seq<Move>, n: nat)
    requires IsRun(tr, ms) && n < |tr|
    ensures |tr[n].workers| == |tr[0].workers|
    ensures StopperMoves(ms, n) <= 3 * |tr[n].workers| + 3
    ensures StopperMoves(ms, n) == 3 * |tr[n].workers| + 3 <==> tr[n].stopper.Stopped?
    ensures StopperMoves(ms, n) + StopperLeft(tr[n].stopper, |tr[n].workers|) == 3 * |tr[n].workers| + 3
    decreases n
  {
    if n > 0 {
      StopWorkingReturns(tr, ms, n - 1);
      RunKeepsInv(tr, ms, n - 1);
      assert IsStep(tr, ms, n - 1);
      MoveOfStopper(tr[n - 1], ms[n - 1]);
    }
    RunKeepsInv(tr, ms, n);
  }

  /** If it cannot move on, it waits for a worker that has been told to stop and has not left
      Loop, which that worker does within 428 of its own steps. */
  lemma {:induction false} StopperWaitsForWorker(tr: seq<State>, ms: seq<Move>, n: nat) returns (j: nat)
    requires IsRun(tr, ms) && n < |tr| && !tr[n].stopper.Stopped? && !CanStepStopper(tr[n])
    ensures tr[n].stopper == AwaitDone(j) && j < |tr[n].workers|
    ensures !tr[n].workers[j].handle && !tr[n].workers[j].pc.Done?
  {
    RunKeepsInv(tr, ms, n);
    j := tr[n].stopper.j;
    assert WorkerOk(j, tr[n].workers[j]);
  }

  lemma {:induction false} OnlyStopperTells(s: State, m: Move, w: nat)
    requires Allowed(s, m) && w < |s.workers| && s.workers[w].handle
    requires m.ByStopper? ==> s.stopper.NotStopping?
    ensures w < |Take(s, m).workers| && Take(s, m).workers[w].handle
  {
  }

  lemma {:induction false} NobodyIsTold(tr: seq<State>, ms: seq<Move>, n: nat, w: nat)
    requires IsRun(tr, ms) && n < |tr| && w < |tr[n].workers| && StopperMoves(ms, n) <= 1
    ensures tr[n].workers[w].handle
    decreases n
  {
    if n == 0 {
      assert Started(tr[0].workers[w]);
    } else {
      StopWorkingReturns(tr, ms, n - 1);
      StopWorkingReturns(tr, ms, n);
      NobodyIsTold(tr, ms, n - 1, w);
      assert IsStep(tr, ms, n - 1);
      OnlyStopperTells(tr[n - 1], ms[n - 1], w);
    }
  }

  /** Until StopWorking has made its first call of TryStop no worker leaves Loop. */
  lemma {:induction false} NobodyLeavesUnasked(tr: seq<State>, ms: seq<Move>, n: nat, w: nat)
    requires IsRun(tr, ms) && n < |tr| && w < |tr[n].workers| && StopperMoves(ms, n) <= 1
    ensures tr[n].workers[w].handle && !tr[n].workers[w].pc.Leave? && !tr[n].workers[w].pc.Done?
  {
    NobodyIsTold(tr, ms, n, w);
    RunKeepsInv(tr, ms, n);
    assert WorkerOk(w, tr[n].workers[w]);
  }

  // ---------------------------------------------------------------- a pass

  /** Worker `w` scans the slots from state `a` to state `b`, where it may be done. */
  ghost predicate Scans(tr: seq<State>, a: nat, b: nat, w: nat) {
    a <= b < |tr| && forall n :: a <= n < b ==> w < |tr[n].workers| && Scanning(tr[n].workers[w].pc)
  }

  lemma {:induction false} ScanGoesOn(tr: seq<State>, ms: seq<Move>, a: nat, b: nat, w: nat)
    requires IsRun(tr, ms) && a < b && Scans(tr, a, b, w)
    ensures w < |tr[b].workers| && (Scanning(tr[b].workers[w].pc) || tr[b].workers[w].pc.PassEnd?)
    ensures tr[a].workers[w].i < SLOTS && (Scanning(tr[b].workers[w].pc) ==> tr[b].workers[w].i < SLOTS)
    ensures MovesOf(ms, a, b, w) + StepsLeft(tr[b].workers[w]) <= StepsLeft(tr[a].workers[w])
    decreases b
  {
    RunKeepsInv(tr, ms, b - 1);
    assert WorkerOk(w, tr[b - 1].workers[w]) && IsStep(tr, ms, b - 1);
    if a < b - 1 {
      ScanGoesOn(tr, ms, a, b - 1, w);
    }
    if ms[b - 1].ByWorker? && ms[b - 1].w == w {
      ScanProgresses(w, WorkerView(tr[b - 1], w), ms[b - 1].answer);
      ScanEnds(w, WorkerView(tr[b - 1], w), ms[b - 1].answer);
    }
  }

  lemma {:induction false} ScanEnds(w: nat, v: View, answer: Answer)
    requires CanStep(v) && Scanning(v.worker.pc)
    ensures var pc := StepView(w, v, answer).worker.pc; Scanning(pc) || pc.PassEnd?
  {
  }

  /** A pass over the slots takes at most 416 steps of the worker, whatever the others do. */
  lemma {:induction false} PassEnds(tr: seq<State>, ms: seq<Move>, a: nat, b: nat, w: nat)
    requires IsRun(tr, ms) && Scans(tr, a, b, w)
    ensures MovesOf(ms, a, b, w) <= 416
  {
    if a < b {
      ScanGoesOn(tr, ms, a, b, w);
    }
  }

  // ---------------------------------------------------------------- AddTask and ReleaseTask

  /** How many steps a call still takes, at most. */
  function CallLeft(y: ClientState): (n: nat)
    requires y.i <= SLOTS
    ensures n <= 39 && (n == 0 <==> y.pc.Idle?)
  {
    match y.pc
    case Idle => 0
    case ListUnlock => 1
    case SlotUnlock => 2
    case AddStore => 3
    case ReleaseClear => 3
    case AddCheck => 4
    case ReleaseCheck => 4
    case AddSlotLock => 5
    case ReleaseSlotLock => 5
    case AddScan => 6 + (SLOTS - y.i)
    case ReleaseScan => 6 + (SLOTS - y.i)
    case AddLock => 39
    case ReleaseLock => 39
  }

  lemma {:induction false} CallProgresses(c: nat, v: ClientView, call: Call)
    requires CanStepClient(v) && v.client.i <= SLOTS && !v.client.pc.Idle?
    requires v.client.pc.AddLock? || v.client.pc.ReleaseLock? ==> v.client.i == 0
    ensures var y' := StepClientView(c, v, call).client;
      y'.i <= SLOTS && CallLeft(y') < CallLeft(v.client)
  {
  }

  /** How many of the moves `a` to `b` are client `c`'s. */
  function ClientMovesOf(ms: seq<Move>, a: nat, b: nat, c: nat): nat
    requires a <= b <= |ms|
    decreases b
  {
    if a == b then 0
    else ClientMovesOf(ms, a, b - 1, c) + (if ms[b - 1].ByClient? && ms[b - 1].c == c then 1 else 0)
  }

  lemma {:induction false} ClientStaysInRange(tr: seq<State>, ms: seq<Move>, n: nat, c: nat)
    requires IsRun(tr, ms) && n < |tr| && c < |tr[n].clients| && !tr[n].clients[c].pc.Idle?
    ensures tr[n].clients[c].i <= SLOTS
    ensures tr[n].clients[c].pc.AddLock? || tr[n].clients[c].pc.ReleaseLock? ==> tr[n].clients[c].i == 0
    decreases n
  {
    RunKeepsInv(tr, ms, n);
    assert ClientKnows(tr[n].clients[c], Tasks(tr[n].slots));
    if n > 0 {
      assert IsStep(tr, ms, n - 1);
      RunKeepsInv(tr, ms, n - 1);
      assert ClientKnows(tr[n - 1].clients[c], Tasks(tr[n - 1].slots));
      if !tr[n - 1].clients[c].pc.Idle? {
        ClientStaysInRange(tr, ms, n - 1, c);
      }
    }
  }

  /** AddTask and ReleaseTask return within 39 steps of the caller, besides the one that makes
      the call: a caller who is in a call from state `a` to state `b` has made fewer. */
  lemma {:induction false} CallReturns(tr: seq<State>, ms: seq<Move>, a: nat, b: nat, c: nat)
    requires IsRun(tr, ms) && a <= b < |tr| && c < |tr[a].clients|
    requires forall n :: a <= n < b ==> c < |tr[n].clients| && !tr[n].clients[c].pc.Idle?
    ensures c < |tr[b].clients| && ClientMovesOf(ms, a, b, c) <= 39
    ensures !tr[b].clients[c].pc.Idle? ==>
      tr[b].clients[c].i <= SLOTS && ClientMovesOf(ms, a, b, c) + CallLeft(tr[b].clients[c]) <= 39
    decreases b
  {
    if a == b {
      if !tr[b].clients[c].pc.Idle? {
        ClientStaysInRange(tr, ms, b, c);
      }
    } else {
      CallReturns(tr, ms, a, b - 1, c);
      ClientStaysInRange(tr, ms, b - 1, c);
      assert IsStep(tr, ms, b - 1);
      if ms[b - 1].ByClient? && ms[b - 1].c == c {
        CallProgresses(c, ClientViewOf(tr[b - 1], c), ms[b - 1].call);
      }
    }
  }
}
