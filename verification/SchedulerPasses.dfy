/** What a worker does in one pass over the slots: it looks at each of them once, begins every
    task that is left to it, and then sleeps if and only if none of them had done anything. */
module SchedulerPasses {
  import opened SchedulerModel
  import opened SchedulerInvariant
  import opened SchedulerRuns

  /** Worker `w` makes one pass over the slots, from its first look to the end of the pass. */
  ghost predicate IsPass(tr: seq<State>, a: nat, b: nat, w: nat) {
    && a <= b < |tr| && (forall n :: a <= n <= b ==> w < |tr[n].workers|)
    && tr[a].workers[w].pc.CheckUsed? && tr[a].workers[w].i == 0
    && (forall n :: a <= n < b ==> Scanning(tr[n].workers[w].pc))
    && tr[b].workers[w].pc.PassEnd?
  }

  /** Slot `k` holds task `t`, and nobody but worker `w` has its lock. */
  ghost predicate LeftTo(s: State, w: nat, k: nat, t: nat) {
    k < |s.slots| && s.slots[k].task == t && (s.slots[k].lock == Free || s.slots[k].lock == HeldBy(Worker(w)))
  }

  /** The slot is left to `w` as long as its turn lasts. */
  ghost predicate LeftInTurn(tr: seq<State>, a: nat, b: nat, w: nat, k: nat, t: nat)
    requires IsPass(tr, a, b, w)
  {
    forall n :: a <= n < b && SlotAt(w, tr[n].workers[w].i) == k ==> LeftTo(tr[n], w, k, t)
  }

  /** Move `n` is the call of Begin by worker `w`, on the task in slot `k`. */
  ghost predicate Begins(tr: seq<State>, ms: seq<Move>, n: nat, w: nat, k: nat) {
    && n < |ms| && n < |tr| && ms[n].ByWorker? && ms[n].w == w
    && w < |tr[n].workers| && tr[n].workers[w].pc.Begin? && SlotAt(w, tr[n].workers[w].i) == k
  }

  predicate OnTheWay(pc: WorkerPc) {
    pc.CheckUsed? || pc.CheckFree? || pc.TryLock? || pc.Recheck? || pc.Claim? || pc.LoadTask? || pc.Begin?
  }

  /** Turn `i` is still to come, or has come and Begin has not been called in it. */
  predicate StillToBegin(x: WorkerState, i: nat) {
    x.i < i || (x.i == i && OnTheWay(x.pc))
  }

  /** The looks of ApplyTask find the slot as it was left. */
  lemma {:induction false} NobodyInTheWay(w: nat, x: WorkerState, k: nat, slot: Slot)
    requires WorkerSlot(w, x, k, slot) && SlotOk(slot) && k == SlotAt(w, x.i)
    requires slot.lock == Free || slot.lock == HeldBy(Worker(w))
    ensures x.pc.CheckFree? || x.pc.Recheck? ==> slot.operating == 0
    ensures x.pc.TryLock? ==> slot.lock == Free
  {
  }

  lemma {:induction false} StepsTowardsBegin(w: nat, v: View, answer: Answer, i: nat)
    requires CanStep(v) && Scanning(v.worker.pc) && i < SLOTS && StillToBegin(v.worker, i)
    requires v.worker.i == i ==>
      && v.slot.task != NO_TASK && !v.worker.pc.Begin?
      && (v.worker.pc.CheckFree? || v.worker.pc.Recheck? ==> v.slot.operating == 0)
      && (v.worker.pc.TryLock? ==> v.slot.lock == Free)
    ensures StillToBegin(StepView(w, v, answer).worker, i)
  {
    if v.worker.i < i && !v.worker.pc.NextSlot? {
      assert StepView(w, v, answer).worker.i == v.worker.i;
    }
  }

  /** One move of anyone. */
  lemma {:induction false} MovesTowardsBegin(s: State, m: Move, w: nat, i: nat, t: nat)
    requires Inv(s) && Allowed(s, m) && w < |s.workers| && Scanning(s.workers[w].pc)
    requires i < SLOTS && StillToBegin(s.workers[w], i) && t != NO_TASK
    requires s.workers[w].i == i ==> LeftTo(s, w, SlotAt(w, i), t)
    requires m.ByWorker? && m.w == w ==> !(s.workers[w].i == i && s.workers[w].pc.Begin?)
    ensures w < |Take(s, m).workers| && StillToBegin(Take(s, m).workers[w], i)
  {
    if m.ByWorker? && m.w == w {
      var k := SlotAt(w, s.workers[w].i);
      assert WorkerSlot(w, s.workers[w], k, s.slots[k]) && SlotOk(s.slots[k]);
      if s.workers[w].i == i {
        NobodyInTheWay(w, s.workers[w], k, s.slots[k]);
      }
      StepsTowardsBegin(w, WorkerView(s, w), m.answer, i);
    }
  }

  lemma {:induction false} BegunOrStillToBegin(tr: seq<State>, ms: seq<Move>, a: nat, b: nat, w: nat, i: nat, t: nat,
                                               n: nat)
    requires IsRun(tr, ms) && IsPass(tr, a, b, w) && i < SLOTS && t != NO_TASK
    requires LeftInTurn(tr, a, b, w, SlotAt(w, i), t) && a <= n <= b
    ensures StillToBegin(tr[n].workers[w], i) || exists j :: a <= j < n && Begins(tr, ms, j, w, SlotAt(w, i))
    decreases n
  {
    if a < n {
      var j := n - 1;
      BegunOrStillToBegin(tr, ms, a, b, w, i, t, j);
      if StillToBegin(tr[j].workers[w], i) && !Begins(tr, ms, j, w, SlotAt(w, i)) {
        RunKeepsInv(tr, ms, j);
        assert IsStep(tr, ms, j);
        MovesTowardsBegin(tr[j], ms[j], w, i, t);
      }
    }
  }

  /** If a slot holds a task and nobody else has its lock while a worker has its turn there,
      the worker calls Begin on that task in that pass, whatever all other threads do. */
  lemma {:induction false} TaskLeftToWorkerIsBegun(tr: seq<State>, ms: seq<Move>, a: nat, b: nat, w: nat, k: nat,
                                                   t: nat)
      returns (n: nat)
    requires IsRun(tr, ms) && IsPass(tr, a, b, w) && k < SLOTS && t != NO_TASK
    requires LeftInTurn(tr, a, b, w, k, t)
    ensures a <= n < b && Begins(tr, ms, n, w, k) && tr[n + 1].workers[w].begun == t
  {
    var i := EverySlotHasItsTurn(w, k);
    BegunOrStillToBegin(tr, ms, a, b, w, i, t, b);
    RunKeepsInv(tr, ms, b);
    assert WorkerOk(w, tr[b].workers[w]);
    n :| a <= n < b && Begins(tr, ms, n, w, k);
    assert IsStep(tr, ms, n);
    assert LeftTo(tr[n], w, k, t);
  }
  // ---------------------------------------------------------------- every slot once

  /** Move `n` is the look of worker `w` at slot `k`. */
  ghost predicate Looks(tr: seq<State>, ms: seq<Move>, n: nat, w: nat, k: nat) {
    && n < |ms| && n < |tr| && ms[n].ByWorker? && ms[n].w == w
    && w < |tr[n].workers| && tr[n].workers[w].pc.CheckUsed? && SlotAt(w, tr[n].workers[w].i) == k
  }

  /** The look of turn `i` is over. */
  predicate PastLook(x: WorkerState, i: nat) {
    x.i > i || (x.i == i && !x.pc.CheckUsed?)
  }

  lemma {:induction false} StepsPastLooks(w: nat, v: View, answer: Answer, i: nat)
    requires CanStep(v) && Scanning(v.worker.pc) && v.worker.i < SLOTS && i < SLOTS
    ensures PastLook(StepView(w, v, answer).worker, i)
       <==> PastLook(v.worker, i) || (v.worker.pc.CheckUsed? && v.worker.i == i)
  {
    if !v.worker.pc.NextSlot? {
      assert StepView(w, v, answer).worker.i == v.worker.i;
    }
  }

  lemma {:induction false} LookedAt(tr: seq<State>, ms: seq<Move>, a: nat, b: nat, w: nat, i: nat, n: nat)
    requires IsRun(tr, ms) && IsPass(tr, a, b, w) && i < SLOTS && a <= n <= b
    ensures PastLook(tr[n].workers[w], i) <==> exists j :: a <= j < n && Looks(tr, ms, j, w, SlotAt(w, i))
    decreases n
  {
    if a < n {
      var j := n - 1;
      LookedAt(tr, ms, a, b, w, i, j);
      RunKeepsInv(tr, ms, j);
      assert WorkerOk(w, tr[j].workers[w]) && IsStep(tr, ms, j);
      if ms[j].ByWorker? && ms[j].w == w {
        StepsPastLooks(w, WorkerView(tr[j], w), ms[j].answer, i);
        var _ := EverySlotHasItsTurn(w, SlotAt(w, i));
        assert Looks(tr, ms, j, w, SlotAt(w, i)) <==> tr[j].workers[w].pc.CheckUsed? && tr[j].workers[w].i == i;
      }
    }
  }

  lemma {:induction false} NotLookedAtBefore(tr: seq<State>, ms: seq<Move>, a: nat, b: nat, w: nat, n: nat, k: nat)
    requires IsRun(tr, ms) && IsPass(tr, a, b, w) && a <= n < b && Looks(tr, ms, n, w, k)
    ensures forall j :: a <= j < n ==> !Looks(tr, ms, j, w, k)
  {
    RunKeepsInv(tr, ms, n);
    assert WorkerOk(w, tr[n].workers[w]);
    LookedAt(tr, ms, a, b, w, tr[n].workers[w].i, n);
  }

  /** In a pass the worker looks at every slot, and at none of them again. */
  lemma {:induction false} EverySlotIsLookedAtOnce(tr: seq<State>, ms: seq<Move>, a: nat, b: nat, w: nat, k: nat)
      returns (n: nat)
    requires IsRun(tr, ms) && IsPass(tr, a, b, w) && k < SLOTS
    ensures a <= n < b && Looks(tr, ms, n, w, k)
    ensures forall j :: a <= j < b && j != n ==> !Looks(tr, ms, j, w, k)
  {
    var i := EverySlotHasItsTurn(w, k);
    LookedAt(tr, ms, a, b, w, i, b);
    RunKeepsInv(tr, ms, b);
    assert WorkerOk(w, tr[b].workers[w]);
    n :| a <= n < b && Looks(tr, ms, n, w, k);
    forall j | a <= j < b && j != n
      ensures !Looks(tr, ms, j, w, k)
    {
      if Looks(tr, ms, j, w, k) {
        NotLookedAtBefore(tr, ms, a, b, w, if j < n then n else j, k);
      }
    }
  }

  // ---------------------------------------------------------------- what the tasks returned

  /** Move `n` is the call of a task's Run by worker `w`. */
  ghost predicate Ran(tr: seq<State>, ms: seq<Move>, n: nat, w: nat) {
    && n < |ms| && n < |tr| && ms[n].ByWorker? && ms[n].w == w
    && w < |tr[n].workers| && tr[n].workers[w].pc.RunTask?
  }

  /** Every Run that the worker called returned 0. */
  ghost predicate AllReturnedZero(tr: seq<State>, ms: seq<Move>, a: nat, b: nat, w: nat) {
    forall n :: a <= n < b && Ran(tr, ms, n, w) ==> ms[n].answer.count == 0
  }

  /** Nothing done in this pass, as far as the worker's variables tell. */
  predicate NothingDone(x: WorkerState) {
    x.allDone && (x.pc.EndTask? || x.pc.Disown? || x.pc.Unlock? ==> x.usedCnt == 0)
  }

  lemma {:induction false} StepCounts(w: nat, v: View, answer: Answer)
    requires CanStep(v) && Scanning(v.worker.pc) && NotRunYet(v.worker)
    ensures var x' := StepView(w, v, answer).worker;
      && NotRunYet(x')
      && (NothingDone(x') <==> NothingDone(v.worker) && (v.worker.pc.RunTask? ==> answer.count == 0))
  {
  }

  /** A pass starts with bIsAllTaskDone set. */
  lemma {:induction false} PassStartsDone(tr: seq<State>, ms: seq<Move>, n: nat, w: nat)
    requires IsRun(tr, ms) && n < |tr| && w < |tr[n].workers|
    ensures tr[n].workers[w].pc.CheckUsed? && tr[n].workers[w].i == 0 ==> tr[n].workers[w].allDone
    decreases n
  {
    if n == 0 {
      assert Started(tr[0].workers[w]);
    } else {
      assert IsStep(tr, ms, n - 1);
      PassStartsDone(tr, ms, n - 1, w);
    }
  }

  lemma {:induction false} CountsSoFar(tr: seq<State>, ms: seq<Move>, a: nat, b: nat, w: nat, n: nat)
    requires IsRun(tr, ms) && IsPass(tr, a, b, w) && a <= n <= b
    ensures NotRunYet(tr[n].workers[w])
    ensures NothingDone(tr[n].workers[w]) <==> AllReturnedZero(tr, ms, a, n, w)
    decreases n
  {
    if a == n {
      PassStartsDone(tr, ms, n, w);
    } else {
      var j := n - 1;
      CountsSoFar(tr, ms, a, b, w, j);
      assert IsStep(tr, ms, j);
      if ms[j].ByWorker? && ms[j].w == w {
        StepCounts(w, WorkerView(tr[j], w), ms[j].answer);
      }
      assert AllReturnedZero(tr, ms, a, n, w)
        <==> AllReturnedZero(tr, ms, a, j, w) && (Ran(tr, ms, j, w) ==> ms[j].answer.count == 0);
    }
  }

  // ---------------------------------------------------------------- sleeping

  /** A scan that has begun at `a` and still goes on at `n`. */
  ghost predicate InScan(tr: seq<State>, a: nat, n: nat, w: nat) {
    && a <= n < |tr| && (forall j :: a <= j <= n ==> w < |tr[j].workers| && Scanning(tr[j].workers[w].pc))
    && tr[a].workers[w].pc.CheckUsed? && tr[a].workers[w].i == 0
  }

  lemma {:induction false} ScanHasBegun(tr: seq<State>, ms: seq<Move>, n: nat, w: nat) returns (a: nat)
    requires IsRun(tr, ms) && n < |tr| && w < |tr[n].workers| && Scanning(tr[n].workers[w].pc)
    ensures InScan(tr, a, n, w)
    decreases n
  {
    assert n > 0;
    assert IsStep(tr, ms, n - 1);
    if Scanning(tr[n - 1].workers[w].pc) {
      a := ScanHasBegun(tr, ms, n - 1, w);
    } else {
      a := n;
    }
  }

  /** The end of a pass, and the sleep that may follow. */
  predicate PassIsOver(x: WorkerState) {
    x.pc.PassEnd? || InSleep(x.pc)
  }

  ghost predicate OverSince(tr: seq<State>, b: nat, n: nat, w: nat) {
    && b <= n < |tr| && w < |tr[b].workers|
    && forall j :: b <= j <= n ==>
         w < |tr[j].workers| && PassIsOver(tr[j].workers[w]) && tr[j].workers[w].allDone == tr[b].workers[w].allDone
  }

  lemma {:induction false} MoveToEnd(s: State, m: Move, w: nat)
    requires Allowed(s, m) && w < |s.workers| && PassIsOver(Take(s, m).workers[w])
    ensures if PassIsOver(s.workers[w]) then Take(s, m).workers[w].allDone == s.workers[w].allDone
            else Scanning(s.workers[w].pc) && Take(s, m).workers[w].pc.PassEnd?
  {
    if m.ByWorker? && m.w == w {
      StepToEnd(w, WorkerView(s, w), m.answer);
    }
  }

  lemma {:induction false} StepToEnd(w: nat, v: View, answer: Answer)
    requires CanStep(v) && PassIsOver(StepView(w, v, answer).worker)
    ensures if PassIsOver(v.worker) then StepView(w, v, answer).worker.allDone == v.worker.allDone
            else Scanning(v.worker.pc) && StepView(w, v, answer).worker.pc.PassEnd?
  {
  }

  /** A worker at the end of a pass or asleep has made a pass just before. */
  lemma {:induction false} PassCameBefore(tr: seq<State>, ms: seq<Move>, n: nat, w: nat) returns (a: nat, b: nat)
    requires IsRun(tr, ms) && n < |tr| && w < |tr[n].workers| && PassIsOver(tr[n].workers[w])
    ensures IsPass(tr, a, b, w) && OverSince(tr, b, n, w)
    decreases n
  {
    assert n > 0;
    assert IsStep(tr, ms, n - 1);
    MoveToEnd(tr[n - 1], ms[n - 1], w);
    if PassIsOver(tr[n - 1].workers[w]) {
      a, b := PassCameBefore(tr, ms, n - 1, w);
    } else {
      a := ScanHasBegun(tr, ms, n - 1, w);
      b := n;
    }
  }

  /** At the end of a pass a worker goes to sleep if and only if it is not worker 0 and every
      Run it called in the pass returned 0; otherwise it starts the next pass. */
  lemma {:induction false} SleepsExactlyWhenNothingDone(tr: seq<State>, ms: seq<Move>, n: nat, w: nat)
      returns (a: nat)
    requires IsRun(tr, ms) && n < |ms| && ms[n].ByWorker? && ms[n].w == w
    requires w < |tr[n].workers| && tr[n].workers[w].pc.PassEnd?
    ensures PassSince(tr, a, n, w)
    ensures w < |tr[n + 1].workers|
    ensures tr[n + 1].workers[w].pc == if w != 0 && AllReturnedZero(tr, ms, a, n, w) then SleepLock else LoopTest
  {
    var b: nat;
    a, b := PassCameBefore(tr, ms, n, w);
    CountsSoFar(tr, ms, a, b, w, b);
    assert IsStep(tr, ms, n);
    NoRunsWhenOver(tr, ms, a, b, n, w);
  }

  /** Worker `w` made a pass that began at `a`, and is at its end or asleep after it. */
  ghost predicate PassSince(tr: seq<State>, a: nat, n: nat, w: nat) {
    exists b :: IsPass(tr, a, b, w) && OverSince(tr, b, n, w)
  }

  lemma {:induction false} NoRunsWhenOver(tr: seq<State>, ms: seq<Move>, a: nat, b: nat, n: nat, w: nat)
    requires a <= b && OverSince(tr, b, n, w)
    ensures AllReturnedZero(tr, ms, a, n, w) <==> AllReturnedZero(tr, ms, a, b, w)
    ensures forall j: nat, k: nat :: b <= j < n ==> !Looks(tr, ms, j, w, k)
  {
    forall j: nat | b <= j < n
      ensures !Ran(tr, ms, j, w)
      ensures forall k: nat :: !Looks(tr, ms, j, w, k)
    {
      assert PassIsOver(tr[j].workers[w]);
    }
  }

  ghost predicate LooksOnce(tr: seq<State>, ms: seq<Move>, a: nat, n: nat, w: nat, k: nat) {
    exists j :: a <= j < n && Looks(tr, ms, j, w, k) && forall i :: a <= i < n && i != j ==> !Looks(tr, ms, i, w, k)
  }

  /** A worker that sleeps is not worker 0, looked at every slot exactly once in the pass
      before, and every Run it called since that pass began returned 0. */
  lemma {:induction false} SleeperSawEverySlot(tr: seq<State>, ms: seq<Move>, n: nat, w: nat) returns (a: nat)
    requires IsRun(tr, ms) && n < |tr| && w < |tr[n].workers| && InSleep(tr[n].workers[w].pc)
    ensures w != 0 && PassSince(tr, a, n, w) && AllReturnedZero(tr, ms, a, n, w)
    ensures forall k: nat :: k < SLOTS ==> LooksOnce(tr, ms, a, n, w, k)
  {
    var b: nat;
    a, b := PassCameBefore(tr, ms, n, w);
    RunKeepsInv(tr, ms, n);
    assert WorkerOk(w, tr[n].workers[w]);
    CountsSoFar(tr, ms, a, b, w, b);
    NoRunsWhenOver(tr, ms, a, b, n, w);
    forall k: nat | k < SLOTS
      ensures LooksOnce(tr, ms, a, n, w, k)
    {
      var j := EverySlotIsLookedAtOnce(tr, ms, a, b, w, k);
      assert forall i :: a <= i < n && i != j ==> i < b || !Looks(tr, ms, i, w, k);
    }
  }
}
