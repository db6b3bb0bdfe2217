/**
 Bounded work in the thread pool of src/common/m_thread_pool.cpp: while a task is
 queued every effective step of any thread uses up part of a bounded amount of
 work, so under any fair schedule every accepted task is dispatched, unless a
 submitter holds the lock in front of a full ring.
 */
module Dispatch {
  import opened ThreadPool

  // ----- Every step uses up work -----

  /** How many steps a worker is away from its next pop, while the queue is not empty. */
  function WorkerRank(w: WorkerState): nat {
    match w
    case Leaving(_) => 5
    case Busy(_) => 4
    case Asleep => 4
    case Ready => 3
    case Woken => 3
    case Testing => 2
    case Popping => 1
    case Crashed => 0
  }

  /** How many steps a submitter is away from its next push. */
  function SubmitRank(u: SubmitState): nat {
    match u
    case Signalling => 4
    case Done => 3
    case Away => 2
    case Waiting(_) => 1
    case Pushing(_) => 0
  }

  ghost function WorkerWork(ws: seq<WorkerState>): nat {
    if ws == [] then 0 else WorkerWork(ws[..|ws| - 1]) + WorkerRank(ws[|ws| - 1])
  }

  ghost function SubmitWork(us: seq<SubmitState>): nat {
    if us == [] then 0 else SubmitWork(us[..|us| - 1]) + SubmitRank(us[|us| - 1])
  }

  lemma {:induction false} WorkerUpdate(ws: seq<WorkerState>, i: int, w: WorkerState)
    requires 0 <= i < |ws|
    ensures WorkerWork(ws[i := w]) == WorkerWork(ws) - WorkerRank(ws[i]) + WorkerRank(w)
  {
    var n := |ws| - 1;
    if i == n {
      assert ws[i := w][..n] == ws[..n];
    } else {
      WorkerUpdate(ws[..n], i, w);
      assert ws[i := w][..n] == ws[..n][i := w];
    }
  }

  lemma {:induction false} SubmitUpdate(us: seq<SubmitState>, j: int, u: SubmitState)
    requires 0 <= j < |us|
    ensures SubmitWork(us[j := u]) == SubmitWork(us) - SubmitRank(us[j]) + SubmitRank(u)
  {
    var n := |us| - 1;
    if j == n {
      assert us[j := u][..n] == us[..n];
    } else {
      SubmitUpdate(us[..n], j, u);
      assert us[j := u][..n] == us[..n][j := u];
    }
  }

  /** Waking sleepers brings them nearer to the queue. */
  lemma {:induction false} WakeWorks(ws: seq<WorkerState>, woken: set<int>)
    requires woken <= Sleepers(ws)
    ensures WorkerWork(Wake(ws, woken)) <= WorkerWork(ws)
  {
    if ws != [] {
      var n := |ws| - 1;
      var inner := woken - {n};
      WakeWorks(ws[..n], inner);
      assert Wake(ws, woken)[..n] == Wake(ws[..n], inner);
    }
  }

  lemma {:induction false} WorkerWorkBound(ws: seq<WorkerState>)
    ensures WorkerWork(ws) <= 5 * |ws|
  {
    if ws != [] {
      WorkerWorkBound(ws[..|ws| - 1]);
    }
  }

  lemma {:induction false} SubmitWorkBound(us: seq<SubmitState>)
    ensures SubmitWork(us) <= 4 * |us|
  {
    if us != [] {
      SubmitWorkBound(us[..|us| - 1]);
    }
  }

  /** What is left to do until `target` tasks have been dispatched. */
  ghost function Work(s: State, target: nat): int {
    10 * (target - |s.dispatched|) + 5 * (s.queue.capacity - |s.queue.items|) +
    WorkerWork(s.workers) + SubmitWork(s.submitters)
  }

  /** While a task is queued, a step of any thread has no effect or uses up work. */
  lemma StepWorks(s: State, step: Step, target: nat)
    requires s.queue.items != []
    ensures Apply(s, step) == s || Work(Apply(s, step), target) < Work(s, target)
  {
    hide WorkerWork, SubmitWork;
    var s' := Apply(s, step);
    if s' != s {
      match step
      case Arrive(j, _) => SubmitUpdate(s.submitters, j, s'.submitters[j]);
      case SubmitLock(j) => SubmitUpdate(s.submitters, j, s'.submitters[j]);
      case TryPush(j) => SubmitUpdate(s.submitters, j, s'.submitters[j]);
      case Signal(j, woken) => SubmitUpdate(s.submitters, j, s'.submitters[j]); WakeWorks(s.workers, woken);
      case SubmitUnlock(j) => SubmitUpdate(s.submitters, j, s'.submitters[j]);
      case _ => WorkerUpdate(s.workers, step.i, s'.workers[step.i]);
    }
  }

  // ----- Fair stretches -----

  /** The next step of a worker that is up. */
  function NextOf(i: int, w: WorkerState): Step
    requires !w.Asleep? && !w.Crashed?
  {
    match w
    case Ready => Lock(i)
    case Woken => Lock(i)
    case Testing => Test(i)
    case Popping => Take(i)
    case Leaving(_) => Unlock(i)
    case Busy(_) => Finish(i)
  }

  /** Every worker that is up and every submitter that holds the lock in s takes its next step somewhere in steps. */
  ghost predicate Fair(s: State, steps: seq<Step>) {
    && (forall i :: 0 <= i < |s.workers| && !s.workers[i].Asleep? && !s.workers[i].Crashed? ==>
          NextOf(i, s.workers[i]) in steps)
    && (forall j :: 0 <= j < |s.submitters| ==>
          && (s.submitters[j].Pushing? ==> TryPush(j) in steps)
          && (s.submitters[j].Signalling? ==>
                exists woken :: Signal(j, woken) in steps && Apply(s, Signal(j, woken)) != s)
          && (s.submitters[j].Done? ==> SubmitUnlock(j) in steps))
  }

  /** A submitter is in its retry loop in front of a full ring. */
  ghost predicate Stuck(s: State) {
    |s.queue.items| >= s.queue.capacity && exists j :: 0 <= j < |s.submitters| && s.submitters[j].Pushing?
  }

  /** While a task is queued and nobody is stuck, a fair stretch holds a step with an effect. */
  lemma FairMoves(s: State, steps: seq<Step>) returns (step: Step)
    requires Inv(s) && s.queue.items != [] && |s.workers| >= 1 && Fair(s, steps) && !Stuck(s)
    ensures step in steps && Apply(s, step) != s
  {
    match s.lock
    case Nobody =>
      var i := SomeoneUp(s.workers, |s.workers|);
      step := NextOf(i, s.workers[i]);
    case Worker(i) =>
      step := NextOf(i, s.workers[i]);
    case Submitter(j) =>
      match s.submitters[j] {
        case Pushing(_) => step := TryPush(j);
        case Signalling =>
          var woken :| Signal(j, woken) in steps && Apply(s, Signal(j, woken)) != s;
          step := Signal(j, woken);
        case Done => step := SubmitUnlock(j);
      }
  }

  /** Tasks are never taken back. */
  lemma StepGrows(s: State, step: Step)
    ensures s.accepted <= Apply(s, step).accepted && |s.dispatched| <= |Apply(s, step).dispatched|
    ensures |Apply(s, step).workers| == |s.workers| && |Apply(s, step).submitters| == |s.submitters|
  {
  }

  lemma {:induction false} TasksLength(ds: seq<(int, int)>)
    ensures |Tasks(ds)| == |ds|
  {
    if ds != [] {
      TasksLength(ds[..|ds| - 1]);
    }
  }

  /** From s to s' everything accepted stays so, and target tasks are dispatched, or work was done, or nothing was. */
  ghost predicate Progress(s: State, s': State, target: nat, moved: bool) {
    && Inv(s') && s.accepted <= s'.accepted && |s.dispatched| <= |s'.dispatched| && |s'.workers| == |s.workers|
    && (|s'.dispatched| >= target || Work(s', target) < Work(s, target) || (s' == s && !moved))
  }

  lemma ProgressStep(s: State, s': State, target: nat, moved: bool, step: Step)
    requires target <= |s.accepted| && Progress(s, s', target, moved)
    ensures Progress(s, Apply(s', step), target, moved || Apply(s, step) != s)
  {
    hide Apply, Work;
    StepKeepsAll(s', step);
    StepGrows(s', step);
    if |s'.dispatched| < target {
      TasksLength(s'.dispatched);
      StepWorks(s', step, target);
    }
  }

  lemma {:induction false} StretchWorks(s: State, steps: seq<Step>, target: nat)
    requires Inv(s) && target <= |s.accepted|
    ensures Progress(s, After(s, steps), target, exists step :: step in steps && Apply(s, step) != s)
  {
    hide Apply, Inv, Work;
    if steps != [] {
      var init, last := steps[..|steps| - 1], steps[|steps| - 1];
      StretchWorks(s, init, target);
      assert steps == init + [last];
      ProgressStep(s, After(s, init), target, exists step :: step in init && Apply(s, step) != s, last);
    }
  }

  /** A stuck submitter stays stuck. */
  lemma StuckStays(s: State, steps: seq<Step>)
    requires Inv(s) && Stuck(s)
    ensures Stuck(After(s, steps))
  {
    var j :| 0 <= j < |s.submitters| && s.submitters[j].Pushing?;
    FullNeverCompletes(s, j, steps);
  }

  lemma FairStretchWorks(s: State, steps: seq<Step>, target: nat)
    requires Inv(s) && |s.workers| >= 1 && target <= |s.accepted| && Fair(s, steps)
    ensures var s' := After(s, steps);
            && Inv(s') && s.accepted <= s'.accepted && |s'.workers| == |s.workers|
            && |s.dispatched| <= |s'.dispatched|
            && (|s'.dispatched| >= target || Stuck(s') || Work(s', target) < Work(s, target))
  {
    hide Apply, Work, Fair;
    StretchWorks(s, steps, target);
    if Stuck(s) {
      StuckStays(s, steps);
    } else if |s.dispatched| < target {
      TasksLength(s.dispatched);
      var step := FairMoves(s, steps);
    }
  }

  ghost function AfterAll(s: State, stretches: seq<seq<Step>>): State {
    if stretches == [] then s else After(AfterAll(s, stretches[..|stretches| - 1]), stretches[|stretches| - 1])
  }

  ghost predicate FairRun(s: State, stretches: seq<seq<Step>>) {
    forall k :: 0 <= k < |stretches| ==> Fair(AfterAll(s, stretches[..k]), stretches[k])
  }

  lemma {:induction false} FairStretches(s: State, stretches: seq<seq<Step>>, target: nat)
    requires Inv(s) && |s.workers| >= 1 && target <= |s.accepted| && FairRun(s, stretches)
    ensures var s' := AfterAll(s, stretches);
            && Inv(s') && s.accepted <= s'.accepted && |s'.workers| == |s.workers|
            && (|s'.dispatched| >= target || Stuck(s') || Work(s', target) + |stretches| <= Work(s, target))
  {
    hide Inv, Work, Fair, Stuck;
    if stretches != [] {
      var n := |stretches| - 1;
      var init := stretches[..n];
      assert forall k :: 0 <= k < n ==> init[..k] == stretches[..k];
      FairStretches(s, init, target);
      FairStretchWorks(AfterAll(s, init), stretches[n], target);
      if Stuck(AfterAll(s, init)) {
        StuckStays(AfterAll(s, init), stretches[n]);
      }
    }
  }

  /**
   From any reachable state, after a bounded number of fair stretches every task
   accepted by then has been dispatched, in the order of acceptance, unless a
   submitter is stuck in front of a full ring.
   */
  lemma FairRunDispatches(s0: State, nthreads: nat, capacity: nat, steps: seq<Step>, stretches: seq<seq<Step>>)
    requires Init(s0, nthreads, capacity) && nthreads >= 1 && FairRun(After(s0, steps), stretches)
    requires var s := After(s0, steps);
             |stretches| >= 10 * |s.queue.items| + 5 * capacity + 5 * nthreads + 4 * |s.submitters|
    ensures var s, s' := After(s0, steps), AfterAll(After(s0, steps), stretches);
            s.accepted <= Tasks(s'.dispatched) || Stuck(s')
  {
    hide Fair, FairRun, Stuck;
    EveryRun(s0, nthreads, capacity, steps);
    var s := After(s0, steps);
    var s' := AfterAll(s, stretches);
    FairStretches(s, stretches, |s.accepted|);
    TasksLength(s.dispatched);
    TasksLength(s'.dispatched);
    WorkerWorkBound(s.workers);
    SubmitWorkBound(s.submitters);
  }

  // ----- With nothing queued the workers go to sleep -----

  /** How many steps a worker is away from sleep, while the queue is empty. */
  function IdleRank(w: WorkerState): nat {
    match w
    case Leaving(_) => 4
    case Busy(_) => 3
    case Ready => 2
    case Woken => 2
    case Testing => 1
    case Popping => 0
    case Asleep => 0
    case Crashed => 0
  }

  ghost function IdleWork(ws: seq<WorkerState>): nat {
    if ws == [] then 0 else IdleWork(ws[..|ws| - 1]) + IdleRank(ws[|ws| - 1])
  }

  lemma {:induction false} IdleUpdate(ws: seq<WorkerState>, i: int, w: WorkerState)
    requires 0 <= i < |ws|
    ensures IdleWork(ws[i := w]) == IdleWork(ws) - IdleRank(ws[i]) + IdleRank(w)
  {
    var n := |ws| - 1;
    if i == n {
      assert ws[i := w][..n] == ws[..n];
    } else {
      IdleUpdate(ws[..n], i, w);
      assert ws[i := w][..n] == ws[..n][i := w];
    }
  }

  /** No busy waiting: while the queue is empty every effective step of an unwoken worker brings it nearer to sleep. */
  lemma IdleStepWorks(s: State, step: Step)
    requires Inv(s) && s.queue.items == []
    requires step.Lock? || step.Test? || step.Take? || step.Unlock? || step.Finish?
    ensures var s' := Apply(s, step);
            s'.queue == s.queue && (s' == s || IdleWork(s'.workers) < IdleWork(s.workers))
  {
    hide IdleWork;
    var s' := Apply(s, step);
    if s' != s {
      IdleUpdate(s.workers, step.i, s'.workers[step.i]);
    }
  }

  /** When no such step has an effect any more and no submitter holds the lock, all workers are asleep. */
  lemma IdleEndsAsleep(s: State)
    requires Inv(s) && s.queue.items == [] && !s.lock.Submitter?
    requires forall i :: 0 <= i < |s.workers| && !s.workers[i].Asleep? && !s.workers[i].Crashed? ==>
               Apply(s, NextOf(i, s.workers[i])) == s
    ensures s.lock == Nobody && forall i :: 0 <= i < |s.workers| ==> s.workers[i].Asleep?
  {
    if s.lock.Worker? {
      assert false;
    }
  }

  /** A worker that wakes without a signal takes the lock, finds the queue empty and sleeps again as before. */
  lemma SpuriousWakeIsHarmless(s: State, i: int)
    requires Inv(s) && s.queue.items == [] && s.lock == Nobody && 0 <= i < |s.workers| && s.workers[i].Asleep?
    ensures Apply(Apply(s, SpuriousWake(i)), Lock(i)).lock == Worker(i)
    ensures Apply(Apply(Apply(s, SpuriousWake(i)), Lock(i)), Test(i)) == s
  {
    var a := Apply(s, SpuriousWake(i));
    var b := Apply(a, Lock(i));
    assert Apply(b, Test(i)).workers == s.workers;
  }

  // ----- The stuck states are reachable -----

  lemma AfterStep(s: State, steps: seq<Step>, step: Step)
    ensures After(s, steps + [step]) == Apply(After(s, steps), step)
  {
    hide Apply;
    assert (steps + [step])[..|steps|] == steps;
  }

  /** With nobody asleep and room in the ring a submitter gets through on its own. */
  lemma Submitted(s: State, task: int) returns (s': State)
    requires s.lock == Nobody && |s.submitters| >= 1 && s.submitters[0] == Away && Sleepers(s.workers) == {}
    requires |s.queue.items| < s.queue.capacity
    ensures s' == Apply(Apply(Apply(Apply(Apply(s, Arrive(0, task)), SubmitLock(0)), TryPush(0)), Signal(0, {})),
                        SubmitUnlock(0))
    ensures s' == s.(queue := s.queue.(items := s.queue.items + [task]), accepted := s.accepted + [task])
  {
    var a := Apply(s, Arrive(0, task));
    var b := Apply(a, SubmitLock(0));
    var c := Apply(b, TryPush(0));
    var d := Apply(c, Signal(0, {}));
    assert Wake(s.workers, {}) == s.workers;
    assert d.submitters[0] == Done && d.workers == s.workers;
    s' := Apply(d, SubmitUnlock(0));
    assert s'.submitters == s.submitters;
  }

  /** One submitter alone can queue any number of tasks up to the capacity. */
  lemma {:induction false} Filled(s: State, nthreads: nat, capacity: nat, k: nat) returns (steps: seq<Step>)
    requires Init(s, nthreads, capacity) && |s.submitters| >= 1 && k <= capacity
    ensures var s' := After(s, steps);
            && s'.lock == Nobody && s'.workers == s.workers && s'.submitters == s.submitters
            && s'.queue.capacity == capacity && |s'.queue.items| == k
  {
    if k == 0 {
      steps := [];
    } else {
      var s0 := Filled(s, nthreads, capacity, k - 1);
      var before := After(s, s0);
      assert Sleepers(before.workers) == {};
      var after := Submitted(before, k);
      hide Apply;
      var s1 := s0 + [Arrive(0, k)];
      var s2 := s1 + [SubmitLock(0)];
      var s3 := s2 + [TryPush(0)];
      var s4 := s3 + [Signal(0, {})];
      steps := s4 + [SubmitUnlock(0)];
      AfterStep(s, s0, Arrive(0, k));
      AfterStep(s, s1, SubmitLock(0));
      AfterStep(s, s2, TryPush(0));
      AfterStep(s, s3, Signal(0, {}));
      AfterStep(s, s4, SubmitUnlock(0));
    }
  }

  /** For every capacity and any number of workers some run ends with a submitter stuck in front of the full ring. */
  lemma StuckIsReachable(s: State, nthreads: nat, capacity: nat) returns (steps: seq<Step>)
    requires Init(s, nthreads, capacity) && |s.submitters| >= 1
    ensures Stuck(After(s, steps)) && Retrying(After(s, steps), 0)
  {
    var fill := Filled(s, nthreads, capacity, capacity);
    steps := fill + [Arrive(0, 0)] + [SubmitLock(0)];
    AfterStep(s, fill, Arrive(0, 0));
    AfterStep(s, fill + [Arrive(0, 0)], SubmitLock(0));
    EveryRun(s, nthreads, capacity, steps);
    var s' := After(s, steps);
    assert s'.submitters[0].Pushing?;
  }
}
