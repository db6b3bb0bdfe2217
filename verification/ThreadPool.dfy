/**
 The thread pool of src/common/m_thread_pool.cpp as a state machine: nthreads
 workers and any number of submitters share one task queue under one mutex and
 one condition variable. A run is any sequence of steps; a step that is not
 possible in a state leaves it as it is.
 */
module ThreadPool {
  import opened Fifo
  import opened Options

  datatype WorkerState =
    | Ready                    // before pthread_mutex_lock
    | Testing                  // holds the lock, about to test the queue
    | Asleep                   // inside pthread_cond_wait
    | Woken                    // signalled or woken spuriously, must take the lock again
    | Popping                  // holds the lock, has seen the queue non-empty
    | Leaving(task: int)       // holds the lock and its task
    | Busy(task: int)          // runs its task without the lock
    | Crashed                  // popped an empty queue and got a null task
  {
    predicate Inside() {
      Testing? || Popping? || Leaving?
    }
  }

  datatype SubmitState =
    | Away
    | Waiting(task: int)       // before pthread_mutex_lock
    | Pushing(task: int)       // holds the lock, in the retry loop
    | Signalling               // pushed, about to signal
    | Done                     // signalled, about to unlock
  {
    predicate Inside() {
      Pushing? || Signalling? || Done?
    }
  }

  datatype Owner = Nobody | Worker(i: int) | Submitter(j: int)

  datatype State = State(
    queue: Bounded<int>,
    lock: Owner,
    workers: seq<WorkerState>,
    submitters: seq<SubmitState>,
    accepted: seq<int>,             // tasks pushed, in order
    dispatched: seq<(int, int)>     // worker and task of every pop, in order
  )

  datatype Step =
    | Lock(i: int)
    | Test(i: int)
    | SpuriousWake(i: int)
    | Take(i: int)
    | Unlock(i: int)
    | Finish(i: int)
    | Arrive(j: int, task: int)
    | SubmitLock(j: int)
    | TryPush(j: int)
    | Signal(j: int, woken: set<int>)
    | SubmitUnlock(j: int)

  function Sleepers(ws: seq<WorkerState>): (r: set<int>)
    ensures forall i :: i in r <==> 0 <= i < |ws| && ws[i].Asleep?
  {
    set i | 0 <= i < |ws| && ws[i].Asleep?
  }

  /** The program's own action at each point; everything else leaves the state alone. */
  function Apply(s: State, step: Step): State {
    match step
    case Lock(i) =>
      if 0 <= i < |s.workers| && (s.workers[i].Ready? || s.workers[i].Woken?) && s.lock.Nobody? then
        s.(lock := Worker(i), workers := s.workers[i := Testing])
      else s
    case Test(i) =>
      if !(0 <= i < |s.workers| && s.workers[i].Testing?) then s
      else if s.queue.items == [] then s.(lock := Nobody, workers := s.workers[i := Asleep])
      else s.(workers := s.workers[i := Popping])
    case SpuriousWake(i) =>
      if 0 <= i < |s.workers| && s.workers[i].Asleep? then s.(workers := s.workers[i := Woken]) else s
    case Take(i) =>
      if !(0 <= i < |s.workers| && s.workers[i].Popping?) then s
      else if s.queue.items == [] then s.(workers := s.workers[i := Crashed])
      else
        var t := s.queue.items[0];
        s.(queue := s.queue.(items := s.queue.items[1..]), workers := s.workers[i := Leaving(t)],
           dispatched := s.dispatched + [(i, t)])
    case Unlock(i) =>
      if 0 <= i < |s.workers| && s.workers[i].Leaving? then
        s.(lock := Nobody, workers := s.workers[i := Busy(s.workers[i].task)])
      else s
    case Finish(i) =>
      if 0 <= i < |s.workers| && s.workers[i].Busy? then s.(workers := s.workers[i := Ready]) else s
    case Arrive(j, task) =>
      if 0 <= j < |s.submitters| && s.submitters[j].Away? then s.(submitters := s.submitters[j := Waiting(task)])
      else s
    case SubmitLock(j) =>
      if 0 <= j < |s.submitters| && s.submitters[j].Waiting? && s.lock.Nobody? then
        s.(lock := Submitter(j), submitters := s.submitters[j := Pushing(s.submitters[j].task)])
      else s
    case TryPush(j) =>
      if 0 <= j < |s.submitters| && s.submitters[j].Pushing? && |s.queue.items| < s.queue.capacity then
        var t := s.submitters[j].task;
        s.(queue := s.queue.(items := s.queue.items + [t]), submitters := s.submitters[j := Signalling],
           accepted := s.accepted + [t])
      else s
    case Signal(j, woken) =>
      // pthread_cond_signal wakes at least one sleeper if there is any
      if 0 <= j < |s.submitters| && s.submitters[j].Signalling? && woken <= Sleepers(s.workers) &&
         (Sleepers(s.workers) != {} ==> woken != {}) then
        s.(workers := Wake(s.workers, woken), submitters := s.submitters[j := Done])
      else s
    case SubmitUnlock(j) =>
      if 0 <= j < |s.submitters| && s.submitters[j].Done? then
        s.(lock := Nobody, submitters := s.submitters[j := Away])
      else s
  }

  function Wake(ws: seq<WorkerState>, woken: set<int>): (r: seq<WorkerState>)
    ensures |r| == |ws|
    ensures forall i :: 0 <= i < |ws| ==> r[i] == if i in woken then Woken else ws[i]
  {
    seq(|ws|, i requires 0 <= i < |ws| => if i in woken then Woken else ws[i])
  }

  /** init_thread_pool: an empty queue, nobody inside, no task yet. */
  ghost predicate Init(s: State, nthreads: nat, capacity: nat) {
    && s.queue == Bounded(capacity, []) && s.lock == Nobody
    && |s.workers| == nthreads && (forall i :: 0 <= i < nthreads ==> s.workers[i] == Ready)
    && (forall j :: 0 <= j < |s.submitters| ==> s.submitters[j] == Away)
    && s.accepted == [] && s.dispatched == []
  }

  ghost function After(s: State, steps: seq<Step>): State {
    if steps == [] then s else Apply(After(s, steps[..|steps| - 1]), steps[|steps| - 1])
  }

  // ----- What every run keeps -----

  ghost function Tasks(ds: seq<(int, int)>): seq<int> {
    if ds == [] then [] else Tasks(ds[..|ds| - 1]) + [ds[|ds| - 1].1]
  }

  /** Workers among the first k that are not asleep. */
  ghost function Awake(ws: seq<WorkerState>, k: nat): nat
    requires k <= |ws|
  {
    if k == 0 then 0 else Awake(ws, k - 1) + if ws[k - 1].Asleep? then 0 else 1
  }

  /** The lock is held by exactly the thread that is inside. */
  ghost predicate Exclusive(s: State) {
    && (forall i :: 0 <= i < |s.workers| ==> (s.workers[i].Inside() <==> s.lock == Worker(i)))
    && (forall j :: 0 <= j < |s.submitters| ==> (s.submitters[j].Inside() <==> s.lock == Submitter(j)))
    && (s.lock.Worker? ==> 0 <= s.lock.i < |s.workers|)
    && (s.lock.Submitter? ==> 0 <= s.lock.j < |s.submitters|)
  }

  /** A push whose signal is still to come. */
  ghost predicate Unsignalled(s: State) {
    s.lock.Submitter? && 0 <= s.lock.j < |s.submitters| && s.submitters[s.lock.j].Signalling?
  }

  ghost function Min(a: int, b: int): int {
    if a < b then a else b
  }

  ghost predicate Ordered(s: State) {
    s.accepted == Tasks(s.dispatched) + s.queue.items
  }

  /** A worker that is about to pop finds a task. */
  ghost predicate NeverEmpty(s: State) {
    forall i :: 0 <= i < |s.workers| ==> (s.workers[i].Popping? ==> s.queue.items != []) && !s.workers[i].Crashed?
  }

  /** The task last dispatched to worker i. */
  ghost function LastTask(ds: seq<(int, int)>, i: int): Option<int> {
    if ds == [] then None
    else if ds[|ds| - 1].0 == i then Some(ds[|ds| - 1].1) else LastTask(ds[..|ds| - 1], i)
  }

  /** A worker with a task runs the one that was last dispatched to it. */
  ghost predicate Carried(s: State) {
    forall i :: 0 <= i < |s.workers| && (s.workers[i].Leaving? || s.workers[i].Busy?) ==>
      LastTask(s.dispatched, i) == Some(s.workers[i].task)
  }

  ghost predicate Roused(s: State) {
    Awake(s.workers, |s.workers|) >= Min(|s.queue.items| - if Unsignalled(s) then 1 else 0, |s.workers|)
  }

  ghost predicate Inv(s: State) {
    s.queue.Fits() && Exclusive(s) && Ordered(s) && NeverEmpty(s) && Carried(s) && Roused(s)
  }

  lemma {:induction false} AwakeUpdate(ws: seq<WorkerState>, i: int, w: WorkerState, k: nat)
    requires k <= |ws| && 0 <= i < |ws|
    ensures Awake(ws[i := w], k) ==
            Awake(ws, k) + if i < k && ws[i].Asleep? && !w.Asleep? then 1
                           else if i < k && !ws[i].Asleep? && w.Asleep? then -1 else 0
  {
    if k > 0 {
      AwakeUpdate(ws, i, w, k - 1);
    }
  }

  lemma {:induction false} AwakeWake(ws: seq<WorkerState>, woken: set<int>, k: nat)
    requires k <= |ws|
    ensures Awake(Wake(ws, woken), k) >= Awake(ws, k)
    ensures (exists i :: i in woken && 0 <= i < k && ws[i].Asleep?) ==> Awake(Wake(ws, woken), k) > Awake(ws, k)
  {
    if k > 0 {
      AwakeWake(ws, woken, k - 1);
    }
  }

  lemma {:induction false} NoneAsleep(ws: seq<WorkerState>, k: nat)
    requires k <= |ws|
    ensures Awake(ws, k) <= k
    ensures (forall i :: 0 <= i < k ==> !ws[i].Asleep?) ==> Awake(ws, k) == k
  {
    if k > 0 {
      NoneAsleep(ws, k - 1);
    }
  }

  lemma TasksAppend(ds: seq<(int, int)>, d: (int, int))
    ensures Tasks(ds + [d]) == Tasks(ds) + [d.1]
  {
    assert (ds + [d])[..|ds|] == ds;
  }

  lemma LastTaskAppend(ds: seq<(int, int)>, d: (int, int), i: int)
    ensures LastTask(ds + [d], i) == if d.0 == i then Some(d.1) else LastTask(ds, i)
  {
    assert (ds + [d])[..|ds|] == ds;
  }

  lemma StepKeepsCarried(s: State, step: Step)
    requires Carried(s)
    ensures Carried(Apply(s, step))
  {
    if step.Take? && s.queue.items != [] {
      forall i | 0 <= i < |s.workers|
        ensures LastTask(s.dispatched + [(step.i, s.queue.items[0])], i) ==
                if i == step.i then Some(s.queue.items[0]) else LastTask(s.dispatched, i)
      {
        LastTaskAppend(s.dispatched, (step.i, s.queue.items[0]), i);
      }
    }
  }

  lemma StepKeepsExclusive(s: State, step: Step)
    requires Exclusive(s) && NeverEmpty(s)
    ensures Exclusive(Apply(s, step))
  {
  }

  lemma StepKeepsOrder(s: State, step: Step)
    requires Ordered(s) && s.queue.Fits()
    ensures Ordered(Apply(s, step)) && Apply(s, step).queue.Fits() && Apply(s, step).queue.capacity == s.queue.capacity
  {
    hide Tasks;
    var items, done := s.queue.items, Tasks(s.dispatched);
    if step.Take? && items != [] {
      TasksAppend(s.dispatched, (step.i, items[0]));
      assert done + items == (done + [items[0]]) + items[1..];
    } else if step.TryPush? && 0 <= step.j < |s.submitters| && s.submitters[step.j].Pushing? {
      assert (done + items) + [s.submitters[step.j].task] == done + (items + [s.submitters[step.j].task]);
    }
  }

  lemma StepKeepsTask(s: State, step: Step)
    requires Exclusive(s) && NeverEmpty(s)
    ensures NeverEmpty(Apply(s, step))
  {
  }

  /** A worker that does not fall asleep leaves enough workers awake. */
  lemma WorkerKeepsRoused(s: State, s': State, i: int, w: WorkerState)
    requires Roused(s) && 0 <= i < |s.workers| && s'.workers == s.workers[i := w] && !w.Asleep?
    requires |s'.queue.items| <= |s.queue.items| && (Unsignalled(s') <==> Unsignalled(s))
    ensures Roused(s')
  {
    hide Awake, Unsignalled;
    AwakeUpdate(s.workers, i, w, |s.workers|);
  }

  /** A worker step other than falling asleep leaves the signals to come as they were. */
  lemma WorkerStepKeepsRoused(s: State, step: Step)
    requires Exclusive(s) && Roused(s)
    requires step.Lock? || step.Test? || step.SpuriousWake? || step.Take? || step.Unlock? || step.Finish?
    requires step.Test? || step.Take? ==> s.queue.items != []
    ensures Roused(Apply(s, step))
  {
    hide Awake, Roused;
    var s' := Apply(s, step);
    if s' != s {
      assert 0 <= step.i < |s.workers|;
      WorkerKeepsRoused(s, s', step.i, s'.workers[step.i]);
    }
  }

  /** A push is owed a signal, and the signal wakes a sleeper if there is one. */
  lemma SignalKeepsRoused(s: State, step: Step)
    requires Exclusive(s) && Roused(s) && step.Signal?
    ensures Roused(Apply(s, step))
  {
    hide Awake;
    var s', n := Apply(s, step), |s.workers|;
    if s' != s {
      AwakeWake(s.workers, step.woken, n);
      NoneAsleep(s.workers, n);
      assert Unsignalled(s);
    }
  }

  lemma SubmitterKeepsRoused(s: State, step: Step)
    requires Exclusive(s) && Roused(s)
    requires step.Arrive? || step.SubmitLock? || step.TryPush? || step.SubmitUnlock?
    ensures Roused(Apply(s, step))
  {
    hide Awake;
    if step.TryPush? && Apply(s, step) != s {
      assert s.lock == Submitter(step.j) && Unsignalled(Apply(s, step));
    }
  }

  lemma StepKeepsRoused(s: State, step: Step)
    requires Exclusive(s) && NeverEmpty(s) && Roused(s)
    ensures Roused(Apply(s, step))
  {
    if step.Signal? {
      SignalKeepsRoused(s, step);
    } else if step.Arrive? || step.SubmitLock? || step.TryPush? || step.SubmitUnlock? {
      SubmitterKeepsRoused(s, step);
    } else if !(step.Test? || step.Take?) || s.queue.items != [] {
      WorkerStepKeepsRoused(s, step);
    } else {
      assert Apply(s, step).queue.items == [];
    }
  }

  lemma StepKeepsAll(s: State, step: Step)
    requires Inv(s)
    ensures Inv(Apply(s, step))
    ensures |Apply(s, step).workers| == |s.workers| && Apply(s, step).queue.capacity == s.queue.capacity
  {
    hide Exclusive, Ordered, NeverEmpty, Carried, Roused;
    StepKeepsExclusive(s, step);
    StepKeepsOrder(s, step);
    StepKeepsTask(s, step);
    StepKeepsCarried(s, step);
    StepKeepsRoused(s, step);
  }

  /** No lost wakeups and first-come first-served dispatch, over every interleaving. */
  lemma {:induction false} EveryRun(s: State, nthreads: nat, capacity: nat, steps: seq<Step>)
    requires Init(s, nthreads, capacity)
    ensures Inv(After(s, steps)) && |After(s, steps).workers| == nthreads && After(s, steps).queue.capacity == capacity
  {
    if steps == [] {
      NoneAsleep(s.workers, nthreads);
    } else {
      EveryRun(s, nthreads, capacity, steps[..|steps| - 1]);
      StepKeepsAll(After(s, steps[..|steps| - 1]), steps[|steps| - 1]);
    }
  }

  /** With the lock free, as many workers are up as there are tasks for them. */
  lemma NoLostWakeup(s: State, nthreads: nat, capacity: nat, steps: seq<Step>)
    requires Init(s, nthreads, capacity) && After(s, steps).lock == Nobody
    ensures Awake(After(s, steps).workers, |After(s, steps).workers|) >= Min(|After(s, steps).queue.items|, nthreads)
  {
    EveryRun(s, nthreads, capacity, steps);
  }

  /** Some worker among the first k is up. */
  lemma {:induction false} SomeoneUp(ws: seq<WorkerState>, k: nat) returns (i: nat)
    requires k <= |ws| && Awake(ws, k) > 0
    ensures i < k && !ws[i].Asleep?
  {
    if ws[k - 1].Asleep? {
      i := SomeoneUp(ws, k - 1);
    } else {
      i := k - 1;
    }
  }

  /**
   No queued task is stranded: in every reachable state with the lock free and a
   task queued, some worker can be the next to run and takes the oldest task.
   */
  lemma OldestTaskCanRun(s: State, nthreads: nat, capacity: nat, steps: seq<Step>) returns (i: nat)
    requires Init(s, nthreads, capacity) && nthreads >= 1
    requires After(s, steps).lock == Nobody && After(s, steps).queue.items != []
    ensures var s' := After(s, steps);
            i < nthreads && After(s', [Finish(i), Lock(i), Test(i), Take(i)]).dispatched ==
                            s'.dispatched + [(i, s'.queue.items[0])]
  {
    EveryRun(s, nthreads, capacity, steps);
    var s' := After(s, steps);
    i := SomeoneUp(s'.workers, |s'.workers|);
    var a := Apply(s', Finish(i));
    var b := Apply(a, Lock(i));
    var c := Apply(b, Test(i));
    assert c.workers[i] == Popping;
    FourSteps(s', Finish(i), Lock(i), Test(i), Take(i));
  }

  lemma FourSteps(s: State, a: Step, b: Step, c: Step, d: Step)
    ensures After(s, [a, b, c, d]) == Apply(Apply(Apply(Apply(s, a), b), c), d)
  {
    hide Apply;
    assert [a][..0] == [] && [a, b][..1] == [a] && [a, b, c][..2] == [a, b] && [a, b, c, d][..3] == [a, b, c];
    assert After(s, [a]) == Apply(s, a);
    assert After(s, [a, b]) == Apply(After(s, [a]), b);
    assert After(s, [a, b, c]) == Apply(After(s, [a, b]), c);
  }

  // ----- A submit completes exactly when the ring had room as it took the lock -----

  ghost predicate Retrying(s: State, j: int) {
    Exclusive(s) && NeverEmpty(s) && 0 <= j < |s.submitters| && s.submitters[j].Pushing?
  }

  /** While a submitter is in its retry loop nobody else changes the queue. */
  lemma RetryAlone(s: State, j: int, step: Step)
    requires Retrying(s, j)
    requires step == TryPush(j) ==> |s.queue.items| >= s.queue.capacity
    ensures var s' := Apply(s, step);
            Retrying(s', j) && s'.submitters[j] == s.submitters[j] && s'.queue == s.queue && s'.accepted == s.accepted
  {
    StepKeepsExclusive(s, step);
    StepKeepsTask(s, step);
  }

  /** On a full ring the submitter never leaves its loop, and no task moves again. */
  lemma {:induction false} FullNeverCompletes(s: State, j: int, steps: seq<Step>)
    requires Retrying(s, j) && |s.queue.items| >= s.queue.capacity
    ensures var s' := After(s, steps);
            Retrying(s', j) && s'.submitters[j] == s.submitters[j] && s'.queue == s.queue && s'.accepted == s.accepted
  {
    if steps != [] {
      FullNeverCompletes(s, j, steps[..|steps| - 1]);
      RetryAlone(After(s, steps[..|steps| - 1]), j, steps[|steps| - 1]);
    }
  }

  /** With room in the ring, whatever the others do, its next try is accepted as the next task. */
  lemma {:induction false} RoomCompletes(s: State, j: int, steps: seq<Step>)
    requires Retrying(s, j) && |s.queue.items| < s.queue.capacity
    requires TryPush(j) !in steps
    ensures var s' := After(s, steps + [TryPush(j)]);
            && s'.accepted == s.accepted + [s.submitters[j].task]
            && |s'.submitters| == |s.submitters| && s'.submitters[j] == Signalling
    ensures var s0 := After(s, steps);
            Retrying(s0, j) && s0.submitters[j] == s.submitters[j] && s0.queue == s.queue && s0.accepted == s.accepted
  {
    if steps != [] {
      RoomCompletes(s, j, steps[..|steps| - 1]);
      RetryAlone(After(s, steps[..|steps| - 1]), j, steps[|steps| - 1]);
    }
    assert (steps + [TryPush(j)])[..|steps|] == steps;
  }

  // ----- What is accepted is what arrived -----

  /** The task that a submitter has and has not pushed. */
  ghost function Held(u: SubmitState): seq<int> {
    match u
    case Waiting(t) => [t]
    case Pushing(t) => [t]
    case _ => []
  }

  /** The tasks with which submitter j was called, in order. */
  ghost function ArrivedAt(s: State, steps: seq<Step>, j: int): seq<int> {
    if steps == [] then []
    else
      var n := |steps| - 1;
      var before := After(s, steps[..n]);
      ArrivedAt(s, steps[..n], j) +
      if steps[n].Arrive? && steps[n].j == j && 0 <= j < |before.submitters| && before.submitters[j].Away?
      then [steps[n].task] else []
  }

  /** The tasks that were accepted when submitter j pushed, in order. */
  ghost function AcceptedFrom(s: State, steps: seq<Step>, j: int): seq<int> {
    if steps == [] then []
    else
      var n := |steps| - 1;
      var before, after := After(s, steps[..n]).accepted, After(s, steps).accepted;
      AcceptedFrom(s, steps[..n], j) +
      if steps[n] == TryPush(j) && |before| <= |after| then after[|before|..] else []
  }

  /** In every run the tasks with which a submitter was called are those accepted from it and the one it still has. */
  lemma {:induction false} AcceptedIsArrived(s: State, nthreads: nat, capacity: nat, steps: seq<Step>, j: int)
    requires Init(s, nthreads, capacity) && 0 <= j < |s.submitters|
    ensures |After(s, steps).submitters| == |s.submitters|
    ensures ArrivedAt(s, steps, j) == AcceptedFrom(s, steps, j) + Held(After(s, steps).submitters[j])
  {
    if steps != [] {
      var n := |steps| - 1;
      AcceptedIsArrived(s, nthreads, capacity, steps[..n], j);
      StepMovesTask(After(s, steps[..n]), steps[n], j);
      HeldMoves(ArrivedAt(s, steps[..n], j), AcceptedFrom(s, steps[..n], j), Held(After(s, steps[..n]).submitters[j]));
    }
  }

  lemma HeldMoves(arrived: seq<int>, accepted: seq<int>, held: seq<int>)
    requires arrived == accepted + held
    ensures arrived == (accepted + held) + [] && arrived + [] == accepted + held && accepted + [] == accepted
    ensures held == [] ==> forall t :: arrived + [t] == accepted + [t]
  {
  }

  /** One step moves a task from the call to the submitter and from there to the accepted ones, and in no other way. */
  lemma StepMovesTask(s: State, step: Step, j: int)
    requires 0 <= j < |s.submitters|
    ensures var s' := Apply(s, step);
            && |s'.submitters| == |s.submitters|
            && (if step == TryPush(j) && s'.accepted != s.accepted
                then s'.accepted == s.accepted + Held(s.submitters[j]) && |Held(s.submitters[j])| == 1 &&
                     Held(s'.submitters[j]) == []
                else if step.Arrive? && step.j == j && s.submitters[j].Away?
                then Held(s.submitters[j]) == [] && Held(s'.submitters[j]) == [step.task]
                else Held(s'.submitters[j]) == Held(s.submitters[j]))
            && (s'.accepted == s.accepted || step.TryPush?)
  {
  }

  /** A try to push is the bounded queue's push and a take its pop. */
  lemma QueueIsBounded(s: State, i: int, j: int)
    requires Inv(s)
    ensures 0 <= j < |s.submitters| && s.submitters[j].Pushing? ==>
              var s', t := Apply(s, TryPush(j)), s.submitters[j].task;
              var (q, reply) := s.queue.Step(Push(t));
              s'.queue == q && s'.accepted == s.accepted + (if reply == Pushed(true) then [t] else [])
    ensures 0 <= i < |s.workers| && s.workers[i].Popping? ==>
              var s' := Apply(s, Take(i));
              var (q, reply) := s.queue.Step(Pop);
              s'.queue == q && reply.item.Some? && s'.dispatched == s.dispatched + [(i, reply.item.value)] &&
              s'.workers[i] == Leaving(reply.item.value)
  {
  }
}
