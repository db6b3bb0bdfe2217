/**
 The sending side of the exchange, src/physical/m_shuffle_lower1.cpp: `execute`
 puts blocks and then one zero-count block into every bounded column, while the
 thread `send_route` goes round the columns and sends what it finds. A run is any
 sequence of steps of the two threads.
 */
module Exchange {
  import opened Fifo
  import opened Options
  import opened Tuples

  /** A block on the wire carries the running number that `tag` writes into it. */
  datatype Packet = Packet(body: Block, tag: nat)

  datatype Put = Put(column: nat, body: Block)

  datatype State = State(
    capacity: nat,                 // COLUMN_CON
    program: seq<Put>,             // what execute has still to put
    columns: seq<seq<Block>>,
    sent: seq<seq<Packet>>,
    cursor: nat,                   // the column send_route looks at next
    debugCount: nat,
    meetZero: nat,
    returned: bool
  )

  datatype Step = TryPut | TryGet

  /** One try of put by execute, or one get with its send by send_route. */
  function Apply(s: State, step: Step): State {
    match step
    case TryPut =>
      if s.program == [] then s
      else
        var p := s.program[0];
        if p.column < |s.columns| && |s.columns[p.column]| < s.capacity then
          s.(program := s.program[1..], columns := s.columns[p.column := s.columns[p.column] + [p.body]])
        else s
    case TryGet =>
      if s.returned || s.cursor >= |s.columns| || |s.sent| != |s.columns| then s
      else
        var i := s.cursor;
        var next := if i + 1 == |s.columns| then 0 else i + 1;
        if s.columns[i] == [] then s.(cursor := next)
        else
          var body := s.columns[i][0];
          var zeros := s.meetZero + if body == [] then 1 else 0;
          s.(columns := s.columns[i := s.columns[i][1..]],
             sent := s.sent[i := s.sent[i] + [Packet(body, s.debugCount + 1)]],
             debugCount := s.debugCount + 1, cursor := next, meetZero := zeros,
             returned := body == [] && zeros == |s.columns|)
  }

  ghost function After(s: State, steps: seq<Step>): State {
    if steps == [] then s else Apply(After(s, steps[..|steps| - 1]), steps[|steps| - 1])
  }

  /** What execute plans for column c: its data blocks and one end marker. */
  ghost function Planned(program: seq<Put>, c: nat): seq<Block> {
    if program == [] then []
    else (if program[0].column == c then [program[0].body] else []) + Planned(program[1..], c)
  }

  ghost function EndMarkers(from: nat, m: nat): seq<Put>
    requires from <= m
    decreases m - from
  {
    if from == m then [] else [Put(from, [])] + EndMarkers(from + 1, m)
  }

  /** Data for any columns in any order, then an end marker for every column. */
  ghost predicate Init(s: State, data: seq<Put>, m: nat) {
    && m >= 1 && s.capacity >= 1 && |s.columns| == |s.sent| == m
    && (forall k :: 0 <= k < |data| ==> data[k].column < m && data[k].body != [])
    && s.program == data + EndMarkers(0, m)
    && (forall c :: 0 <= c < m ==> s.columns[c] == [] && s.sent[c] == [])
    && s.cursor == s.debugCount == s.meetZero == 0 && !s.returned
  }

  ghost function Bodies(ps: seq<Packet>): seq<Block> {
    seq(|ps|, i requires 0 <= i < |ps| => ps[i].body)
  }

  /** Column c has passed on the plan in order: sent, then waiting, then still to be put. */
  ghost predicate InOrder(s: State, plan: seq<seq<Block>>, c: nat)
    requires c < |s.columns| == |s.sent| == |plan|
  {
    plan[c] == Bodies(s.sent[c]) + s.columns[c] + Planned(s.program, c)
  }

  /** The number of channels among the first k that have sent their end marker. */
  ghost function Ended(sent: seq<seq<Packet>>, k: nat): nat
    requires k <= |sent|
  {
    if k == 0 then 0
    else Ended(sent, k - 1) + if sent[k - 1] != [] && sent[k - 1][|sent[k - 1]| - 1].body == [] then 1 else 0
  }

  ghost predicate Inv(s: State, plan: seq<seq<Block>>) {
    && |s.columns| == |s.sent| == |plan| >= 1 && s.capacity >= 1 && s.cursor < |s.columns|
    && (forall c :: 0 <= c < |plan| ==> Closes(plan[c]) && InOrder(s, plan, c) && |s.columns[c]| <= s.capacity)
    && (forall k :: 0 <= k < |s.program| ==> s.program[k].column < |plan|)
    && s.meetZero == Ended(s.sent, |s.sent|)
    && (s.returned <==> s.meetZero == |s.sent|)
  }

  lemma {:induction false} EndedUpdate(sent: seq<seq<Packet>>, i: int, ps: seq<Packet>, k: nat)
    requires k <= |sent| && 0 <= i < |sent|
    ensures Ended(sent[i := ps], k) ==
            Ended(sent, k) + (if i < k && ps != [] && ps[|ps| - 1].body == [] then 1 else 0)
                           - (if i < k && sent[i] != [] && sent[i][|sent[i]| - 1].body == [] then 1 else 0)
  {
    if k > 0 {
      EndedUpdate(sent, i, ps, k - 1);
    }
  }

  lemma {:induction false} EndedCount(sent: seq<seq<Packet>>, k: nat)
    requires k <= |sent|
    ensures Ended(sent, k) <= k
    ensures Ended(sent, k) == k <==>
            forall i :: 0 <= i < k ==> sent[i] != [] && sent[i][|sent[i]| - 1].body == []
  {
    if k > 0 {
      EndedCount(sent, k - 1);
    }
  }

  lemma PutKeepsInv(s: State, plan: seq<seq<Block>>)
    requires Inv(s, plan)
    ensures Inv(Apply(s, TryPut), plan)
  {
    var s' := Apply(s, TryPut);
    if s'.program != s.program {
      forall c | 0 <= c < |plan|
        ensures InOrder(s', plan, c)
      {
        assert InOrder(s, plan, c);
      }
    }
  }

  /** A send takes the next block of the plan, and nothing follows an end marker. */
  lemma SendInOrder(s: State, plan: seq<seq<Block>>)
    requires Inv(s, plan) && s.columns[s.cursor] != []
    ensures var i, b := s.cursor, s.columns[s.cursor][0];
            Bodies(s.sent[i] + [Packet(b, s.debugCount + 1)]) == Bodies(s.sent[i]) + [b] <= plan[i]
    ensures var i := s.cursor; s.sent[i] != [] ==> s.sent[i][|s.sent[i]| - 1].body != []
  {
    var i, b := s.cursor, s.columns[s.cursor][0];
    var done := Bodies(s.sent[i]);
    assert InOrder(s, plan, i) && Closes(plan[i]);
    assert plan[i][|done|] == b;
    if s.sent[i] != [] {
      assert plan[i][|done| - 1] == s.sent[i][|done| - 1].body;
    }
  }

  lemma GetInOrder(s: State, plan: seq<seq<Block>>, c: nat)
    requires Inv(s, plan) && !s.returned && s.columns[s.cursor] != [] && c < |plan|
    ensures InOrder(Apply(s, TryGet), plan, c)
  {
    var i, b := s.cursor, s.columns[s.cursor][0];
    assert InOrder(s, plan, c);
    hide Planned, Ended, Closes;
    if c == i {
      SentOne(s.sent[i], Packet(b, s.debugCount + 1));
      var rest := s.columns[i][1..];
      assert s.columns[i] == [b] + rest;
      assert Bodies(s.sent[i]) + ([b] + rest) == (Bodies(s.sent[i]) + [b]) + rest;
    }
  }

  lemma SentOne(ps: seq<Packet>, p: Packet)
    ensures Bodies(ps + [p]) == Bodies(ps) + [p.body]
  {
  }

  lemma GetCounts(s: State, plan: seq<seq<Block>>)
    requires Inv(s, plan) && !s.returned && s.columns[s.cursor] != []
    ensures var s' := Apply(s, TryGet);
            s'.meetZero == Ended(s'.sent, |s'.sent|) && (s'.returned <==> s'.meetZero == |s'.sent|)
  {
    var s' := Apply(s, TryGet);
    SendInOrder(s, plan);
    hide InOrder, Closes;
    EndedUpdate(s.sent, s.cursor, s'.sent[s.cursor], |s.sent|);
    EndedCount(s.sent, |s.sent|);
  }

  lemma GetKeepsInv(s: State, plan: seq<seq<Block>>)
    requires Inv(s, plan)
    ensures Inv(Apply(s, TryGet), plan)
  {
    hide InOrder, Closes, Ended;
    var s', i := Apply(s, TryGet), s.cursor;
    if !s.returned && s.columns[i] != [] {
      GetCounts(s, plan);
      forall c | 0 <= c < |plan|
        ensures InOrder(s', plan, c)
      {
        GetInOrder(s, plan, c);
      }
    } else {
      forall c | 0 <= c < |plan|
        ensures InOrder(s', plan, c)
      {
        SameLanes(s, s', plan, c);
      }
    }
  }

  lemma SameLanes(s: State, s': State, plan: seq<seq<Block>>, c: nat)
    requires c < |s.columns| == |s.sent| == |plan| && InOrder(s, plan, c)
    requires s'.columns == s.columns && s'.sent == s.sent && s'.program == s.program
    ensures InOrder(s', plan, c)
  {
  }

  ghost function Plan(program: seq<Put>, m: nat): seq<seq<Block>> {
    seq(m, c requires 0 <= c < m => Planned(program, c))
  }

  lemma {:induction false} PlannedJoin(p: seq<Put>, q: seq<Put>, c: nat)
    ensures Planned(p + q, c) == Planned(p, c) + Planned(q, c)
  {
    if p == [] {
      assert p + q == q;
    } else {
      var head, rest, tail := if p[0].column == c then [p[0].body] else [], Planned(p[1..], c), Planned(q, c);
      PlannedJoin(p[1..], q, c);
      assert (p + q)[1..] == p[1..] + q && (p + q)[0] == p[0];
      assert head + (rest + tail) == (head + rest) + tail;
    }
  }

  lemma {:induction false} PlannedData(data: seq<Put>, c: nat)
    requires forall k :: 0 <= k < |data| ==> data[k].body != []
    ensures forall k :: 0 <= k < |Planned(data, c)| ==> Planned(data, c)[k] != []
  {
    if data != [] {
      PlannedData(data[1..], c);
    }
  }

  lemma {:induction false} PlannedEnd(from: nat, m: nat, c: nat)
    requires from <= m && c < m
    ensures Planned(EndMarkers(from, m), c) == if from <= c then [[]] else []
    ensures forall k :: 0 <= k < |EndMarkers(from, m)| ==> EndMarkers(from, m)[k].column < m
    decreases m - from
  {
    if from < m {
      PlannedEnd(from + 1, m, c);
      assert EndMarkers(from, m)[1..] == EndMarkers(from + 1, m);
    }
  }

  /** Every column's plan is its data closed by its one end marker. */
  lemma PlanCloses(data: seq<Put>, m: nat, c: nat)
    requires c < m && forall k :: 0 <= k < |data| ==> data[k].body != []
    ensures Planned(data + EndMarkers(0, m), c) == Planned(data, c) + [[]]
    ensures Closes(Planned(data + EndMarkers(0, m), c))
  {
    PlannedJoin(data, EndMarkers(0, m), c);
    PlannedData(data, c);
    PlannedEnd(0, m, c);
  }

  lemma InitInv(s: State, data: seq<Put>, m: nat)
    requires Init(s, data, m)
    ensures Inv(s, Plan(s.program, m))
  {
    var plan := Plan(s.program, m);
    forall c | 0 <= c < m
      ensures Closes(plan[c]) && InOrder(s, plan, c)
    {
      PlanCloses(data, m, c);
    }
    PlannedEnd(0, m, 0);
    EndedCount(s.sent, m);
    NothingEnded(s.sent, m);
  }

  lemma {:induction false} NothingEnded(sent: seq<seq<Packet>>, k: nat)
    requires k <= |sent| && forall c :: 0 <= c < |sent| ==> sent[c] == []
    ensures Ended(sent, k) == 0
  {
    if k > 0 {
      NothingEnded(sent, k - 1);
    }
  }

  lemma {:induction false} EveryRun(s: State, data: seq<Put>, m: nat, steps: seq<Step>)
    requires Init(s, data, m)
    ensures Inv(After(s, steps), Plan(s.program, m))
  {
    hide Inv, Init;
    if steps == [] {
      InitInv(s, data, m);
    } else {
      var before := After(s, steps[..|steps| - 1]);
      EveryRun(s, data, m, steps[..|steps| - 1]);
      PutKeepsInv(before, Plan(s.program, m));
      GetKeepsInv(before, Plan(s.program, m));
    }
  }

  /** Every channel has sent a prefix of its plan; send_route has returned when all of every plan is sent. */
  ghost predicate Sound(s: State, plan: seq<seq<Block>>) {
    && |s.sent| == |s.columns| == |plan|
    && (forall c :: 0 <= c < |plan| ==> Bodies(s.sent[c]) <= plan[c])
    && (s.returned <==> forall c :: 0 <= c < |plan| ==> Bodies(s.sent[c]) == plan[c])
    && (s.returned ==> forall c :: 0 <= c < |plan| ==> s.columns[c] == [] && Planned(s.program, c) == [])
  }

  lemma InvIsSound(s: State, plan: seq<seq<Block>>)
    requires Inv(s, plan)
    ensures Sound(s, plan)
  {
    hide InOrder, Closes, Planned, Bodies;
    EndedCount(s.sent, |s.sent|);
    forall c | 0 <= c < |plan|
      ensures Bodies(s.sent[c]) <= plan[c]
      ensures Bodies(s.sent[c]) == plan[c] <==> s.sent[c] != [] && s.sent[c][|s.sent[c]| - 1].body == []
      ensures Bodies(s.sent[c]) == plan[c] ==> s.columns[c] == [] && Planned(s.program, c) == []
    {
      WholePlan(s, plan, c);
    }
  }

  /**
   Over every interleaving each channel has sent a prefix of its plan, and
   send_route has returned exactly when every channel has sent all of it, the end
   marker last.
   */
  lemma SendRouteSound(s: State, data: seq<Put>, m: nat, steps: seq<Step>)
    requires Init(s, data, m)
    ensures Sound(After(s, steps), Plan(s.program, m))
    ensures forall c :: 0 <= c < m ==> Plan(s.program, m)[c] == Planned(data, c) + [[]]
  {
    EveryRun(s, data, m, steps);
    InvIsSound(After(s, steps), Plan(s.program, m));
    forall c | 0 <= c < m
      ensures Plan(s.program, m)[c] == Planned(data, c) + [[]]
    {
      PlanCloses(data, m, c);
    }
  }

  lemma WholePlan(s: State, plan: seq<seq<Block>>, c: nat)
    requires Inv(s, plan) && c < |plan|
    ensures var b := Bodies(s.sent[c]);
            && b <= plan[c]
            && (b == plan[c] <==> s.sent[c] != [] && s.sent[c][|s.sent[c]| - 1].body == [])
            && (b == plan[c] ==> s.columns[c] == [] && Planned(s.program, c) == [])
  {
    var b := Bodies(s.sent[c]);
    assert InOrder(s, plan, c) && Closes(plan[c]);
    if b != [] {
      assert plan[c][|b| - 1] == b[|b| - 1] == s.sent[c][|b| - 1].body;
    }
  }

  /** Until send_route returns, some column has a block for it or execute has room for its next put. */
  lemma Alive(s: State, plan: seq<seq<Block>>)
    requires Inv(s, plan) && !s.returned
    ensures (exists c :: 0 <= c < |s.columns| && s.columns[c] != []) || Apply(s, TryPut) != s
  {
    InvIsSound(s, plan);
    assert forall c :: 0 <= c < |plan| ==> InOrder(s, plan, c);
  }

  // ----- Under any fair schedule send_route returns -----

  ghost function Queued(columns: seq<seq<Block>>): nat {
    if columns == [] then 0 else Queued(columns[..|columns| - 1]) + |columns[|columns| - 1]|
  }

  lemma {:induction false} QueuedUpdate(columns: seq<seq<Block>>, i: int, c: seq<Block>)
    requires 0 <= i < |columns|
    ensures Queued(columns[i := c]) == Queued(columns) - |columns[i]| + |c|
  {
    var n := |columns| - 1;
    if i == n {
      assert columns[i := c][..n] == columns[..n];
    } else {
      QueuedUpdate(columns[..n], i, c);
      assert columns[i := c][..n] == columns[..n][i := c];
    }
  }

  /** How much is left to do: two moves for a block still to be put, one for a queued block. */
  ghost function Work(s: State): nat {
    2 * |s.program| + Queued(s.columns)
  }

  ghost function Gets(steps: seq<Step>): nat {
    if steps == [] then 0 else Gets(steps[..|steps| - 1]) + if steps[|steps| - 1].TryGet? then 1 else 0
  }

  /** How many gets it takes until send_route looks at column c. */
  ghost function Distance(s: State, c: nat): int {
    if c >= s.cursor then c - s.cursor else c + |s.columns| - s.cursor
  }

  /** Only the cursor differs. */
  ghost predicate SameButCursor(s: State, s': State) {
    s' == s.(cursor := s'.cursor)
  }

  /** A step does work or at most moves the cursor past an empty column. */
  lemma StepWorks(s: State, plan: seq<seq<Block>>, step: Step)
    requires Inv(s, plan)
    ensures var s' := Apply(s, step);
            && |s.columns| == |s'.columns| == |plan|
            && (s.returned ==> s'.returned)
            && Work(s') <= Work(s)
            && (Work(s') == Work(s) ==> SameButCursor(s, s'))
            && (Work(s') == Work(s) && step.TryPut? ==> s' == s)
            && (Work(s') == Work(s) && step.TryGet? && !s.returned ==>
                  s.columns[s.cursor] == [] &&
                  forall c: nat :: c < |plan| && c != s.cursor ==> Distance(s', c) == Distance(s, c) - 1)
  {
    if step.TryPut? && s.program != [] {
      var p := s.program[0];
      QueuedUpdate(s.columns, p.column, s.columns[p.column] + [p.body]);
    }
    if step.TryGet? && s.columns[s.cursor] != [] {
      QueuedUpdate(s.columns, s.cursor, s.columns[s.cursor][1..]);
    }
  }

  /**
   From s to s' the work did not grow; if it stayed the same, `gets` gets have only
   moved the cursor towards every column with a block, and no put was possible if
   one was tried.
   */
  ghost predicate Stretch(s: State, s': State, plan: seq<seq<Block>>, gets: nat, tried: bool) {
    && Inv(s', plan) && (s.returned ==> s'.returned) && Work(s') <= Work(s)
    && (Work(s') == Work(s) ==> SameButCursor(s, s'))
    && (Work(s') == Work(s) && tried ==> Apply(s, TryPut) == s)
    && (Work(s') == Work(s) && !s'.returned ==>
          forall c: nat :: c < |s.columns| && s.columns[c] != [] ==> Distance(s', c) == Distance(s, c) - gets)
  }

  lemma StretchStep(s: State, before: State, plan: seq<seq<Block>>, gets: nat, tried: bool, step: Step)
    requires Inv(s, plan) && Stretch(s, before, plan, gets, tried)
    ensures Stretch(s, Apply(before, step), plan, gets + if step.TryGet? then 1 else 0, tried || step.TryPut?)
  {
    hide Inv, Work, Apply, Distance;
    PutKeepsInv(before, plan);
    GetKeepsInv(before, plan);
    StepWorks(before, plan, step);
    var s' := Apply(before, step);
    if Work(s') == Work(s) && step.TryPut? {
      PutIgnoresCursor(s, before);
    }
    if Work(s') == Work(s) && !s'.returned {
      forall c: nat | c < |s.columns| && s.columns[c] != []
        ensures Distance(s', c) == Distance(s, c) - (gets + if step.TryGet? then 1 else 0)
      {
        assert Distance(before, c) == Distance(s, c) - gets;
      }
    }
  }

  lemma {:induction false} IdleStretch(s: State, plan: seq<seq<Block>>, steps: seq<Step>)
    requires Inv(s, plan)
    ensures Stretch(s, After(s, steps), plan, Gets(steps), TryPut in steps)
  {
    hide Inv, Work, Apply, Distance;
    if steps != [] {
      var init, last := steps[..|steps| - 1], steps[|steps| - 1];
      IdleStretch(s, plan, init);
      assert steps == init + [last];
      StretchStep(s, After(s, init), plan, Gets(init), TryPut in init, last);
    }
  }

  lemma PutIgnoresCursor(s: State, s': State)
    requires SameButCursor(s, s') && Apply(s', TryPut) == s'
    ensures Apply(s, TryPut) == s
  {
  }

  /** A stretch in which execute tries at least one put and send_route at least one round of gets. */
  ghost predicate Fair(steps: seq<Step>, m: nat) {
    TryPut in steps && Gets(steps) >= m
  }

  /** Every fair stretch does some work, unless send_route has returned. */
  lemma FairStretchWorks(s: State, plan: seq<seq<Block>>, steps: seq<Step>)
    requires Inv(s, plan) && Fair(steps, |plan|)
    ensures var s' := After(s, steps);
            Inv(s', plan) && (s'.returned || Work(s') < Work(s)) && (s.returned ==> s'.returned)
  {
    IdleStretch(s, plan, steps);
    var s' := After(s, steps);
    if !s'.returned {
      Alive(s, plan);
      assert forall c: nat :: c < |plan| ==> Distance(s, c) < |plan| && Distance(s', c) >= 0;
    }
  }

  ghost function AfterAll(s: State, stretches: seq<seq<Step>>): State {
    if stretches == [] then s else After(AfterAll(s, stretches[..|stretches| - 1]), stretches[|stretches| - 1])
  }

  lemma {:induction false} FairStretches(s: State, plan: seq<seq<Block>>, stretches: seq<seq<Step>>)
    requires Inv(s, plan) && forall k :: 0 <= k < |stretches| ==> Fair(stretches[k], |plan|)
    ensures var s' := AfterAll(s, stretches);
            Inv(s', plan) && (s'.returned || Work(s') + |stretches| <= Work(s))
  {
    if stretches != [] {
      var n := |stretches| - 1;
      FairStretches(s, plan, stretches[..n]);
      FairStretchWorks(AfterAll(s, stretches[..n]), plan, stretches[n]);
    }
  }

  /**
   However the steps interleave, after a bounded number of fair stretches, two for
   every block that execute puts and for every end marker, send_route has returned
   with everything sent.
   */
  lemma FairRunReturns(s: State, data: seq<Put>, m: nat, stretches: seq<seq<Step>>)
    requires Init(s, data, m)
    requires forall k :: 0 <= k < |stretches| ==> Fair(stretches[k], m)
    requires |stretches| > 2 * (|data| + m)
    ensures AfterAll(s, stretches).returned && Sound(AfterAll(s, stretches), Plan(s.program, m))
  {
    var plan := Plan(s.program, m);
    InitInv(s, data, m);
    FairStretches(s, plan, stretches);
    InvIsSound(AfterAll(s, stretches), plan);
    NothingQueued(s.columns);
    EndMarkerCount(0, m);
  }

  lemma {:induction false} NothingQueued(columns: seq<seq<Block>>)
    requires forall c :: 0 <= c < |columns| ==> columns[c] == []
    ensures Queued(columns) == 0
  {
    if columns != [] {
      NothingQueued(columns[..|columns| - 1]);
    }
  }

  lemma {:induction false} EndMarkerCount(from: nat, m: nat)
    requires from <= m
    ensures |EndMarkers(from, m)| == m - from
    decreases m - from
  {
    if from < m {
      EndMarkerCount(from + 1, m);
    }
  }

  // ----- The columns are bounded queues, looked at in turn -----

  /** A put is the bounded queue's push on its column and a get its pop on the column looked at. */
  lemma ColumnsAreQueues(s: State, plan: seq<seq<Block>>)
    requires Inv(s, plan)
    ensures s.program != [] ==>
              var p, s' := s.program[0], Apply(s, TryPut);
              var (q, reply) := Bounded(s.capacity, s.columns[p.column]).Step(Push(p.body));
              && s'.columns == s.columns[p.column := q.items]
              && s'.program == (if reply == Pushed(true) then s.program[1..] else s.program)
    ensures !s.returned ==>
              var i, s' := s.cursor, Apply(s, TryGet);
              var (q, reply) := Bounded(s.capacity, s.columns[i]).Step(Pop);
              && s'.columns == s.columns[i := q.items] && |s'.sent| == |s.sent|
              && Bodies(s'.sent[i]) == Bodies(s.sent[i]) + (if reply.item.Some? then [reply.item.value] else [])
              && forall c :: 0 <= c < |s.sent| && c != i ==> s'.sent[c] == s.sent[c]
  {
    if !s.returned && s.columns[s.cursor] != [] {
      SentOne(s.sent[s.cursor], Packet(s.columns[s.cursor][0], s.debugCount + 1));
    }
  }

  /** Until it returns, send_route looks at the columns in turn, one with every get. */
  lemma {:induction false} CursorGoesRound(s: State, steps: seq<Step>) returns (rounds: nat)
    requires |s.columns| == |s.sent| >= 1 && s.cursor < |s.columns| && !After(s, steps).returned
    ensures var s', m := After(s, steps), |s.columns|;
            |s'.columns| == |s'.sent| == m && s'.cursor < m && s.cursor + Gets(steps) == rounds * m + s'.cursor
  {
    if steps == [] {
      rounds := 0;
    } else {
      rounds := CursorGoesRound(s, steps[..|steps| - 1]);
      var m := |s.columns|;
      assert (rounds + 1) * m == rounds * m + m;
      if steps[|steps| - 1].TryGet? && After(s, steps).cursor == 0 {
        rounds := rounds + 1;
      }
    }
  }

  // ----- The running numbers in the packets -----

  ghost predicate HasTag(sent: seq<seq<Packet>>, t: int) {
    exists c, i :: 0 <= c < |sent| && 0 <= i < |sent[c]| && sent[c][i].tag == t
  }

  ghost predicate TagsUpTo(sent: seq<seq<Packet>>, count: nat) {
    forall c, i :: 0 <= c < |sent| && 0 <= i < |sent[c]| ==> 1 <= sent[c][i].tag <= count
  }

  ghost predicate TagsRise(sent: seq<seq<Packet>>) {
    forall c, i, j :: 0 <= c < |sent| && 0 <= i < j < |sent[c]| ==> sent[c][i].tag < sent[c][j].tag
  }

  ghost predicate TagsApart(sent: seq<seq<Packet>>) {
    forall c, c', i, j :: 0 <= c < c' < |sent| && 0 <= i < |sent[c]| && 0 <= j < |sent[c']| ==>
      sent[c][i].tag != sent[c'][j].tag
  }

  ghost predicate TagsComplete(sent: seq<seq<Packet>>, count: nat) {
    forall t :: 1 <= t <= count ==> HasTag(sent, t)
  }

  /** The tags of all channels together are 1..count, each once, and they rise within a channel. */
  ghost predicate Tagged(sent: seq<seq<Packet>>, count: nat) {
    TagsUpTo(sent, count) && TagsRise(sent) && TagsApart(sent) && TagsComplete(sent, count)
  }

  /** One more packet, with the next number. */
  lemma TagOne(sent: seq<seq<Packet>>, count: nat, c: nat, p: Packet)
    requires Tagged(sent, count) && c < |sent| && p.tag == count + 1
    ensures Tagged(sent[c := sent[c] + [p]], count + 1)
  {
    var ps := sent[c] + [p];
    assert forall i :: 0 <= i < |sent[c]| ==> ps[i] == sent[c][i];
    NewTagUpTo(sent, count, c, ps);
    NewTagApart(sent, count, c, ps);
    NewTagComplete(sent, count, c, ps);
  }

  lemma NewTagUpTo(sent: seq<seq<Packet>>, count: nat, c: nat, ps: seq<Packet>)
    requires TagsUpTo(sent, count) && TagsRise(sent) && c < |sent| && |ps| == |sent[c]| + 1
    requires (forall i :: 0 <= i < |sent[c]| ==> ps[i] == sent[c][i]) && ps[|sent[c]|].tag == count + 1
    ensures TagsUpTo(sent[c := ps], count + 1) && TagsRise(sent[c := ps])
  {
  }

  lemma NewTagApart(sent: seq<seq<Packet>>, count: nat, c: nat, ps: seq<Packet>)
    requires TagsUpTo(sent, count) && TagsApart(sent) && c < |sent| && |ps| == |sent[c]| + 1
    requires (forall i :: 0 <= i < |sent[c]| ==> ps[i] == sent[c][i]) && ps[|sent[c]|].tag == count + 1
    ensures TagsApart(sent[c := ps])
  {
  }

  lemma NewTagComplete(sent: seq<seq<Packet>>, count: nat, c: nat, ps: seq<Packet>)
    requires TagsComplete(sent, count) && c < |sent| && |ps| == |sent[c]| + 1
    requires (forall i :: 0 <= i < |sent[c]| ==> ps[i] == sent[c][i]) && ps[|sent[c]|].tag == count + 1
    ensures TagsComplete(sent[c := ps], count + 1)
  {
    var sent' := sent[c := ps];
    assert sent'[c] == ps;
    forall t | 1 <= t <= count
      ensures HasTag(sent', t)
    {
      assert HasTag(sent, t);
      var d, i :| 0 <= d < |sent| && 0 <= i < |sent[d]| && sent[d][i].tag == t;
      assert sent'[d][i] == sent[d][i];
    }
  }

  /** Over every interleaving the packets of all channels are numbered without gap or repetition. */
  lemma {:induction false} EveryRunTagged(s: State, data: seq<Put>, m: nat, steps: seq<Step>)
    requires Init(s, data, m)
    ensures Tagged(After(s, steps).sent, After(s, steps).debugCount)
  {
    if steps != [] {
      var before := After(s, steps[..|steps| - 1]);
      EveryRunTagged(s, data, m, steps[..|steps| - 1]);
      hide Tagged;
      var after := Apply(before, steps[|steps| - 1]);
      if after.debugCount != before.debugCount {
        var i := before.cursor;
        TagOne(before.sent, before.debugCount, i, Packet(before.columns[i][0], before.debugCount + 1));
      }
    }
  }
}
