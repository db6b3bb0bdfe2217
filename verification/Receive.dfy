/**
 The receiving loop `Merger::m_receive_select1` of src/common/m_merger.cpp: blocks
 from n senders go into n columns, one pending block per sender, until the end
 marker of every sender is in its column.
 */
module Receive {
  import opened Finite
  import opened Options
  import opened Tuples

  /** What one turn of the outer loop meets: the descriptors select reports, and the results of put, pass by pass. */
  datatype Round = Round(ready: set<int>, passes: seq<seq<bool>>)

  ghost function CountTrue(s: seq<bool>): nat {
    if s == [] then 0 else CountTrue(s[..|s| - 1]) + if s[|s| - 1] then 1 else 0
  }

  lemma {:induction false} CountBounds(s: seq<bool>)
    ensures CountTrue(s) <= |s|
    ensures CountTrue(s) == |s| <==> forall i :: 0 <= i < |s| ==> s[i]
  {
    if s != [] {
      CountBounds(s[..|s| - 1]);
    }
  }

  lemma {:induction false} CountSet(s: seq<bool>, i: int)
    requires 0 <= i < |s| && !s[i]
    ensures CountTrue(s[i := true]) == CountTrue(s) + 1
  {
    var n := |s| - 1;
    if i == n {
      assert s[i := true][..n] == s[..n];
    } else {
      CountSet(s[..n], i);
      assert s[i := true][..n] == s[..n][i := true];
    }
  }

  /** One sender: what it sent, what is still on the wire, what waits here, and what its column got. */
  datatype Lane = Lane(sent: seq<Block>, wire: seq<Block>, pending: Option<Block>, finished: bool, column: seq<Block>) {
    /** Nothing is lost, repeated or reordered. */
    ghost predicate Lossless() {
      sent == column + (if pending.Some? && !finished then [pending.value] else []) + wire
    }

    /** The end marker is the last block of the column exactly when the sender is marked finished. */
    ghost predicate Ended() {
      && (finished <==> column != [] && column[|column| - 1] == [])
      && forall k :: 0 <= k < |column| - 1 ==> column[k] != []
    }

    ghost predicate Ok() {
      Lossless() && Ended()
    }

    /** Everything up to the end marker has arrived. */
    ghost predicate Complete() {
      finished && sent == column + wire && column != [] && column[|column| - 1] == []
    }

    function Received(): Lane
      requires wire != []
    {
      this.(pending := Some(wire[0]), wire := wire[1..])
    }

    function Delivered(): Lane
      requires pending.Some?
    {
      if pending.value == [] then this.(column := column + [pending.value], finished := true)
      else this.(column := column + [pending.value], pending := None)
    }

    /** What one offer to put does to the lane. */
    function Offered(ok: bool): Lane {
      if ok && pending.Some? && !finished then Delivered() else this
    }

    /** A block waits to be put. */
    predicate Waits() {
      pending.Some? && !finished
    }

    /** The waiting block is not the end marker. */
    predicate HasData() {
      Waits() && pending.value != []
    }

    /** The slot is empty and the sender may still send. */
    predicate Idle() {
      pending.None? && !finished
    }

    /** The column grew by exactly the block that was pending, and is finished if that was the end marker. */
    ghost predicate Grew(was: Lane) {
      && was.Waits()
      && column == was.column + [was.pending.value] && wire == was.wire && sent == was.sent
      && (finished <==> was.pending.value == []) && (!finished ==> pending.None?)
    }

    /** A put that is not granted changes nothing; one that is moves the pending block, if there is one. */
    lemma OfferedMeans(ok: bool)
      ensures !ok ==> Offered(ok) == this
      ensures ok && Waits() ==> Offered(ok).Grew(this)
      ensures !Waits() ==> Offered(ok) == this
    {
    }

    lemma ReceivedOk()
      requires Ok() && wire != [] && pending.None? && !finished
      ensures Received().Ok()
    {
      assert wire == [wire[0]] + wire[1..];
    }

    /** A sender whose end marker has not been put and whose slot is empty still has a block on the wire. */
    lemma MoreToCome()
      requires Ok() && Idle() && [] in sent
      ensures wire != []
    {
      assert [] !in column;
    }

    lemma DeliveredOk()
      requires Ok() && pending.Some? && !finished
      ensures Delivered().Ok()
    {
    }
  }

  /** Blocks that are still on the wire. */
  ghost function OnWire(lanes: seq<Lane>): nat {
    if lanes == [] then 0 else OnWire(lanes[..|lanes| - 1]) + |lanes[|lanes| - 1].wire|
  }

  /** No lane got longer; if one got shorter, so did the total. */
  lemma {:induction false} OnWireFalls(lanes: seq<Lane>, lanes': seq<Lane>)
    requires |lanes| == |lanes'| && forall i :: 0 <= i < |lanes| ==> |lanes'[i].wire| <= |lanes[i].wire|
    ensures OnWire(lanes') <= OnWire(lanes)
    ensures (exists i :: 0 <= i < |lanes| && |lanes'[i].wire| < |lanes[i].wire|) ==> OnWire(lanes') < OnWire(lanes)
  {
    if lanes != [] {
      OnWireFalls(lanes[..|lanes| - 1], lanes'[..|lanes| - 1]);
    }
  }

  lemma {:induction false} SomethingOnWire(lanes: seq<Lane>, i: nat)
    requires i < |lanes| && lanes[i].wire != []
    ensures OnWire(lanes) >= 1
  {
    if i < |lanes| - 1 {
      SomethingOnWire(lanes[..|lanes| - 1], i);
    }
  }

  /** All blocks of all streams. */
  ghost function Blocks(streams: seq<seq<Block>>): nat {
    if streams == [] then 0 else Blocks(streams[..|streams| - 1]) + |streams[|streams| - 1]|
  }

  lemma {:induction false} AllOnWire(lanes: seq<Lane>, streams: seq<seq<Block>>)
    requires |lanes| == |streams| && forall i :: 0 <= i < |lanes| ==> lanes[i].wire == streams[i]
    ensures OnWire(lanes) == Blocks(streams)
  {
    if lanes != [] {
      AllOnWire(lanes[..|lanes| - 1], streams[..|lanes| - 1]);
    }
  }

  /** A pass in which column i has room. */
  ghost predicate Grants(oks: seq<bool>, i: int) {
    0 <= i < |oks| && oks[i]
  }

  /** Every column has room in some pass of the round. */
  ghost predicate Roomy(round: Round, n: nat) {
    forall i :: 0 <= i < n ==> RoomFor(round, i)
  }

  ghost predicate RoomFor(round: Round, i: int) {
    exists p :: 0 <= p < |round.passes| && Grants(round.passes[p], i)
  }

  /** Column i had room in one of the first k passes. */
  ghost predicate Granted(round: Round, i: int, k: int)
    requires 0 <= k <= |round.passes|
  {
    exists p :: 0 <= p < k && Grants(round.passes[p], i)
  }

  /** Column i never has room in the rounds. */
  ghost predicate NeverGranted(script: seq<Round>, i: int) {
    forall r :: 0 <= r < |script| ==> !RoomFor(script[r], i)
  }

  lemma NoneGranted(script: seq<Round>, r: nat, k: nat)
    requires r < |script| && k <= |script[r].passes|
    ensures forall i :: NeverGranted(script, i) ==> !Granted(script[r], i, k)
  {
    forall i | NeverGranted(script, i)
      ensures !Granted(script[r], i, k)
    {
      assert !RoomFor(script[r], i);
    }
  }

  /** Sender i is ready in some round. */
  ghost predicate Heard(script: seq<Round>, i: int) {
    exists r :: 0 <= r < |script| && i in script[r].ready
  }

  /** Every sender is ready at least once, and no round ends before every column has had room. */
  ghost predicate Fair(script: seq<Round>, n: nat) {
    && (forall i :: 0 <= i < n ==> Heard(script, i))
    && forall r :: 0 <= r < |script| ==> Roomy(script[r], n)
  }

  /** Every stream has its end marker. */
  ghost predicate Ending(streams: seq<seq<Block>>) {
    forall i :: 0 <= i < |streams| ==> [] in streams[i]
  }

  /** What some passes did to a lane, given whether one of them was granted to it. */
  ghost predicate Progress(was: Lane, now: Lane, granted: bool) {
    if was.Waits() && granted then now.Grew(was) else now == was
  }

  /** A lane that a pass freed ends the passes, so a further one finds it waiting still or finished. */
  lemma ProgressStep(was: Lane, mid: Lane, now: Lane, round: Round, i: int, p: int)
    requires 0 <= p < |round.passes| && Progress(was, mid, Granted(round, i, p))
    requires p > 0 ==> !mid.Idle()
    requires !Grants(round.passes[p], i) ==> now == mid
    requires Grants(round.passes[p], i) ==> if mid.Waits() then now.Grew(mid) else now == mid
    ensures Progress(was, now, Granted(round, i, p + 1))
  {
    assert Granted(round, i, p + 1) <==> Granted(round, i, p) || Grants(round.passes[p], i);
  }

  class Merger {
    const n: nat
    var lanes: seq<Lane>
    var fds: set<int>
    var meetZero: nat

    ghost predicate Consistent()
      reads this
    {
      && |lanes| == n
      && (forall i :: 0 <= i < n ==> lanes[i].Ok())
      && meetZero == CountTrue(Finishes(lanes))
    }

    /** Only senders with an empty slot are listened to. */
    ghost predicate Listening()
      reads this
    {
      forall i :: i in fds ==> 0 <= i < |lanes| && lanes[i].pending.None? && !lanes[i].finished
    }

    /** The streams are the ones the object was made for. */
    ghost predicate Serves(streams: seq<seq<Block>>)
      reads this
    {
      |streams| == |lanes| && forall i :: 0 <= i < |lanes| ==> lanes[i].sent == streams[i]
    }

    /** Exactly the senders with an empty slot are listened to, and there is one. */
    ghost predicate Attentive()
      reads this
    {
      fds != {} && |lanes| == n && forall i :: 0 <= i < n ==> (i in fds <==> lanes[i].Idle())
    }

    constructor (streams: seq<seq<Block>>)
      ensures (n > 0 ==> Attentive()) && OnWire(lanes) == Blocks(streams)
      ensures Consistent() && Listening() && Serves(streams) && n == |streams| && Open()
      ensures forall i :: 0 <= i < n ==> i in fds && lanes[i].wire == streams[i] && lanes[i].column == []
    {
      n := |streams|;
      lanes := seq(|streams|, i requires 0 <= i < |streams| => Lane(streams[i], streams[i], None, false, []));
      fds, meetZero := {}, 0;
      new;
      hide CountTrue, Finishes, OnWire, Blocks;
      for i := 0 to n
        modifies this`fds
        invariant forall k :: k in fds <==> 0 <= k < i
      {
        fds := fds + {i};
      }
      NoneFinished(lanes);
      assert n > 0 ==> 0 in fds;
      AllOnWire(lanes, streams);
    }

    /** The loop has not returned: some sender is not finished. */
    ghost predicate Open()
      reads this
    {
      meetZero < n || n == 0
    }

    /** Lines 241-249: a block from every ready sender goes into its slot, which is empty. */
    method ReceiveReady(ready: set<int>, ghost streams: seq<seq<Block>>)
      requires Consistent() && Listening() && Serves(streams)
      modifies this`lanes
      ensures Consistent() && Serves(streams)
      ensures forall i :: 0 <= i < n ==>
                lanes[i] == if i in ready && i in fds && old(lanes)[i].wire != [] then old(lanes)[i].Received()
                            else old(lanes)[i]
    {
      hide Lane.Ok, CountTrue, Finishes;
      for i := 0 to n
        invariant Consistent() && Serves(streams)
        invariant forall k :: 0 <= k < n ==>
                    lanes[k] == if k < i && k in ready && k in fds && old(lanes)[k].wire != []
                                then old(lanes)[k].Received() else old(lanes)[k]
      {
        if i in ready && i in fds && lanes[i].wire != [] {
          lanes[i].ReceivedOk();
          SameFinishes(lanes, i, lanes[i].Received());
          lanes := lanes[i := lanes[i].Received()];
        }
      }
    }

    /** Lines 262-275: one put; a block that went through frees its slot or finishes its sender. */
    method Deliver(i: int, ghost streams: seq<seq<Block>>) returns (more: bool)
      requires Consistent() && Listening() && Serves(streams) && 0 <= i < n
      requires lanes[i].pending.Some? && !lanes[i].finished
      modifies this
      ensures Consistent() && Listening() && Serves(streams)
      ensures lanes == old(lanes)[i := old(lanes)[i].Delivered()]
      ensures more == lanes[i].Idle()
      ensures more ==> fds == old(fds) + {i} && meetZero == old(meetZero)
      ensures !more ==> fds == old(fds) && meetZero == old(meetZero) + 1
    {
      hide Lane.Ok, CountTrue, Finishes;
      var lane := lanes[i];
      lane.DeliveredOk();
      lanes := lanes[i := lane.Delivered()];
      if lane.pending.value == [] {
        OneMoreFinished(old(lanes), i, lane.Delivered());
        meetZero := meetZero + 1;
        more := false;
      } else {
        SameFinishes(old(lanes), i, lane.Delivered());
        fds := fds + {i};
        more := true;
      }
    }

    /** Lines 256-280: one sender of a pass; true when its slot is empty and it is listened to again. */
    method Offer(i: int, ok: bool, ghost streams: seq<seq<Block>>) returns (free: bool)
      requires Consistent() && Listening() && Serves(streams) && 0 <= i < n
      modifies this
      ensures Consistent() && Listening() && Serves(streams)
      ensures lanes == old(lanes)[i := old(lanes)[i].Offered(ok)]
      ensures if ok && old(lanes)[i].Waits() then lanes[i].Grew(old(lanes)[i]) else lanes == old(lanes)
      ensures free == lanes[i].Idle() && fds == old(fds) + if free then {i} else {}
      ensures meetZero == old(meetZero) + if lanes[i].finished && !old(lanes)[i].finished then 1 else 0
    {
      hide Lane.Ok, CountTrue, Finishes;
      if lanes[i].finished {
        return false;
      }
      if lanes[i].pending.Some? {
        if ok {
          free := Deliver(i, streams);
        } else {
          free := false;
        }
      } else {
        fds := fds + {i};
        free := true;
      }
    }

    /**
     Lines 255-281: one pass over the senders; the results of put are given.
     Afterwards exactly the senders with an empty slot are listened to.
     */
    method Pass(oks: seq<bool>, ghost streams: seq<seq<Block>>) returns (countA: nat, returned: bool)
      requires Consistent() && Listening() && Serves(streams) && Open()
      modifies this
      ensures Consistent() && Listening() && Serves(streams)
      ensures returned <==> !Open()
      ensures forall i :: 0 <= i < n && !Grants(oks, i) ==> lanes[i] == old(lanes)[i]
      ensures forall i :: 0 <= i < n && Grants(oks, i) ==>
                if old(lanes)[i].Waits() then lanes[i].Grew(old(lanes)[i]) else lanes[i] == old(lanes)[i]
      ensures !returned ==> forall i :: 0 <= i < n && lanes[i].Idle() ==> i in fds
      ensures !returned && countA != 0 ==> fds != {}
      ensures !returned && (exists i :: 0 <= i < n && lanes[i].Idle()) ==> countA != 0
    {
      hide Lane.Ok, Lane.Offered, CountTrue, Finishes;
      countA := 0;
      for i := 0 to n
        invariant Consistent() && Listening() && Serves(streams) && Open()
        invariant forall k :: 0 <= k < n ==>
                    lanes[k] == if k < i then old(lanes)[k].Offered(k < |oks| && oks[k]) else old(lanes)[k]
        invariant forall k :: 0 <= k < i && lanes[k].Idle() ==> k in fds && countA != 0
        invariant countA != 0 ==> fds != {}
      {
        var free := Offer(i, i < |oks| && oks[i], streams);
        if free {
          countA := countA + 1;
        } else if meetZero == n {
          NothingToOffer(lanes, old(lanes), i, oks);
          OfferedEach(old(lanes), lanes, oks);
          return countA, true;
        }
        AllFinished(lanes);
      }
      OfferedEach(old(lanes), lanes, oks);
      returned := false;
    }

    /**
     Lines 252-287: passes until some sender can be listened to again, which is the
     first one that finds an empty slot or frees one. Of the passes made, a put that was
     granted to a waiting block moved it; nothing else changed a column.
     */
    method Settle(round: Round, ghost streams: seq<seq<Block>>)
      returns (settled: bool, returned: bool, ghost made: nat)
      requires Consistent() && Serves(streams) && Open()
      modifies this
      ensures Consistent() && Listening() && Serves(streams)
      ensures returned <==> !Open()
      ensures settled && !returned ==> Attentive()
      ensures Roomy(round, n) && n > 0 ==> settled
      ensures made <= |round.passes| && (!settled ==> made == |round.passes|)
      ensures made > 1 ==> forall i :: 0 <= i < n ==> !old(lanes)[i].Idle()
      ensures made > 0 ==> forall i :: 0 <= i < n && old(lanes)[i].HasData() ==> !Granted(round, i, made - 1)
      ensures forall i :: 0 <= i < n ==> lanes[i].wire == old(lanes)[i].wire
      ensures forall i :: 0 <= i < n && old(lanes)[i].Idle() ==> lanes[i] == old(lanes)[i]
      ensures forall i :: 0 <= i < n ==>
                if old(lanes)[i].Waits() && Granted(round, i, made) then lanes[i].Grew(old(lanes)[i])
                else lanes[i] == old(lanes)[i]
    {
      hide Lane.Ok, Lane.Offered, CountTrue, Finishes;
      fds, made := {}, 0;
      for p := 0 to |round.passes|
        invariant Consistent() && Listening() && Serves(streams) && Open() && made == p
        invariant forall i :: 0 <= i < n ==> Progress(old(lanes)[i], lanes[i], Granted(round, i, p))
        invariant p > 0 ==> forall i :: 0 <= i < n ==> !lanes[i].Idle()
      {
        ghost var was := lanes;
        assert forall i :: 0 <= i < n && old(lanes)[i].HasData() ==> !Granted(round, i, p) by {
          assert p == 0 || forall i :: 0 <= i < n ==> !lanes[i].Idle();
        }
        var countA, fin := Pass(round.passes[p], streams);
        made := p + 1;
        forall i | 0 <= i < n
          ensures Progress(old(lanes)[i], lanes[i], Granted(round, i, p + 1))
        {
          ProgressStep(old(lanes)[i], was[i], lanes[i], round, i, p);
        }
        if fin {
          return true, true, made;
        }
        if countA != 0 {
          return true, false, made;
        }
      }
      AllFinished(lanes);
      if n > 0 {
        ghost var i :| 0 <= i < n && !lanes[i].finished;
        assert !RoomFor(round, i);
      }
      return false, false, made;
    }

    /**
     The whole loop against any sequence of ready sets and put results. It returns
     exactly when every end marker has been put, and until then no block is lost,
     repeated, reordered or overwritten.
     */
    method ReceiveSelect1(script: seq<Round>, ghost streams: seq<seq<Block>>) returns (returned: bool)
      requires Consistent() && Listening() && Serves(streams) && Open()
      modifies this
      ensures Consistent() && Listening() && Serves(streams)
      ensures returned <==> !Open()
      ensures returned ==> forall i :: 0 <= i < n ==> lanes[i].Complete()
      ensures !returned && n > 0 ==> exists i :: 0 <= i < n && !lanes[i].finished
      ensures forall i :: 0 <= i < n && NeverGranted(script, i) ==> lanes[i].column == old(lanes)[i].column
      ensures OnWire(lanes) <= OnWire(old(lanes))
      ensures old(Attentive()) && Ending(streams) && Fair(script, n) && !returned ==>
                Attentive() && OnWire(lanes) < OnWire(old(lanes))
    {
      hide CountTrue, Finishes, Lane.Ok, Lane.Grew, OnWire, Roomy, Granted, RoomFor;
      ghost var alert := Attentive() && Ending(streams) && Fair(script, n);
      ghost var i := 0;
      if alert {
        i := Pick(fds);
      }
      for r := 0 to |script|
        invariant Consistent() && Listening() && Serves(streams) && Open()
        invariant OnWire(lanes) <= OnWire(old(lanes))
        invariant forall c :: 0 <= c < n && NeverGranted(script, c) ==> lanes[c].column == old(lanes)[c].column
        invariant alert ==> Attentive()
        invariant alert ==> OnWire(lanes) < OnWire(old(lanes)) ||
                            (i in fds && forall q :: 0 <= q < r ==> i !in script[q].ready)
      {
        ghost var was := lanes;
        if alert {
          StillToCome(i, streams);
        }
        ReceiveReady(script[r].ready, streams);
        var settled, fin, made := Settle(script[r], streams);
        NoneGranted(script, r, made);
        OnWireFalls(was, lanes);
        if fin {
          AllFinished(lanes);
          return true;
        }
        if !settled {
          break;
        }
      }
      assert alert ==> Heard(script, i);
      AllFinished(lanes);
      return false;
    }

    lemma StillToCome(i: int, streams: seq<seq<Block>>)
      requires Consistent() && Serves(streams) && Ending(streams) && Listening()
      ensures i in fds ==> lanes[i].wire != []
    {
      if i in fds {
        lanes[i].MoreToCome();
      }
    }

    /**
     Under fair stretches of rounds the loop returns: one stretch for every block
     that the senders sent is enough.
     */
    method ReceiveAll(stretches: seq<seq<Round>>, ghost streams: seq<seq<Block>>) returns (returned: bool)
      requires Consistent() && Attentive() && Listening() && Serves(streams) && Open() && Ending(streams)
      requires forall k :: 0 <= k < |stretches| ==> Fair(stretches[k], n)
      modifies this
      ensures Consistent() && Serves(streams) && (returned <==> !Open())
      ensures |stretches| >= OnWire(old(lanes)) ==> returned
      ensures returned ==> forall i :: 0 <= i < n ==> lanes[i].Complete()
    {
      hide Lane.Ok, CountTrue, Finishes, OnWire, Fair, Ending;
      for k := 0 to |stretches|
        invariant Consistent() && Attentive() && Listening() && Serves(streams) && Open()
        invariant OnWire(lanes) + k <= OnWire(old(lanes))
      {
        returned := ReceiveSelect1(stretches[k], streams);
        if returned {
          return true;
        }
      }
      ghost var i := Pick(fds);
      StillToCome(i, streams);
      SomethingOnWire(lanes, i);
      return false;
    }
  }

  lemma OfferedEach(was: seq<Lane>, lanes: seq<Lane>, oks: seq<bool>)
    requires |lanes| == |was|
    requires forall i :: 0 <= i < |lanes| ==> lanes[i] == was[i].Offered(i < |oks| && oks[i])
    ensures forall i :: 0 <= i < |lanes| && !Grants(oks, i) ==> lanes[i] == was[i]
    ensures forall i :: 0 <= i < |lanes| && Grants(oks, i) ==>
              if was[i].Waits() then lanes[i].Grew(was[i]) else lanes[i] == was[i]
  {
    forall i | 0 <= i < |lanes|
      ensures !Grants(oks, i) ==> lanes[i] == was[i]
      ensures Grants(oks, i) ==> if was[i].Waits() then lanes[i].Grew(was[i]) else lanes[i] == was[i]
    {
      was[i].OfferedMeans(i < |oks| && oks[i]);
    }
  }

  /** Once every sender is finished the rest of a pass would change nothing. */
  lemma NothingToOffer(lanes: seq<Lane>, was: seq<Lane>, i: int, oks: seq<bool>)
    requires |lanes| == |was| == CountTrue(Finishes(lanes))
    requires 0 <= i && forall k :: i < k < |lanes| ==> lanes[k] == was[k]
    ensures forall k :: i < k < |lanes| ==> lanes[k] == was[k].Offered(k < |oks| && oks[k])
  {
    AllFinished(lanes);
  }

  lemma AllFinished(lanes: seq<Lane>)
    ensures CountTrue(Finishes(lanes)) <= |lanes|
    ensures CountTrue(Finishes(lanes)) == |lanes| <==> forall i :: 0 <= i < |lanes| ==> lanes[i].finished
    ensures forall i :: 0 <= i < |lanes| && lanes[i].finished && lanes[i].Ok() ==> lanes[i].Complete()
  {
    CountBounds(Finishes(lanes));
    assert forall i :: 0 <= i < |lanes| ==> Finishes(lanes)[i] == lanes[i].finished;
  }

  ghost function Finishes(lanes: seq<Lane>): seq<bool> {
    seq(|lanes|, i requires 0 <= i < |lanes| => lanes[i].finished)
  }

  lemma {:induction false} NoneFinished(lanes: seq<Lane>)
    requires forall i :: 0 <= i < |lanes| ==> !lanes[i].finished
    ensures CountTrue(Finishes(lanes)) == 0
  {
    if lanes != [] {
      var n := |lanes| - 1;
      NoneFinished(lanes[..n]);
      assert Finishes(lanes)[..n] == Finishes(lanes[..n]);
    }
  }

  lemma SameFinishes(lanes: seq<Lane>, i: int, lane: Lane)
    requires 0 <= i < |lanes| && lane.finished == lanes[i].finished
    ensures Finishes(lanes[i := lane]) == Finishes(lanes)
  {
  }

  lemma OneMoreFinished(lanes: seq<Lane>, i: int, lane: Lane)
    requires 0 <= i < |lanes| && lane.finished && !lanes[i].finished
    ensures CountTrue(Finishes(lanes[i := lane])) == CountTrue(Finishes(lanes)) + 1
  {
    CountSet(Finishes(lanes), i);
    assert Finishes(lanes[i := lane]) == Finishes(lanes)[i := true];
  }
}
