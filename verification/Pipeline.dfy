/**
 The parts of an exchange together: what a lower side sends reaches the column of
 the upper side whole, and range routing followed by a range sort at every upper
 is a global sort.
 */
module Pipeline {
  import opened Tuples
  import Exchange
  import Lower
  import Merge
  import RangeSort
  import Receive
  import Routing
  import Streams

  /** A stream with one end marker, at its end, is received whole. */
  lemma ReceivedWhole(lane: Receive.Lane)
    requires lane.Complete() && Closes(lane.sent)
    ensures lane.column == lane.sent && lane.wire == []
  {
    var n := |lane.column|;
    assert lane.sent[n - 1] == lane.column[n - 1];
  }

  /**
   Once send_route has returned on one side and the receiving loop on the other,
   the column of upper c for this lower holds exactly the data blocks that execute
   put for c, in order, and then the end marker.
   */
  lemma ExchangeDelivers(s: Exchange.State, data: seq<Exchange.Put>, m: nat, steps: seq<Exchange.Step>, c: nat,
                         lane: Receive.Lane)
    requires Exchange.Init(s, data, m) && c < m
    requires var s' := Exchange.After(s, steps);
             s'.returned && c < |s'.sent| && lane.sent == Exchange.Bodies(s'.sent[c])
    requires lane.Complete()
    ensures lane.column == Exchange.Planned(data, c) + [[]] && lane.wire == []
  {
    Exchange.SendRouteSound(s, data, m, steps);
    Exchange.PlanCloses(data, m, c);
    ReceivedWhole(lane);
  }

  /** The sorted outputs of the uppers from number `from` on. */
  ghost predicate Partitioned(volume: nat, m: nat, outs: seq<seq<Tuple>>, from: nat)
    requires m >= 1
  {
    from + |outs| <= m &&
    forall c :: 0 <= c < |outs| ==>
      Sorted(outs[c]) &&
      forall k :: 0 <= k < |outs[c]| ==> Routing.InColumn(volume, m, outs[c][k].key, from + c)
  }

  /** Sorted outputs of uppers that each hold one column's keys are globally sorted in column order. */
  lemma {:induction false} GlobalOrder(volume: nat, m: nat, outs: seq<seq<Tuple>>, from: nat)
    requires m >= 1 && Partitioned(volume, m, outs, from)
    ensures Sorted(Flatten(outs)) && multiset(Flatten(outs)) == Bag(outs)
    ensures forall k :: 0 <= k < |Flatten(outs)| ==>
              Routing.Cut(volume, m, from) <= Flatten(outs)[k].key
    decreases |outs|
  {
    if outs != [] {
      var head, rest := outs[0], Flatten(outs[1..]);
      assert Partitioned(volume, m, outs[1..], from + 1);
      GlobalOrder(volume, m, outs[1..], from + 1);
      Routing.CutMonotone(volume, m, from, from + 1);
      JoinSorted(head, rest, Routing.Cut(volume, m, from), Routing.Cut(volume, m, from + 1));
    }
  }

  lemma JoinSorted(a: seq<Tuple>, b: seq<Tuple>, lo: int, mid: int)
    requires Sorted(a) && Sorted(b) && lo <= mid
    requires forall k :: 0 <= k < |a| ==> lo <= a[k].key < mid
    requires forall k :: 0 <= k < |b| ==> mid <= b[k].key
    ensures Sorted(a + b) && forall k :: 0 <= k < |a + b| ==> lo <= (a + b)[k].key
  {
  }

  // ----- The receiving loop feeds the sorted merge -----

  /** Once send_route has returned, a column whose data blocks are in key order was sent as a stream for the merge. */
  lemma SentIsStream(s: Exchange.State, data: seq<Exchange.Put>, m: nat, steps: seq<Exchange.Step>, c: nat)
    requires Exchange.Init(s, data, m) && c < m && Exchange.After(s, steps).returned
    requires var blocks := Exchange.Planned(data, c);
             blocks != [] && Sorted(Flatten(blocks)) && Streams.Below(Flatten(blocks))
    ensures c < |Exchange.After(s, steps).sent| && Streams.Stream(Exchange.Bodies(Exchange.After(s, steps).sent[c]))
  {
    Exchange.SendRouteSound(s, data, m, steps);
    Exchange.PlanCloses(data, m, c);
    FlattenAppend(Exchange.Planned(data, c), []);
  }

  /**
   An upper that receives sorted streams, whatever the ready sets and put results
   are: when the receiving loop has returned, the merge over its columns writes all
   tuples that were sent, in key order.
   */
  method MergeReceived(streams: seq<seq<Block>>, script: seq<Receive.Round>, capacity: nat)
    returns (returned: bool, handed: seq<Block>, last: Block)
    requires |streams| >= 2 && capacity >= 1 && forall i :: 0 <= i < |streams| ==> Streams.Stream(streams[i])
    ensures returned ==> Sorted(Flatten(handed) + last)
    ensures returned ==> multiset(Flatten(handed) + last) == Bag(Streams.FlattenAll(streams))
    ensures returned ==> Merge.Full(handed, capacity) && 1 <= |last| <= capacity
  {
    hide Sorted, Bag, Flatten, Streams.Stream, Receive.Lane.Ok, Receive.Lane.Complete, Receive.CountTrue;
    var merger := new Receive.Merger(streams);
    returned := merger.ReceiveSelect1(script, streams);
    handed, last := [], [];
    if returned {
      var lanes := merger.lanes;
      var columns := seq(|lanes|, i requires 0 <= i < |lanes| => lanes[i].column);
      AllReceivedWhole(lanes, streams);
      assert columns == streams;
      var buffer := new Merge.PCBuffer(columns);
      handed, last := buffer.Drain(capacity);
    }
  }

  lemma AllReceivedWhole(lanes: seq<Receive.Lane>, streams: seq<seq<Block>>)
    requires |lanes| == |streams| && forall i :: 0 <= i < |lanes| ==> lanes[i].Complete() && lanes[i].sent == streams[i]
    requires forall i :: 0 <= i < |streams| ==> Streams.Stream(streams[i])
    ensures forall i :: 0 <= i < |lanes| ==> lanes[i].column == streams[i]
  {
    forall i | 0 <= i < |lanes|
      ensures lanes[i].column == streams[i]
    {
      assert Streams.Stream(streams[i]);
      ReceivedWhole(lanes[i]);
    }
  }

  // ----- The lowers route, every upper sorts by range -----

  /** Column c holds only keys of its own range. */
  ghost predicate Routed(volume: nat, m: nat, columns: seq<seq<Tuple>>)
    requires m >= 1
  {
    |columns| == m &&
    forall c, k :: 0 <= c < m && 0 <= k < |columns[c]| ==> Routing.InColumn(volume, m, columns[c][k].key, c)
  }

  /** What reaches upper c: the data blocks that each lower put for it, in order. */
  ghost function Arrived(plans: seq<seq<Exchange.Put>>, c: nat): seq<Tuple> {
    if plans == [] then []
    else Arrived(plans[..|plans| - 1], c) + Flatten(Exchange.Planned(plans[|plans| - 1], c))
  }

  /** All tuples in the blocks of all lowers. */
  ghost function PlanBag(plans: seq<seq<Exchange.Put>>): multiset<Tuple> {
    if plans == [] then multiset{} else PlanBag(plans[..|plans| - 1]) + Lower.PutBag(plans[|plans| - 1])
  }

  lemma CollectOne(columns: seq<seq<Tuple>>, p: Exchange.Put, volume: nat, m: nat, size: nat)
    requires m >= 1 && Routed(volume, m, columns) && Lower.FullBlock(p, volume, m, size)
    ensures Routed(volume, m, columns[p.column := columns[p.column] + p.body])
    ensures Bag(columns[p.column := columns[p.column] + p.body]) == Bag(columns) + multiset(p.body)
  {
    var grown := columns[p.column] + p.body;
    BagUpdate(columns, p.column, grown);
    assert multiset(grown) == multiset(columns[p.column]) + multiset(p.body);
    BagCancel(Bag(columns[p.column := grown]), Bag(columns), multiset(columns[p.column]), multiset(p.body));
    forall k | 0 <= k < |grown|
      ensures Routing.InColumn(volume, m, grown[k].key, p.column)
    {
      assert grown[k] == if k < |columns[p.column]| then columns[p.column][k] else p.body[k - |columns[p.column]|];
    }
  }

  lemma PlannedAppend(puts: seq<Exchange.Put>, p: Exchange.Put, c: nat)
    ensures Flatten(Exchange.Planned(puts + [p], c)) ==
            Flatten(Exchange.Planned(puts, c)) + if p.column == c then p.body else []
  {
    Exchange.PlannedJoin(puts, [p], c);
    var blocks := Exchange.Planned(puts, c);
    assert Exchange.Planned([p], c) == if p.column == c then [p.body] else [];
    if p.column == c {
      FlattenAppend(blocks, p.body);
    } else {
      assert blocks + [] == blocks;
    }
  }

  /** The columns hold what they held before and the blocks of puts, each in its column. */
  ghost predicate Collected(columns: seq<seq<Tuple>>, before: seq<seq<Tuple>>, puts: seq<Exchange.Put>, volume: nat,
                            m: nat)
    requires m >= 1
  {
    && Routed(volume, m, columns) && |before| == m
    && Bag(columns) == Bag(before) + Lower.PutBag(puts)
    && forall c: nat :: c < m ==> columns[c] == before[c] + Flatten(Exchange.Planned(puts, c))
  }

  lemma CollectStep(columns: seq<seq<Tuple>>, before: seq<seq<Tuple>>, puts: seq<Exchange.Put>, p: Exchange.Put,
                    volume: nat, m: nat, size: nat)
    requires m >= 1 && Collected(columns, before, puts, volume, m) && Lower.FullBlock(p, volume, m, size)
    ensures p.column < |columns|
    ensures Collected(columns[p.column := columns[p.column] + p.body], before, puts + [p], volume, m)
  {
    CollectOne(columns, p, volume, m, size);
    Lower.PutBagAppend(puts, p);
    assert p.column < |columns| == m;
    hide Bag, Lower.PutBag, Flatten, Exchange.Planned, Routed, Lower.FullBlock;
    var columns' := columns[p.column := columns[p.column] + p.body];
    assert Bag(columns') == Bag(before) + Lower.PutBag(puts + [p]);
    forall c: nat | c < m
      ensures columns'[c] == before[c] + Flatten(Exchange.Planned(puts + [p], c))
    {
      PlannedAppend(puts, p, c);
      Regroup(before[c], Flatten(Exchange.Planned(puts, c)), if p.column == c then p.body else []);
    }
  }

  lemma Regroup(a: seq<Tuple>, b: seq<Tuple>, c: seq<Tuple>)
    ensures (a + b) + c == a + (b + c) && (a + b) + [] == a + b
  {
  }

  lemma CollectStart(before: seq<seq<Tuple>>, volume: nat, m: nat)
    requires m >= 1 && Routed(volume, m, before)
    ensures Collected(before, before, [], volume, m)
  {
  }

  /** The uppers collect the blocks of one lower. */
  method Collect(puts: seq<Exchange.Put>, before: seq<seq<Tuple>>, volume: nat, m: nat, size: nat)
    returns (columns: seq<seq<Tuple>>)
    requires m >= 1 && Routed(volume, m, before) && Lower.FullBlocks(puts, volume, m, size)
    ensures Collected(columns, before, puts, volume, m)
  {
    columns := before;
    CollectStart(before, volume, m);
    PrefixEnds(puts);
    hide Collected, Lower.FullBlock;
    for k := 0 to |puts|
      invariant Collected(columns, before, puts[..k], volume, m)
    {
      CollectStep(columns, before, puts[..k], puts[k], volume, m, size);
      PrefixStep(puts, k);
      columns := columns[puts[k].column := columns[puts[k].column] + puts[k].body];
    }
  }

  /** The full blocks that the lowers put are in their columns. */
  ghost predicate Gathered(plans: seq<seq<Exchange.Put>>, columns: seq<seq<Tuple>>, volume: nat, m: nat, size: nat)
    requires m >= 1
  {
    && Routed(volume, m, columns)
    && (forall c: nat :: c < m ==> columns[c] == Arrived(plans, c))
    && Bag(columns) == PlanBag(plans)
    && (forall i :: 0 <= i < |plans| ==> Lower.FullBlocks(plans[i], volume, m, size))
  }

  /** The other tuples are lost, and they are none exactly when the lowers had none. */
  ghost predicate Losing(lowers: seq<seq<Tuple>>, plans: seq<seq<Exchange.Put>>, lost: multiset<Tuple>) {
    && |plans| == |lowers| && Bag(lowers) == PlanBag(plans) + lost
    && (lost == multiset{} <==> forall i :: 0 <= i < |lowers| ==> lowers[i] == [])
  }

  /** Every lower put what it puts for its tuples. */
  ghost predicate AllPass(lowers: seq<seq<Tuple>>, plans: seq<seq<Exchange.Put>>, volume: nat, core: nat, m: nat,
                          size: nat)
    requires m >= 1 && core >= 1
  {
    |plans| == |lowers| &&
    forall i :: 0 <= i < |lowers| ==> Lower.Passes(lowers[i], plans[i], volume, core, m, size)
  }

  lemma OneMorePasses(lowers: seq<seq<Tuple>>, plans: seq<seq<Exchange.Put>>, volume: nat, core: nat, m: nat,
                      size: nat, tuples: seq<Tuple>, puts: seq<Exchange.Put>)
    requires m >= 1 && core >= 1 && AllPass(lowers, plans, volume, core, m, size)
    requires Lower.Passes(tuples, puts, volume, core, m, size)
    ensures AllPass(lowers + [tuples], plans + [puts], volume, core, m, size)
  {
    hide Lower.Passes;
  }

  ghost predicate Passed(lowers: seq<seq<Tuple>>, plans: seq<seq<Exchange.Put>>, columns: seq<seq<Tuple>>,
                         lost: multiset<Tuple>, volume: nat, core: nat, m: nat, size: nat)
    requires m >= 1 && core >= 1
  {
    && Gathered(plans, columns, volume, m, size)
    && Losing(lowers, plans, lost)
    && AllPass(lowers, plans, volume, core, m, size)
  }

  lemma PassStart(columns: seq<seq<Tuple>>, volume: nat, core: nat, m: nat, size: nat)
    requires m >= 1 && core >= 1 && |columns| == m && forall c :: 0 <= c < m ==> columns[c] == []
    ensures Routed(volume, m, columns)
    ensures Passed([], [], columns, multiset{}, volume, core, m, size)
  {
    EmptyBag(columns);
  }

  lemma GatherOne(plans: seq<seq<Exchange.Put>>, columns: seq<seq<Tuple>>, volume: nat, m: nat, size: nat,
                  puts: seq<Exchange.Put>, columns': seq<seq<Tuple>>)
    requires m >= 1 && Gathered(plans, columns, volume, m, size)
    requires Collected(columns', columns, puts, volume, m) && Lower.FullBlocks(puts, volume, m, size)
    ensures Gathered(plans + [puts], columns', volume, m, size)
  {
    PlanAppend(plans, puts);
    assert |columns| == |columns'| == m;
    hide Bag, PlanBag, Lower.PutBag, Lower.FullBlocks, Flatten, Exchange.Planned, Arrived, Routed;
    forall c: nat | c < m
      ensures columns'[c] == Arrived(plans + [puts], c)
    {
      assert columns[c] == Arrived(plans, c);
    }
  }

  lemma LoseMore(lowers: seq<seq<Tuple>>, plans: seq<seq<Exchange.Put>>, lost: multiset<Tuple>, tuples: seq<Tuple>,
                 puts: seq<Exchange.Put>, more: multiset<Tuple>)
    requires Losing(lowers, plans, lost)
    requires multiset(tuples) == Lower.PutBag(puts) + more && (more == multiset{} <==> tuples == [])
    ensures Losing(lowers + [tuples], plans + [puts], lost + more)
  {
    PlanAppend(plans, puts);
    BagAppend(lowers, tuples);
    NoneAppend(lowers, tuples);
    BagSum(PlanBag(plans), lost, Lower.PutBag(puts), more);
    hide Bag, PlanBag, Lower.PutBag;
    assert |lost + more| == |lost| + |more|;
  }

  lemma BagSum(a: multiset<Tuple>, b: multiset<Tuple>, c: multiset<Tuple>, d: multiset<Tuple>)
    ensures (a + b) + (c + d) == (a + c) + (b + d)
  {
  }

  lemma NoneAppend(lowers: seq<seq<Tuple>>, tuples: seq<Tuple>)
    ensures (forall i :: 0 <= i < |lowers + [tuples]| ==> (lowers + [tuples])[i] == []) <==>
            (forall i :: 0 <= i < |lowers| ==> lowers[i] == []) && tuples == []
  {
    assert (lowers + [tuples])[|lowers|] == tuples;
    assert forall i :: 0 <= i < |lowers| ==> (lowers + [tuples])[i] == lowers[i];
  }

  /** One more lower. */
  method RouteOne(tuples: seq<Tuple>, columns: seq<seq<Tuple>>, volume: nat, core: nat, m: nat, mul: nat, size: nat,
                  ghost lowers: seq<seq<Tuple>>, ghost plans: seq<seq<Exchange.Put>>, ghost lost: multiset<Tuple>)
    returns (columns': seq<seq<Tuple>>, ghost plans': seq<seq<Exchange.Put>>, ghost lost': multiset<Tuple>)
    requires m >= 1 && core >= 1 && Routing.Shares(core, m, mul) && size >= 1 && Lower.KeysBelow(tuples, volume)
    requires Passed(lowers, plans, columns, lost, volume, core, m, size)
    ensures Routed(volume, m, columns')
    ensures Passed(lowers + [tuples], plans', columns', lost', volume, core, m, size)
  {
    hide Routing.Shares, Lower.KeysBelow, Lower.FullBlocks, Lower.Accounted, Lower.Executed, Lower.Passes;
    hide Collected, Gathered, Losing, AllPass;
    var puts, dropped, kept, places := Lower.Execute(tuples, volume, core, m, mul, size);
    GatheredIsRouted(plans, columns, volume, m, size);
    columns' := Collect(puts, columns, volume, m, size);
    LostOne(tuples, puts, dropped, kept);
    ghost var more := multiset(dropped) + Bag(kept);
    GatherOne(plans, columns, volume, m, size, puts, columns');
    LoseMore(lowers, plans, lost, tuples, puts, more);
    OneMorePasses(lowers, plans, volume, core, m, size, tuples, puts);
    plans', lost' := plans + [puts], lost + more;
    GatheredIsRouted(plans', columns', volume, m, size);
  }

  /** All lowers, one after the other. */
  method RouteAll(lowers: seq<seq<Tuple>>, volume: nat, core: nat, m: nat, mul: nat, size: nat)
    returns (columns: seq<seq<Tuple>>, ghost plans: seq<seq<Exchange.Put>>, ghost lost: multiset<Tuple>)
    requires m >= 1 && core >= 1 && Routing.Shares(core, m, mul) && size >= 1
    requires forall i :: 0 <= i < |lowers| ==> Lower.KeysBelow(lowers[i], volume)
    ensures Routed(volume, m, columns)
    ensures Passed(lowers, plans, columns, lost, volume, core, m, size)
  {
    columns := seq(m, i => []);
    plans, lost := [], multiset{};
    PassStart(columns, volume, core, m, size);
    PrefixEnds(lowers);
    hide Routing.Shares, Lower.KeysBelow, Passed, Routed;
    for i := 0 to |lowers|
      invariant Routed(volume, m, columns)
      invariant Passed(lowers[..i], plans, columns, lost, volume, core, m, size)
    {
      columns, plans, lost := RouteOne(lowers[i], columns, volume, core, m, mul, size, lowers[..i], plans, lost);
      PrefixStep(lowers, i);
    }
  }

  lemma GatheredIsRouted(plans: seq<seq<Exchange.Put>>, columns: seq<seq<Tuple>>, volume: nat, m: nat, size: nat)
    requires m >= 1 && Gathered(plans, columns, volume, m, size)
    ensures Routed(volume, m, columns)
  {
  }

  lemma LostOne(tuples: seq<Tuple>, puts: seq<Exchange.Put>, dropped: seq<Tuple>, kept: seq<Block>)
    requires Lower.Accounted(multiset(tuples), puts, dropped, kept)
    requires Lower.PutBag(puts) == multiset(tuples) <==> tuples == []
    ensures multiset(tuples) == Lower.PutBag(puts) + (multiset(dropped) + Bag(kept))
    ensures multiset(dropped) + Bag(kept) == multiset{} <==> tuples == []
  {
    hide Bag, Lower.PutBag;
    var more := multiset(dropped) + Bag(kept);
    assert multiset(tuples) == Lower.PutBag(puts) + more;
    assert |multiset(tuples)| == |Lower.PutBag(puts)| + |more|;
  }

  lemma PlanAppend(plans: seq<seq<Exchange.Put>>, puts: seq<Exchange.Put>)
    ensures PlanBag(plans + [puts]) == PlanBag(plans) + Lower.PutBag(puts)
    ensures forall c: nat :: Arrived(plans + [puts], c) == Arrived(plans, c) + Flatten(Exchange.Planned(puts, c))
  {
    assert (plans + [puts])[..|plans|] == plans;
  }

  /** At its place among the hosts of the lowers, the bounds of every upper cover its column. */
  ghost predicate Accepting(volume: nat, uppers: seq<string>, hosts: seq<string>)
    requires |uppers| >= 1 && |hosts| >= 1
  {
    forall c, th: nat :: 0 <= c < |uppers| && Routing.IsPlace(uppers[c], hosts, th) ==>
      Routing.Covers(volume, |uppers|, c, |hosts|, th)
  }

  /** Exactly then every key that can be routed has a bucket at its upper. */
  lemma AcceptingIffBuckets(volume: nat, core: nat, uppers: seq<string>, hosts: seq<string>)
    requires |uppers| >= 1 && |hosts| >= 1 && core >= 1
    ensures Accepting(volume, uppers, hosts) <==>
            forall c, th: nat, key: nat ::
              0 <= c < |uppers| && Routing.IsPlace(uppers[c], hosts, th) &&
              Routing.InColumn(volume, |uppers|, key, c) ==>
                Routing.HasBucket(volume, core, |hosts|, th, key)
  {
    hide Routing.IsPlace, Routing.InColumn, Routing.HasBucket, Routing.Covers;
    forall c, th: nat | 0 <= c < |uppers| && Routing.IsPlace(uppers[c], hosts, th)
      ensures Routing.Covers(volume, |uppers|, c, |hosts|, th) <==>
              forall key: nat :: Routing.InColumn(volume, |uppers|, key, c) ==>
                Routing.HasBucket(volume, core, |hosts|, th, key)
    {
      Routing.ColumnHasBuckets(volume, core, |uppers|, c, |hosts|, th);
    }
  }

  /** The same machines in the same order on both sides, and a volume that divides evenly, are accepted. */
  lemma SameMachinesAccepted(volume: nat, hosts: seq<string>)
    requires |hosts| >= 1 && volume % |hosts| == 0
    requires forall i, j :: 0 <= i < j < |hosts| ==> hosts[i] != hosts[j]
    ensures Accepting(volume, hosts, hosts)
  {
    forall c, th: nat | 0 <= c < |hosts| && Routing.IsPlace(hosts[c], hosts, th)
      ensures Routing.Covers(volume, |hosts|, c, |hosts|, th)
    {
      Routing.EvenCut(volume, |hosts|, c);
    }
  }

  /** The range sort at upper c accepts everything routed to c. */
  lemma ColumnIsSortable(volume: nat, core: nat, uppers: seq<string>, hosts: seq<string>, columns: seq<seq<Tuple>>,
                         c: nat, th: nat)
    requires core >= 1 && |hosts| >= 1 && c < |uppers| && Accepting(volume, uppers, hosts)
    requires Routed(volume, |uppers|, columns) && Routing.IsPlace(uppers[c], hosts, th)
    ensures forall k :: 0 <= k < |columns[c]| ==>
              Routing.HasRange(columns[c][k].key, Routing.UpperBounds(volume, core, |hosts|, th))
  {
    Routing.ColumnHasBuckets(volume, core, |uppers|, c, |hosts|, th);
    forall k | 0 <= k < |columns[c]|
      ensures Routing.HasRange(columns[c][k].key, Routing.UpperBounds(volume, core, |hosts|, th))
    {
      assert Routing.InColumn(volume, |uppers|, columns[c][k].key, c);
      assert Routing.HasBucket(volume, core, |hosts|, th, columns[c][k].key);
    }
  }

  /** A reordered column holds the same keys. */
  lemma SameColumn(volume: nat, m: nat, columns: seq<seq<Tuple>>, c: nat, out: seq<Tuple>)
    requires m >= 1 && Routed(volume, m, columns) && c < m && multiset(out) == multiset(columns[c])
    ensures forall k :: 0 <= k < |out| ==> Routing.InColumn(volume, m, out[k].key, c)
  {
    forall k | 0 <= k < |out|
      ensures Routing.InColumn(volume, m, out[k].key, c)
    {
      assert out[k] in multiset(columns[c]);
      var i :| 0 <= i < |columns[c]| && columns[c][i] == out[k];
    }
  }

  /**
   The uppers: each finds its place among the lowers, sets its bounds by it, and sorts
   its column, drained through blocks of the given capacity.
   */
  method SortColumns(columns: seq<seq<Tuple>>, uppers: seq<string>, hosts: seq<string>, volume: nat, core: nat,
                     capacity: nat)
    returns (outs: seq<seq<Tuple>>)
    requires core >= 1 && |uppers| >= 1 && |hosts| >= 1 && capacity >= 1
    requires Accepting(volume, uppers, hosts) && Routed(volume, |uppers|, columns)
    ensures |outs| == |columns| == |uppers| && forall c :: 0 <= c < |outs| ==> multiset(outs[c]) == multiset(columns[c])
    ensures Partitioned(volume, |uppers|, outs, 0) && Bag(outs) == Bag(columns)
  {
    hide Sorted, Bag, Routing.UpperBounds, Routing.HasRange, Routing.InColumn, Routing.IsPlace, Accepting;
    outs := [];
    for c := 0 to |uppers|
      invariant |outs| == c && Partitioned(volume, |uppers|, outs, 0)
      invariant forall i :: 0 <= i < c ==> multiset(outs[i]) == multiset(columns[i])
    {
      var th := Routing.FindPlace(uppers[c], hosts);
      var sort := new RangeSort.Sort(Routing.UpperBounds(volume, core, |hosts|, th));
      ColumnIsSortable(volume, core, uppers, hosts, columns, c, th);
      sort.Prelude(columns[c]);
      var out := sort.Drain(capacity);
      SameColumn(volume, |uppers|, columns, c, out);
      outs := outs + [out];
    }
    SameBags(outs, columns);
  }

  /**
   The tuples of the lowers are routed to the uppers, every upper sorts what reached
   it, and the outputs in column order are in global key order. They are the tuples
   in the full blocks that the lowers put; the rest was lost on the way, and nothing
   was exactly when no lower had a tuple. That the blocks a lower puts for an upper are
   the ones that upper receives is ExchangeDelivers; the steps of the two threads and of
   the receiving loop are not repeated here.
   */
  method ExchangeSort(lowers: seq<seq<Tuple>>, uppers: seq<string>, hosts: seq<string>, volume: nat, core: nat,
                      mul: nat, size: nat, capacity: nat)
    returns (all: seq<Tuple>, ghost outs: seq<seq<Tuple>>, ghost plans: seq<seq<Exchange.Put>>,
             ghost lost: multiset<Tuple>)
    requires |lowers| == |hosts| >= 1 && |uppers| >= 1 && core >= 1 && Routing.Shares(core, |uppers|, mul)
    requires size >= 1 && capacity >= 1 && Accepting(volume, uppers, hosts)
    requires forall i :: 0 <= i < |lowers| ==> Lower.KeysBelow(lowers[i], volume)
    ensures Sorted(all) && multiset(all) == PlanBag(plans) && Bag(lowers) == multiset(all) + lost
    ensures AllPass(lowers, plans, volume, core, |uppers|, size)
    ensures |plans| == |lowers| && forall i :: 0 <= i < |plans| ==> Lower.FullBlocks(plans[i], volume, |uppers|, size)
    ensures lost == multiset{} <==> forall i :: 0 <= i < |lowers| ==> lowers[i] == []
    ensures all == Flatten(outs) && |outs| == |uppers| && Partitioned(volume, |uppers|, outs, 0)
    ensures forall c :: 0 <= c < |outs| ==> multiset(outs[c]) == multiset(Arrived(plans, c))
  {
    hide Sorted, Flatten, Bag, Routed, Partitioned, Accepting, Arrived, AllPass;
    hide Routing.Shares, Lower.KeysBelow, Lower.FullBlocks;
    var columns;
    columns, plans, lost := RouteAll(lowers, volume, core, |uppers|, mul, size);
    var sorted := SortColumns(columns, uppers, hosts, volume, core, capacity);
    outs := sorted;
    all := Concatenated(sorted);
    GlobalOrder(volume, |uppers|, sorted, 0);
  }

  method Concatenated(outs: seq<seq<Tuple>>) returns (all: seq<Tuple>)
    ensures all == Flatten(outs)
  {
    all := [];
    assert outs[..0] == [];
    for i := 0 to |outs|
      invariant all == Flatten(outs[..i])
    {
      FlattenAppend(outs[..i], outs[i]);
      assert outs[..i + 1] == outs[..i] + [outs[i]];
      all := all + outs[i];
    }
    assert outs[..|outs|] == outs;
  }
}
