/**
 What `ShuffleLower1::execute` does with the tuples of its child, for an exchange
 that puts blocks (src/physical/m_shuffle_lower1.cpp:86-119): a tuple goes into the
 buffer of its range; a tuple that finds the buffer full has the buffer put into a
 column and reset, and is itself not stored; what the buffers hold at the end is
 not put.
 */
module Lower {
  import opened Routing
  import opened Tuples
  import Exchange

  ghost predicate KeysBelow(tuples: seq<Tuple>, volume: nat) {
    forall k :: 0 <= k < |tuples| ==> tuples[k].key < volume
  }

  /** All tuples in the blocks that are put. */
  ghost function PutBag(puts: seq<Exchange.Put>): multiset<Tuple> {
    if puts == [] then multiset{} else PutBag(puts[..|puts| - 1]) + multiset(puts[|puts| - 1].body)
  }

  lemma PutBagAppend(puts: seq<Exchange.Put>, p: Exchange.Put)
    ensures PutBag(puts + [p]) == PutBag(puts) + multiset(p.body)
  {
    assert (puts + [p])[..|puts|] == puts;
  }

  /** A full block for one of m columns, with keys of that column only. */
  ghost predicate FullBlock(p: Exchange.Put, volume: nat, m: nat, size: nat)
    requires m >= 1
  {
    p.column < m && |p.body| == size && forall k :: 0 <= k < |p.body| ==> InColumn(volume, m, p.body[k].key, p.column)
  }

  ghost predicate FullBlocks(puts: seq<Exchange.Put>, volume: nat, m: nat, size: nat)
    requires m >= 1
  {
    forall k :: 0 <= k < |puts| ==> FullBlock(puts[k], volume, m, size)
  }

  /** Buffers of one range each, none over its size. */
  ghost predicate Buffers(buffers: seq<Block>, bounds: seq<int>, size: nat) {
    Dealt(buffers, bounds) && forall r :: 0 <= r < |buffers| ==> |buffers[r]| <= size
  }

  /** Storing, where there is room. */
  lemma Stored(buffers: seq<Block>, bounds: seq<int>, size: nat, r: nat, t: Tuple)
    requires Buffers(buffers, bounds, size) && FirstAbove(t.key, bounds, r) && |buffers[r]| < size
    ensures Buffers(buffers[r := buffers[r] + [t]], bounds, size)
    ensures Bag(buffers[r := buffers[r] + [t]]) == Bag(buffers) + multiset{t}
  {
    DealOne(buffers, bounds, r, t);
  }

  /** Resetting a buffer. */
  lemma Reset(buffers: seq<Block>, bounds: seq<int>, size: nat, r: nat)
    requires Buffers(buffers, bounds, size) && r < |buffers|
    ensures Buffers(buffers[r := []], bounds, size)
    ensures Bag(buffers[r := []]) + multiset(buffers[r]) == Bag(buffers)
  {
    BagUpdate(buffers, r, []);
    hide Bag;
  }

  /** A full buffer is a full block for the column of its range. */
  lemma Flushed(buffer: Block, volume: nat, core: nat, m: nat, mul: nat, size: nat, r: nat)
    requires Shares(core, m, mul) && |buffer| == size >= 1
    requires forall k :: 0 <= k < size ==> FirstAbove(buffer[k].key, LowerBounds(volume, core), r)
    ensures FullBlock(Exchange.Put(r / mul, buffer), volume, m, size)
  {
    hide LowerBounds, FirstAbove;
    forall k | 0 <= k < size
      ensures InColumn(volume, m, buffer[k].key, r / mul)
    {
      RoutesToColumn(volume, core, m, mul, buffer[k].key, r);
    }
    assert InColumn(volume, m, buffer[0].key, r / mul);
  }

  // ----- What becomes of the tuples of one range, in the order in which they come -----

  /** The tuples of range r, in order. */
  ghost function OfRange(tuples: seq<Tuple>, bounds: seq<int>, r: int): seq<Tuple> {
    if tuples == [] then []
    else
      var n := |tuples| - 1;
      OfRange(tuples[..n], bounds, r) + if FirstAbove(tuples[n].key, bounds, r) then [tuples[n]] else []
  }

  /** The blocks put when a tuple of range r was not stored, in order. */
  ghost function BlocksOf(puts: seq<Exchange.Put>, dropped: seq<Tuple>, bounds: seq<int>, r: int): seq<Block>
    requires |puts| == |dropped|
  {
    if puts == [] then []
    else
      var n := |puts| - 1;
      BlocksOf(puts[..n], dropped[..n], bounds, r) +
      if FirstAbove(dropped[n].key, bounds, r) then [puts[n].body] else []
  }

  lemma OfRangeAppend(tuples: seq<Tuple>, t: Tuple, bounds: seq<int>, r: int)
    ensures OfRange(tuples + [t], bounds, r) ==
            OfRange(tuples, bounds, r) + if FirstAbove(t.key, bounds, r) then [t] else []
  {
    assert (tuples + [t])[..|tuples|] == tuples;
  }

  lemma BlocksOfAppend(puts: seq<Exchange.Put>, p: Exchange.Put, dropped: seq<Tuple>, t: Tuple, bounds: seq<int>,
                       r: int)
    requires |puts| == |dropped|
    ensures BlocksOf(puts + [p], dropped + [t], bounds, r) ==
            BlocksOf(puts, dropped, bounds, r) + if FirstAbove(t.key, bounds, r) then [p.body] else []
  {
    assert (puts + [p])[..|puts|] == puts && (dropped + [t])[..|dropped|] == dropped;
  }

  /** Of a list: size tuples make a block, the next one is skipped, and so on. */
  ghost function Chunks(list: seq<Tuple>, size: nat): seq<Block> {
    if |list| <= size then [] else [list[..size]] + Chunks(list[size + 1..], size)
  }

  ghost function Skipped(list: seq<Tuple>, size: nat): seq<Tuple> {
    if |list| <= size then [] else [list[size]] + Skipped(list[size + 1..], size)
  }

  ghost function Rest(list: seq<Tuple>, size: nat): (rest: seq<Tuple>)
    ensures |rest| <= size
  {
    if |list| <= size then list else Rest(list[size + 1..], size)
  }

  /** One more tuple is kept while there is room; otherwise what was kept is a block and it is skipped. */
  lemma {:induction false} OneMore(list: seq<Tuple>, t: Tuple, size: nat)
    ensures var rest := Rest(list, size);
            if |rest| < size then
              Chunks(list + [t], size) == Chunks(list, size) && Skipped(list + [t], size) == Skipped(list, size) &&
              Rest(list + [t], size) == rest + [t]
            else
              Chunks(list + [t], size) == Chunks(list, size) + [rest] &&
              Skipped(list + [t], size) == Skipped(list, size) + [t] && Rest(list + [t], size) == []
    decreases |list|
  {
    if |list| > size {
      var tail := list[size + 1..];
      OneMore(tail, t, size);
      CutAppend(list, t, size);
      CutAppend(list, t, size + 1);
      Regroup(list[..size], Chunks(tail, size), Rest(tail, size));
    } else if |list| == size {
      CutAppend(list, t, size);
      assert (list + [t])[size + 1..] == [] && list[..size] == list;
    }
  }

  lemma CutAppend(list: seq<Tuple>, t: Tuple, n: nat)
    requires n <= |list|
    ensures (list + [t])[..n] == list[..n] && (list + [t])[n..] == list[n..] + [t]
  {
  }

  lemma Regroup(a: Block, b: seq<Block>, c: Block)
    ensures ([a] + b) + [c] == [a] + (b + [c])
  {
  }

  /** Where run k starts. */
  ghost function Start(k: nat, size: nat): nat {
    if k == 0 then 0 else Start(k - 1, size) + size + 1
  }

  lemma {:induction false} StartIs(k: nat, size: nat)
    ensures Start(k, size) == k * (size + 1)
  {
    if k > 0 {
      StartIs(k - 1, size);
      assert k * (size + 1) == (k - 1) * (size + 1) + (size + 1);
    }
  }

  lemma CutTwice(list: seq<Tuple>, n: nat, at: nat, k: nat)
    requires n + at + k <= |list|
    ensures list[n..][at..] == list[n + at..] && list[n..][at..at + k] == list[n + at..n + at + k]
  {
  }

  /** Block k is the k-th run of size tuples, one tuple is skipped after each run, and the rest is what is left. */
  lemma {:induction false} ChunkAt(list: seq<Tuple>, size: nat, k: nat)
    requires k < |Chunks(list, size)|
    ensures |Skipped(list, size)| == |Chunks(list, size)|
    ensures var at := k * (size + 1);
            at + size < |list| && Chunks(list, size)[k] == list[at..at + size] &&
            Skipped(list, size)[k] == list[at + size]
  {
    RunAt(list, size, k);
    StartIs(k, size);
  }

  lemma {:induction false} RunAt(list: seq<Tuple>, size: nat, k: nat)
    requires k < |Chunks(list, size)|
    ensures |Skipped(list, size)| == |Chunks(list, size)|
    ensures var at := Start(k, size);
            at + size < |list| && Chunks(list, size)[k] == list[at..at + size] &&
            Skipped(list, size)[k] == list[at + size]
    decreases k
  {
    ChunkCount(list, size);
    if k > 0 {
      var tail := list[size + 1..];
      RunAt(tail, size, k - 1);
      assert Chunks(list, size)[k] == Chunks(tail, size)[k - 1] && Skipped(list, size)[k] == Skipped(tail, size)[k - 1];
      var at := Start(k - 1, size);
      assert Start(k, size) == size + 1 + at;
      hide Chunks, Skipped, Rest, Start;
      CutTwice(list, size + 1, at, size);
    }
  }

  lemma {:induction false} ChunkCount(list: seq<Tuple>, size: nat)
    ensures var count := |Chunks(list, size)|;
            |Skipped(list, size)| == count && Start(count, size) <= |list| &&
            Rest(list, size) == list[Start(count, size)..]
    decreases |list|
  {
    if |list| > size {
      var tail := list[size + 1..];
      ChunkCount(tail, size);
      var at := Start(|Chunks(tail, size)|, size);
      CutTwice(list, size + 1, at, 0);
      assert Rest(list, size) == tail[at..] == list[size + 1 + at..];
      assert |Chunks(list, size)| == 1 + |Chunks(tail, size)|;
    }
  }

  /** Range r: its full runs were put, the one after each run was not stored, the rest is in its buffer. */
  ghost predicate RangeDone(tuples: seq<Tuple>, puts: seq<Exchange.Put>, dropped: seq<Tuple>, buffer: Block,
                            bounds: seq<int>, size: nat, r: int)
    requires |puts| == |dropped|
  {
    var list := OfRange(tuples, bounds, r);
    && BlocksOf(puts, dropped, bounds, r) == Chunks(list, size)
    && OfRange(dropped, bounds, r) == Skipped(list, size)
    && buffer == Rest(list, size)
  }

  ghost predicate RangesDone(tuples: seq<Tuple>, puts: seq<Exchange.Put>, dropped: seq<Tuple>, buffers: seq<Block>,
                             bounds: seq<int>, size: nat)
  {
    && |puts| == |dropped| && |buffers| == |bounds|
    && forall r :: 0 <= r < |buffers| ==> RangeDone(tuples, puts, dropped, buffers[r], bounds, size, r)
  }

  lemma NothingDone(buffers: seq<Block>, bounds: seq<int>, size: nat)
    requires |buffers| == |bounds| && forall r :: 0 <= r < |buffers| ==> buffers[r] == []
    ensures RangesDone([], [], [], buffers, bounds, size)
  {
  }

  lemma OneRange(key: nat, bounds: seq<int>, r: int, r': int)
    requires FirstAbove(key, bounds, r) && r != r'
    ensures !FirstAbove(key, bounds, r')
  {
  }

  /** A tuple of another range changes nothing for range q, whether it is stored or not. */
  lemma OtherRange(tuples: seq<Tuple>, puts: seq<Exchange.Put>, dropped: seq<Tuple>, buffer: Block,
                   bounds: seq<int>, size: nat, q: int, p: Exchange.Put, t: Tuple)
    requires |puts| == |dropped| && RangeDone(tuples, puts, dropped, buffer, bounds, size, q)
    requires !FirstAbove(t.key, bounds, q)
    ensures RangeDone(tuples + [t], puts, dropped, buffer, bounds, size, q)
    ensures RangeDone(tuples + [t], puts + [p], dropped + [t], buffer, bounds, size, q)
  {
    OfRangeAppend(tuples, t, bounds, q);
    OfRangeAppend(dropped, t, bounds, q);
    BlocksOfAppend(puts, p, dropped, t, bounds, q);
    hide OfRange, BlocksOf, Chunks, Skipped, Rest, FirstAbove;
    assert OfRange(tuples, bounds, q) + [] == OfRange(tuples, bounds, q);
    assert OfRange(dropped, bounds, q) + [] == OfRange(dropped, bounds, q);
    assert BlocksOf(puts, dropped, bounds, q) + [] == BlocksOf(puts, dropped, bounds, q);
  }

  /** A tuple of the range is stored, or has the full buffer put. */
  lemma SameRange(tuples: seq<Tuple>, puts: seq<Exchange.Put>, dropped: seq<Tuple>, buffer: Block,
                  bounds: seq<int>, size: nat, r: int, p: Exchange.Put, t: Tuple)
    requires |puts| == |dropped| && RangeDone(tuples, puts, dropped, buffer, bounds, size, r)
    requires FirstAbove(t.key, bounds, r) && p.body == buffer
    ensures |buffer| < size ==> RangeDone(tuples + [t], puts, dropped, buffer + [t], bounds, size, r)
    ensures |buffer| >= size ==> RangeDone(tuples + [t], puts + [p], dropped + [t], [], bounds, size, r)
  {
    OfRangeAppend(tuples, t, bounds, r);
    OfRangeAppend(dropped, t, bounds, r);
    BlocksOfAppend(puts, p, dropped, t, bounds, r);
    OneMore(OfRange(tuples, bounds, r), t, size);
    hide OfRange, BlocksOf, Chunks, Skipped, Rest, FirstAbove;
  }

  lemma StoreDone(tuples: seq<Tuple>, puts: seq<Exchange.Put>, dropped: seq<Tuple>, buffers: seq<Block>,
                  bounds: seq<int>, size: nat, r: nat, t: Tuple)
    requires RangesDone(tuples, puts, dropped, buffers, bounds, size)
    requires FirstAbove(t.key, bounds, r) && r < |buffers| && |buffers[r]| < size
    ensures RangesDone(tuples + [t], puts, dropped, buffers[r := buffers[r] + [t]], bounds, size)
  {
    hide RangeDone, FirstAbove;
    var after := buffers[r := buffers[r] + [t]];
    forall q | 0 <= q < |after|
      ensures RangeDone(tuples + [t], puts, dropped, after[q], bounds, size, q)
    {
      assert RangeDone(tuples, puts, dropped, buffers[q], bounds, size, q);
      if q == r {
        SameRange(tuples, puts, dropped, buffers[r], bounds, size, r, Exchange.Put(0, buffers[r]), t);
      } else {
        OneRange(t.key, bounds, r, q);
        OtherRange(tuples, puts, dropped, buffers[q], bounds, size, q, Exchange.Put(0, []), t);
      }
    }
  }

  lemma FlushDone(tuples: seq<Tuple>, puts: seq<Exchange.Put>, dropped: seq<Tuple>, buffers: seq<Block>,
                  bounds: seq<int>, size: nat, r: nat, p: Exchange.Put, t: Tuple)
    requires RangesDone(tuples, puts, dropped, buffers, bounds, size)
    requires FirstAbove(t.key, bounds, r) && r < |buffers| && |buffers[r]| >= size && p.body == buffers[r]
    ensures RangesDone(tuples + [t], puts + [p], dropped + [t], buffers[r := []], bounds, size)
  {
    hide RangeDone, FirstAbove;
    var after := buffers[r := []];
    forall q | 0 <= q < |after|
      ensures RangeDone(tuples + [t], puts + [p], dropped + [t], after[q], bounds, size, q)
    {
      assert RangeDone(tuples, puts, dropped, buffers[q], bounds, size, q);
      if q == r {
        SameRange(tuples, puts, dropped, buffers[r], bounds, size, r, p, t);
      } else {
        OneRange(t.key, bounds, r, q);
        OtherRange(tuples, puts, dropped, buffers[q], bounds, size, q, p, t);
      }
    }
  }

  /** Where the tuples are: put, not stored, or still in a buffer. */
  ghost predicate Accounted(tuples: multiset<Tuple>, puts: seq<Exchange.Put>, dropped: seq<Tuple>,
                            buffers: seq<Block>)
  {
    |dropped| == |puts| && tuples == PutBag(puts) + multiset(dropped) + Bag(buffers)
  }

  lemma AccountedFlushed(ts: multiset<Tuple>, puts: seq<Exchange.Put>, dropped: seq<Tuple>, buffers: seq<Block>,
                         buffers': seq<Block>, p: Exchange.Put, t: Tuple)
    requires Accounted(ts, puts, dropped, buffers) && Bag(buffers') + multiset(p.body) == Bag(buffers)
    ensures Accounted(ts + multiset{t}, puts + [p], dropped + [t], buffers')
  {
    PutBagAppend(puts, p);
    assert multiset(dropped + [t]) == multiset(dropped) + multiset{t};
  }

  /** In the middle of the loop, with the tuples ts behind it. */
  ghost predicate Running(ts: multiset<Tuple>, puts: seq<Exchange.Put>, dropped: seq<Tuple>, buffers: seq<Block>,
                          volume: nat, core: nat, m: nat, size: nat)
    requires m >= 1 && core >= 1
  {
    && Buffers(buffers, LowerBounds(volume, core), size)
    && FullBlocks(puts, volume, m, size)
    && Accounted(ts, puts, dropped, buffers)
  }

  lemma StartRunning(buffers: seq<Block>, volume: nat, core: nat, m: nat, size: nat)
    requires m >= 1 && core >= 1 && |buffers| == core && forall r :: 0 <= r < core ==> buffers[r] == []
    ensures Running(multiset{}, [], [], buffers, volume, core, m, size)
  {
    EmptyBag(buffers);
  }

  lemma StoreKeeps(ts: multiset<Tuple>, puts: seq<Exchange.Put>, dropped: seq<Tuple>, buffers: seq<Block>,
                   volume: nat, core: nat, m: nat, size: nat, r: nat, t: Tuple)
    requires m >= 1 && core >= 1 && Running(ts, puts, dropped, buffers, volume, core, m, size)
    requires FirstAbove(t.key, LowerBounds(volume, core), r) && r < |buffers| && |buffers[r]| < size
    ensures Running(ts + multiset{t}, puts, dropped, buffers[r := buffers[r] + [t]], volume, core, m, size)
  {
    Stored(buffers, LowerBounds(volume, core), size, r, t);
    hide Bag, PutBag, LowerBounds;
  }

  lemma FlushKeeps(ts: multiset<Tuple>, puts: seq<Exchange.Put>, dropped: seq<Tuple>, buffers: seq<Block>,
                   volume: nat, core: nat, m: nat, size: nat, r: nat, p: Exchange.Put, t: Tuple)
    requires m >= 1 && core >= 1 && Running(ts, puts, dropped, buffers, volume, core, m, size) && r < |buffers|
    requires p.body == buffers[r] && FullBlock(p, volume, m, size)
    ensures Running(ts + multiset{t}, puts + [p], dropped + [t], buffers[r := []], volume, core, m, size)
  {
    Reset(buffers, LowerBounds(volume, core), size, r);
    hide Bag, PutBag, LowerBounds, Accounted, FullBlock, Buffers;
    AccountedFlushed(ts, puts, dropped, buffers, buffers[r := []], p, t);
  }

  /** The block that a full buffer becomes. */
  method BlockOf(buffers: seq<Block>, r: nat, mul: nat, ghost volume: nat, ghost core: nat, ghost m: nat,
                 ghost size: nat)
    returns (p: Exchange.Put)
    requires Shares(core, m, mul) && size >= 1 && r < |buffers| && |buffers[r]| >= size
    requires Buffers(buffers, LowerBounds(volume, core), size)
    ensures p == Exchange.Put(r / mul, buffers[r]) && FullBlock(p, volume, m, size)
  {
    Flushed(buffers[r], volume, core, m, mul, size, r);
    p := Exchange.Put(r / mul, buffers[r]);
  }

  /** Nothing is lost exactly when there is nothing: the first tuple of a range already stays behind. */
  lemma LossIff(tuples: seq<Tuple>, puts: seq<Exchange.Put>, dropped: seq<Tuple>, buffers: seq<Block>)
    requires Accounted(multiset(tuples), puts, dropped, buffers)
    ensures PutBag(puts) == multiset(tuples) <==> tuples == []
  {
    assert |multiset(tuples)| == |PutBag(puts)| + |multiset(dropped)| + |Bag(buffers)|;
    assert |multiset(dropped)| == |dropped| && |multiset(tuples)| == |tuples|;
  }

  /** The range of a key below the volume. */
  method RangeOf(key: nat, bounds: seq<int>, volume: nat, core: nat) returns (r: nat)
    requires core >= 1 && key < volume && bounds == LowerBounds(volume, core)
    ensures r < core && FirstAbove(key, bounds, r)
  {
    EveryKeyRouted(volume, core, key);
    var range := Partition(key, bounds);
    r := range.value;
  }

  /** The tuples in dropped are those at the given places, in order. */
  ghost predicate TakenFrom(dropped: seq<Tuple>, tuples: seq<Tuple>, places: seq<nat>) {
    && |places| == |dropped|
    && (forall i :: 0 <= i < |places| ==> places[i] < |tuples| && tuples[places[i]] == dropped[i])
    && forall i, j :: 0 <= i < j < |places| ==> places[i] < places[j]
  }

  lemma TakenGrows(dropped: seq<Tuple>, tuples: seq<Tuple>, places: seq<nat>, t: Tuple)
    requires TakenFrom(dropped, tuples, places)
    ensures TakenFrom(dropped, tuples + [t], places)
    ensures TakenFrom(dropped + [t], tuples + [t], places + [|tuples|])
  {
  }

  /** All there is to say about the tuples so far. */
  ghost predicate Executed(tuples: seq<Tuple>, puts: seq<Exchange.Put>, dropped: seq<Tuple>, buffers: seq<Block>,
                           places: seq<nat>, volume: nat, core: nat, m: nat, size: nat)
    requires m >= 1 && core >= 1
  {
    && Running(multiset(tuples), puts, dropped, buffers, volume, core, m, size)
    && RangesDone(tuples, puts, dropped, buffers, LowerBounds(volume, core), size)
    && TakenFrom(dropped, tuples, places)
  }

  /** The blocks that a lower puts for its tuples. */
  ghost predicate Passes(tuples: seq<Tuple>, puts: seq<Exchange.Put>, volume: nat, core: nat, m: nat, size: nat)
    requires m >= 1 && core >= 1
  {
    exists dropped, kept, places :: Executed(tuples, puts, dropped, kept, places, volume, core, m, size)
  }

  lemma ExecuteStore(tuples: seq<Tuple>, puts: seq<Exchange.Put>, dropped: seq<Tuple>, buffers: seq<Block>,
                     places: seq<nat>, volume: nat, core: nat, m: nat, size: nat, r: nat, t: Tuple)
    requires m >= 1 && core >= 1 && Executed(tuples, puts, dropped, buffers, places, volume, core, m, size)
    requires FirstAbove(t.key, LowerBounds(volume, core), r) && r < |buffers| && |buffers[r]| < size
    ensures Executed(tuples + [t], puts, dropped, buffers[r := buffers[r] + [t]], places, volume, core, m, size)
  {
    hide Running, RangesDone, TakenFrom, LowerBounds, FirstAbove;
    StoreKeeps(multiset(tuples), puts, dropped, buffers, volume, core, m, size, r, t);
    StoreDone(tuples, puts, dropped, buffers, LowerBounds(volume, core), size, r, t);
    TakenGrows(dropped, tuples, places, t);
    assert multiset(tuples + [t]) == multiset(tuples) + multiset{t};
  }

  lemma ExecuteFlush(tuples: seq<Tuple>, puts: seq<Exchange.Put>, dropped: seq<Tuple>, buffers: seq<Block>,
                     places: seq<nat>, volume: nat, core: nat, m: nat, size: nat, r: nat, p: Exchange.Put, t: Tuple)
    requires m >= 1 && core >= 1 && Executed(tuples, puts, dropped, buffers, places, volume, core, m, size)
    requires FirstAbove(t.key, LowerBounds(volume, core), r) && r < |buffers| && |buffers[r]| >= size
    requires p.body == buffers[r] && FullBlock(p, volume, m, size)
    ensures Executed(tuples + [t], puts + [p], dropped + [t], buffers[r := []], places + [|tuples|], volume, core, m,
                     size)
  {
    hide Running, RangesDone, TakenFrom, LowerBounds, FirstAbove, FullBlock;
    FlushKeeps(multiset(tuples), puts, dropped, buffers, volume, core, m, size, r, p, t);
    FlushDone(tuples, puts, dropped, buffers, LowerBounds(volume, core), size, r, p, t);
    TakenGrows(dropped, tuples, places, t);
    assert multiset(tuples + [t]) == multiset(tuples) + multiset{t};
  }

  lemma ExecutedBuffers(tuples: seq<Tuple>, puts: seq<Exchange.Put>, dropped: seq<Tuple>, buffers: seq<Block>,
                        places: seq<nat>, volume: nat, core: nat, m: nat, size: nat)
    requires m >= 1 && core >= 1 && Executed(tuples, puts, dropped, buffers, places, volume, core, m, size)
    ensures Buffers(buffers, LowerBounds(volume, core), size)
  {
  }

  /**
   The loop over all tuples of the child. For every range the first size tuples make a
   block, the next one has it put and is not stored, and so on; puts happen in the
   order of the tuples that are not stored. Every block put is full and holds keys of
   its own column only, and nothing is lost exactly when there are no tuples at all.
   */
  method Execute(tuples: seq<Tuple>, volume: nat, core: nat, m: nat, mul: nat, size: nat)
    returns (puts: seq<Exchange.Put>, ghost dropped: seq<Tuple>, ghost kept: seq<Block>, ghost places: seq<nat>)
    requires Shares(core, m, mul) && size >= 1 && KeysBelow(tuples, volume)
    ensures Executed(tuples, puts, dropped, kept, places, volume, core, m, size)
    ensures Passes(tuples, puts, volume, core, m, size) && FullBlocks(puts, volume, m, size)
    ensures Accounted(multiset(tuples), puts, dropped, kept)
    ensures |kept| == core && forall r :: 0 <= r < core ==> |kept[r]| <= size
    ensures PutBag(puts) == multiset(tuples) <==> tuples == []
  {
    var bounds := LowerBounds(volume, core);
    assert |bounds| == core;
    var buffers: seq<Block> := seq(core, i => []);
    puts, dropped, places := [], [], [];
    NothingDone(buffers, bounds, size);
    StartRunning(buffers, volume, core, m, size);
    PrefixEnds(tuples);
    assert m >= 1 && core >= 1;
    hide LowerBounds, FirstAbove, Shares, Buffers, FullBlock, Executed;
    for k := 0 to |tuples|
      invariant |buffers| == core
      invariant Executed(tuples[..k], puts, dropped, buffers, places, volume, core, m, size)
    {
      var t := tuples[k];
      PrefixStep(tuples, k);
      var r := RangeOf(t.key, bounds, volume, core);
      if |buffers[r]| < size {
        ExecuteStore(tuples[..k], puts, dropped, buffers, places, volume, core, m, size, r, t);
        buffers := buffers[r := buffers[r] + [t]];
      } else {
        ExecutedBuffers(tuples[..k], puts, dropped, buffers, places, volume, core, m, size);
        var p := BlockOf(buffers, r, mul, volume, core, m, size);
        ExecuteFlush(tuples[..k], puts, dropped, buffers, places, volume, core, m, size, r, p, t);
        puts, dropped, places := puts + [p], dropped + [t], places + [k];
        buffers := buffers[r := []];
      }
    }
    kept := buffers;
    ExecutedEnds(tuples, puts, dropped, kept, places, volume, core, m, size);
  }

  lemma ExecutedEnds(tuples: seq<Tuple>, puts: seq<Exchange.Put>, dropped: seq<Tuple>, buffers: seq<Block>,
                     places: seq<nat>, volume: nat, core: nat, m: nat, size: nat)
    requires m >= 1 && core >= 1 && Executed(tuples, puts, dropped, buffers, places, volume, core, m, size)
    ensures FullBlocks(puts, volume, m, size) && Accounted(multiset(tuples), puts, dropped, buffers)
    ensures |buffers| == core && forall r :: 0 <= r < core ==> |buffers[r]| <= size
    ensures PutBag(puts) == multiset(tuples) <==> tuples == []
  {
    LossIff(tuples, puts, dropped, buffers);
  }
}
