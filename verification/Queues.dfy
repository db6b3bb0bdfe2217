/**
 The two queues of src/common/m_circle_queue.h against one bounded FIFO: a ring
 of capacity + 1 linked nodes, and two lists that share a fixed pool of blocks.
 */
module Fifo {
  import opened Options

  datatype Op<T> = Push(item: T) | Pop

  datatype Reply<T> = Pushed(ok: bool) | Popped(item: Option<T>)

  /** A bounded first-in first-out queue. */
  datatype Bounded<T> = Bounded(capacity: nat, items: seq<T>) {
    ghost predicate Fits() {
      |items| <= capacity
    }

    ghost function Step(op: Op<T>): (Bounded<T>, Reply<T>) {
      match op
      case Push(x) =>
        if |items| < capacity then (Bounded(capacity, items + [x]), Pushed(true)) else (this, Pushed(false))
      case Pop =>
        if items == [] then (this, Popped(None)) else (Bounded(capacity, items[1..]), Popped(Some(items[0])))
    }

    ghost function Run(ops: seq<Op<T>>): (Bounded<T>, seq<Reply<T>>) {
      if ops == [] then (this, [])
      else
        var (q, replies) := Run(ops[..|ops| - 1]);
        var (q', r) := q.Step(ops[|ops| - 1]);
        (q', replies + [r])
    }

    /** The replies so far do not depend on what is called later. */
    lemma {:induction false} RunPrefix(ops: seq<Op<T>>, k: nat)
      requires k < |ops|
      ensures |Run(ops).1| == |ops| && Run(ops).1[..k] == Run(ops[..k]).1
      ensures Run(ops).1[k] == Run(ops[..k]).0.Step(ops[k]).1
    {
      RunLength(ops);
      var init := ops[..|ops| - 1];
      RunLength(init);
      if k < |init| {
        RunPrefix(init, k);
        assert init[..k] == ops[..k];
      }
    }

    lemma {:induction false} RunLength(ops: seq<Op<T>>)
      ensures |Run(ops).1| == |ops|
    {
      if ops != [] {
        RunLength(ops[..|ops| - 1]);
      }
    }

    lemma RunAppend(ops: seq<Op<T>>, op: Op<T>)
      ensures Run(ops + [op]) == (Run(ops).0.Step(op).0, Run(ops).1 + [Run(ops).0.Step(op).1])
    {
      assert (ops + [op])[..|ops|] == ops;
    }
  }

  /** The items that a run accepted, in order. */
  ghost function Accepted<T>(ops: seq<Op<T>>, replies: seq<Reply<T>>): seq<T>
    requires |ops| == |replies|
  {
    if ops == [] then []
    else
      var n := |ops| - 1;
      Accepted(ops[..n], replies[..n]) + if ops[n].Push? && replies[n] == Pushed(true) then [ops[n].item] else []
  }

  /** The items that a run handed out, in order. */
  ghost function Delivered<T>(replies: seq<Reply<T>>): seq<T> {
    if replies == [] then []
    else
      var n := |replies| - 1;
      Delivered(replies[..n]) +
      if replies[n].Popped? && replies[n].item.Some? then [replies[n].item.value] else []
  }

  lemma AcceptedAppend<T>(ops: seq<Op<T>>, replies: seq<Reply<T>>, op: Op<T>, r: Reply<T>)
    requires |ops| == |replies|
    ensures Accepted(ops + [op], replies + [r]) ==
            Accepted(ops, replies) + if op.Push? && r == Pushed(true) then [op.item] else []
  {
    assert (ops + [op])[..|ops|] == ops && (replies + [r])[..|replies|] == replies;
  }

  lemma DeliveredAppend<T>(replies: seq<Reply<T>>, r: Reply<T>)
    ensures Delivered(replies + [r]) == Delivered(replies) + if r.Popped? && r.item.Some? then [r.item.value] else []
  {
    assert (replies + [r])[..|replies|] == replies;
  }

  /** One step moves its item between the outside and the ends of the queue. */
  lemma StepInOrder<T>(q: Bounded<T>, op: Op<T>)
    requires q.Fits()
    ensures var (q', r) := q.Step(op);
            && q'.capacity == q.capacity && q'.Fits()
            && q.items + (if op.Push? && r == Pushed(true) then [op.item] else []) ==
               (if r.Popped? && r.item.Some? then [r.item.value] else []) + q'.items
  {
  }

  /** From empty, what went in is what came out followed by what is left, and never more than the capacity. */
  lemma {:induction false} FirstInFirstOut<T>(capacity: nat, ops: seq<Op<T>>)
    ensures
      var (q, replies) := Bounded(capacity, []).Run(ops);
      && q.capacity == capacity && q.Fits() && |replies| == |ops|
      && Accepted(ops, replies) == Delivered(replies) + q.items
  {
    var start: Bounded<T> := Bounded(capacity, []);
    if ops == [] {
      assert start.Run(ops) == (start, []);
    } else {
      var n := |ops| - 1;
      var init, op := ops[..n], ops[n];
      FirstInFirstOut(capacity, init);
      hide Bounded.Run, Bounded.Step, Accepted, Delivered;
      var (q, replies) := start.Run(init);
      var (q', r) := q.Step(op);
      start.RunAppend(init, op);
      assert ops == init + [op];
      AcceptedAppend(init, replies, op, r);
      DeliveredAppend(replies, r);
      StepInOrder(q, op);
      JoinEnds(Delivered(replies), q.items, if op.Push? && r == Pushed(true) then [op.item] else [],
               if r.Popped? && r.item.Some? then [r.item.value] else [], q'.items);
    }
  }

  /**
   From the calls and their replies alone: a push goes through exactly when fewer
   items than the capacity are inside, and a pop hands out the oldest item that is
   inside, and none exactly when there is none.
   */
  lemma RepliesFromHistory<T>(capacity: nat, ops: seq<Op<T>>, k: nat)
    requires k < |ops|
    ensures var start: Bounded<T> := Bounded(capacity, []);
            var replies := start.Run(ops).1;
            && |replies| == |ops|
            && var went, came := Accepted(ops[..k], replies[..k]), Delivered(replies[..k]);
            && came <= went
            && (ops[k].Push? ==> replies[k] == Pushed(|went| - |came| < capacity))
            && (ops[k].Pop? ==> replies[k] == Popped(if |went| == |came| then None else Some(went[|came|])))
  {
    var start: Bounded<T> := Bounded(capacity, []);
    start.RunPrefix(ops, k);
    FirstInFirstOut(capacity, ops);
    FirstInFirstOut(capacity, ops[..k]);
  }

  lemma JoinEnds<T>(done: seq<T>, items: seq<T>, added: seq<T>, taken: seq<T>, items': seq<T>)
    requires items + added == taken + items'
    ensures (done + items) + added == (done + taken) + items'
  {
    assert (done + items) + added == done + (items + added);
    assert (done + taken) + items' == done + (taken + items');
  }
}

module CircleQueues {
  import opened Fifo
  import opened Options

  class CircleNode<T(0)> {
    var node: T
    var next: CircleNode?<T>

    constructor ()
      ensures next == null
    {
      next := null;
    }
  }

  /** The place i steps after first on a ring of n nodes. */
  function Place(first: nat, i: nat, n: nat): (p: nat)
    requires first < n && i <= n
    ensures p < n
  {
    if first + i < n then first + i else first + i - n
  }

  /** Stepping on, and no place twice on the way round. */
  lemma PlaceNext(first: nat, k: nat, n: nat)
    requires first < n && k < n
    ensures Place(Place(first, k, n), 1, n) == Place(first, k + 1, n)
    ensures Place(first, 0, n) == first == Place(first, n, n)
    ensures forall i: nat :: i < n && i != k ==> Place(first, i, n) != Place(first, k, n)
    ensures k + 1 < n ==> Place(first, k + 1, n) != first
  {
  }

  /** Counting from the place after first. */
  lemma PlaceShift(first: nat, n: nat)
    requires first < n
    ensures forall i: nat :: i < n ==> Place(Place(first, 1, n), i, n) == Place(first, i + 1, n)
  {
  }

  class CircleQueue<T(0)> {
    const queueCapacity: nat
    var head: CircleNode<T>
    var front: CircleNode<T>
    var rear: CircleNode<T>

    /** The nodes in link order, the place of the front among them, and the queued items. */
    ghost var ring: seq<CircleNode<T>>
    ghost var first: nat
    ghost var items: seq<T>

    /** The links lead once round all nodes. */
    ghost predicate Closed()
      reads this, ring
    {
      && |ring| == queueCapacity + 1
      && (forall i, j :: 0 <= i < j < |ring| ==> ring[i] != ring[j])
      && (forall i {:trigger ring[i].next} :: 0 <= i < |ring| ==> ring[i].next == ring[Place(i, 1, |ring|)])
    }

    ghost predicate Valid()
      reads this, ring
    {
      && Closed() && first < |ring| && |items| <= queueCapacity
      && front == ring[first] && rear == ring[Place(first, |items|, |ring|)]
      && forall i :: 0 <= i < |items| ==> items[i] == ring[Place(first, i, |ring|)].node
    }

    ghost function Contents(): (q: Bounded<T>)
      reads this
    {
      Bounded(queueCapacity, items)
    }

    constructor (capacity: nat)
      requires capacity >= 1
      ensures Valid() && Contents() == Bounded(capacity, []) && fresh(ring)
    {
      queueCapacity := capacity;
      var h := new CircleNode<T>();
      var realHead := new CircleNode<T>();
      h.next := realHead;
      var curTail := realHead;
      ghost var nodes := [realHead];
      for i := 1 to capacity + 1
        invariant |nodes| == i && fresh(nodes) && nodes[0] == realHead && curTail == nodes[i - 1]
        invariant forall j, k :: 0 <= j < k < i ==> nodes[j] != nodes[k]
        invariant forall j {:trigger nodes[j].next} :: 0 <= j < i - 1 ==> nodes[j].next == nodes[j + 1]
        invariant i == capacity + 1 ==> curTail.next == realHead
      {
        var temp := new CircleNode<T>();
        if i == capacity {
          temp.next := realHead;
        }
        curTail.next := temp;
        curTail := temp;
        nodes := nodes + [temp];
      }
      head, front, rear := h, realHead, realHead;
      ring, first, items := nodes, 0, [];
    }

    method Push(node: T) returns (ok: bool)
      requires Valid()
      modifies this, ring
      ensures Valid() && ring == old(ring)
      ensures (Contents(), Pushed(ok)) == old(Contents()).Step(Op.Push(node))
    {
      hide Place;
      PlaceNext(first, |items|, |ring|);
      if rear.next == front {
        return false;
      }
      rear.node := node;
      rear := rear.next;
      items := items + [node];
      return true;
    }

    method Pop() returns (ret: Option<T>)
      requires Valid()
      modifies this
      ensures Valid() && ring == old(ring)
      ensures (Contents(), Popped(ret)) == old(Contents()).Step(Op.Pop)
    {
      hide Place;
      PlaceNext(first, |items|, |ring|);
      PlaceShift(first, |ring|);
      if rear == front {
        return None;
      }
      ret := Some(front.node);
      front := front.next;
      first := Place(first, 1, |ring|);
      items := items[1..];
    }

    predicate Empty()
      requires Valid()
      reads this, ring
      ensures Empty() <==> Contents().items == []
    {
      rear == front
    }

    /** Any run of calls replies as the bounded FIFO does. */
    method Run(ops: seq<Op<T>>) returns (replies: seq<Reply<T>>)
      requires Valid()
      modifies this, ring
      ensures Valid() && (Contents(), replies) == old(Contents()).Run(ops)
    {
      replies := [];
      ghost var q := Contents();
      for i := 0 to |ops|
        invariant Valid() && ring == old(ring) && (Contents(), replies) == q.Run(ops[..i])
      {
        q.RunAppend(ops[..i], ops[i]);
        assert ops[..i + 1] == ops[..i] + [ops[i]];
        match ops[i] {
          case Push(x) =>
            var ok := Push(x);
            replies := replies + [Pushed(ok)];
          case Pop =>
            var ret := Pop();
            replies := replies + [Popped(ret)];
        }
      }
      assert ops[..|ops|] == ops;
    }
  }
}

module BlockQueues {
  import opened Fifo
  import opened Options

  /** A block of bytes; storeBlock copies the whole content. */
  class Block {
    var bytes: seq<int>

    constructor ()
    {
      bytes := [];
    }
  }

  class BlockCircleQueue {
    const queueCapacity: nat
    var emptys: seq<Block>
    var blocks: seq<Block>

    /** The blocks allocated by the constructor. */
    ghost const pool: set<Block>
    ghost var items: seq<seq<int>>

    ghost predicate Distinct(s: seq<Block>) {
      forall i, j :: 0 <= i < j < |s| ==> s[i] != s[j]
    }

    /** The two lists partition the pool, and the queued blocks hold the queued contents. */
    ghost predicate Valid()
      reads this, blocks
    {
      && |emptys| + |blocks| == queueCapacity
      && Distinct(emptys) && Distinct(blocks)
      && (forall i, j :: 0 <= i < |emptys| && 0 <= j < |blocks| ==> emptys[i] != blocks[j])
      && pool == (set b | b in emptys) + (set b | b in blocks)
      && |items| == |blocks| && forall i :: 0 <= i < |blocks| ==> items[i] == blocks[i].bytes
    }

    ghost function Contents(): (q: Bounded<seq<int>>)
      reads this
    {
      Bounded(queueCapacity, items)
    }

    constructor (capacity: nat)
      ensures Valid() && Contents() == Bounded(capacity, []) && fresh(pool)
    {
      queueCapacity := capacity;
      var bks := [];
      for i := 0 to capacity
        invariant |bks| == i && fresh(bks)
        invariant forall j, k :: 0 <= j < k < i ==> bks[j] != bks[k]
      {
        var bk := new Block();
        bks := bks + [bk];
      }
      emptys, blocks, items := bks, [], [];
      pool := set b | b in bks;
    }

    /** Copies the content of node into a free block; no queued block is overwritten. */
    method Push(node: Block) returns (ok: bool)
      requires Valid()
      modifies this, emptys
      ensures Valid()
      ensures (Contents(), Pushed(ok)) == old(Contents()).Step(Op.Push(old(node.bytes)))
    {
      if emptys == [] {
        return false;
      }
      var bk := emptys[0];
      items := items + [node.bytes];
      bk.bytes := node.bytes;
      blocks := blocks + [bk];
      emptys := emptys[1..];
      assert old(emptys) == [bk] + emptys;
      return true;
    }

    /** Copies the oldest queued content into block and frees the pool block that held it. */
    method Pop(block: Block) returns (ok: bool)
      requires Valid() && block !in pool
      modifies this, block
      ensures Valid()
      ensures ok ==> (Contents(), Popped(Some(block.bytes))) == old(Contents()).Step(Op.Pop)
      ensures !ok ==> (Contents(), Popped(None)) == old(Contents()).Step(Op.Pop) && block.bytes == old(block.bytes)
    {
      if blocks == [] {
        return false;
      }
      var bk := blocks[0];
      block.bytes := bk.bytes;
      emptys := emptys + [bk];
      blocks := blocks[1..];
      items := items[1..];
      assert old(blocks) == [bk] + blocks;
      return true;
    }

    /** Any run of calls replies as the bounded FIFO of block contents does. */
    method Run(ops: seq<Op<seq<int>>>) returns (replies: seq<Reply<seq<int>>>)
      requires Valid()
      modifies this, pool
      ensures Valid() && (Contents(), replies) == old(Contents()).Run(ops)
    {
      replies := [];
      ghost var q := Contents();
      var buffer := new Block();
      for i := 0 to |ops|
        invariant Valid() && (Contents(), replies) == q.Run(ops[..i]) && fresh(buffer) && buffer !in pool
      {
        q.RunAppend(ops[..i], ops[i]);
        assert ops[..i + 1] == ops[..i] + [ops[i]];
        match ops[i] {
          case Push(x) =>
            assert forall b :: b in blocks ==> b in pool;
            buffer.bytes := x;
            var ok := Push(buffer);
            replies := replies + [Pushed(ok)];
          case Pop =>
            var ok := Pop(buffer);
            replies := replies + [Popped(if ok then Some(buffer.bytes) else None)];
        }
      }
      assert ops[..|ops|] == ops;
    }
  }
}
