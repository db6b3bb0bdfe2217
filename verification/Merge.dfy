/**
 The sorted stream merge of src/common/m_pc_buffer.cpp: tuples leave in key order
 while each column delivers sorted blocks and then one empty block.
 */
module Streams {
  import opened Tuples

  const ULONG_MAX: nat := 0xFFFF_FFFF_FFFF_FFFF

  ghost predicate Below(s: seq<Tuple>) {
    forall i :: 0 <= i < |s| ==> s[i].key < ULONG_MAX
  }

  /** A column as the merge expects it: at least one tuple, in key order, all keys below the sentinel. */
  ghost predicate Stream(bs: seq<Block>) {
    && Closes(bs) && bs[0] != []
    && Sorted(Flatten(bs)) && Below(Flatten(bs))
  }

  ghost function FlattenAll(data: seq<seq<Block>>): seq<seq<Tuple>> {
    seq(|data|, i requires 0 <= i < |data| => Flatten(data[i]))
  }

  /** What a column still has to deliver: its leaf, the rest of its block and its later blocks. */
  ghost function Pend(head: Tuple, itr: seq<Tuple>, bs: seq<Block>): seq<Tuple> {
    if bs == [] then [] else [head] + itr + Flatten(bs)
  }

  /** The leaves, the rest of each current block, and the blocks each column has yet to hand over. */
  datatype Front = Front(heads: seq<Tuple>, itrs: seq<seq<Tuple>>, data: seq<seq<Block>>) {
    ghost predicate Wf() {
      |heads| == |itrs| + 1 == |data| + 1
    }

    /** The leaf of column i. */
    ghost function Head(i: int): Tuple
      requires Wf() && 0 <= i < |data|
    {
      heads[i + 1]
    }

    ghost function At(i: int): (p: seq<Tuple>)
      requires Wf() && 0 <= i < |data|
      ensures data[i] != [] ==> |p| >= 1 && p[0] == Head(i)
    {
      Pend(Head(i), itrs[i], data[i])
    }

    ghost function Pending(): seq<seq<Tuple>>
      requires Wf()
    {
      seq(|data|, i requires 0 <= i < |data| => At(i))
    }

    /** Column i is closed behind a sentinel, or delivers sorted tuples with keys below it. */
    ghost predicate Column(i: int)
      requires Wf() && 0 <= i < |data|
    {
      if data[i] == [] then itrs[i] == [] && Head(i).key == ULONG_MAX
      else Closes(data[i]) && Sorted(At(i)) && Below(At(i))
    }
  }

  /** Everything written so far is sorted, is not above any waiting leaf, and with the rest makes up the input. */
  ghost predicate Merging(s: Front, out: seq<Tuple>, input: multiset<Tuple>) {
    && s.Wf()
    && (forall i :: 0 <= i < |s.data| ==> s.Column(i))
    && Sorted(out)
    && (forall k, i :: 0 <= k < |out| && 0 <= i < |s.data| ==> out[k].key <= s.Head(i).key)
    && multiset(out) + Bag(s.Pending()) == input
  }

  /** Column i moved on by one tuple. */
  ghost predicate Advanced(s: Front, s': Front, i: int) {
    && s.Wf() && s'.Wf() && |s'.data| == |s.data| && 0 <= i < |s.data|
    && s.data[i] != []
    && s'.At(i) == s.At(i)[1..]
    && (s'.data[i] == [] ==> s'.itrs[i] == [] && s'.Head(i).key == ULONG_MAX)
    && (s'.data[i] != [] ==> Closes(s'.data[i]))
    && forall j :: 0 <= j < |s.data| && j != i ==>
         s'.Head(j) == s.Head(j) && s'.itrs[j] == s.itrs[j] && s'.data[j] == s.data[j]
  }

  /** Writing the least leaf and moving its column on keeps the merge invariant. */
  lemma Emit(s: Front, s': Front, out: seq<Tuple>, input: multiset<Tuple>, i: int)
    requires Merging(s, out, input) && Advanced(s, s', i)
    requires forall j :: 0 <= j < |s.data| ==> s.Head(i).key <= s.Head(j).key
    ensures Merging(s', out + [s.Head(i)], input)
  {
    var h, out' := s.Head(i), out + [s.Head(i)];
    EmitColumns(s, s', i);
    forall k, j | 0 <= k < |out'| && 0 <= j < |s.data|
      ensures out'[k].key <= s'.Head(j).key
    {
      assert out'[k].key <= h.key;
    }
    EmitBag(s, s', out, i);
  }

  lemma EmitColumns(s: Front, s': Front, i: int)
    requires s.Wf() && Advanced(s, s', i) && forall j :: 0 <= j < |s.data| ==> s.Column(j)
    ensures forall j :: 0 <= j < |s.data| ==> s'.Column(j)
    ensures forall j :: 0 <= j < |s.data| ==> s.Head(j).key <= s'.Head(j).key
  {
    forall j | 0 <= j < |s.data|
      ensures s'.Column(j) && s.Head(j).key <= s'.Head(j).key
    {
      assert s.Column(j);
      hide Closes, Flatten;
      if j != i {
        assert s'.At(j) == s.At(j);
      } else {
        var p, p' := s.At(i), s'.At(i);
        assert p[0] == s.Head(i);
        assert forall k :: 0 <= k < |p'| ==> p'[k] == p[k + 1];
      }
    }
  }

  lemma EmitBag(s: Front, s': Front, out: seq<Tuple>, i: int)
    requires Advanced(s, s', i)
    ensures multiset(out + [s.Head(i)]) + Bag(s'.Pending()) == multiset(out) + Bag(s.Pending())
  {
    hide Bag, Pend, Flatten;
    var p, q, h := s.Pending(), s'.At(i), s.Head(i);
    PendingAdvanced(s, s', i);
    hide Advanced, Front.Pending;
    BagUpdate(p, i, q);
    assert multiset(p[i]) == multiset{h} + multiset(q);
    BagShift(Bag(p[i := q]), Bag(p), multiset(q), multiset(out), h);
  }

  lemma PendingAdvanced(s: Front, s': Front, i: int)
    requires Advanced(s, s', i)
    ensures |s.Pending()| == |s.data| && s.Pending()[i] == [s.Head(i)] + s'.At(i)
    ensures s'.Pending() == s.Pending()[i := s'.At(i)]
  {
    hide Flatten;
    forall j | 0 <= j < |s.data|
      ensures s'.Pending()[j] == s.Pending()[i := s'.At(i)][j]
    {
    }
  }

  /** While some column is not closed, neither is one with a least leaf. */
  lemma LeastIsLive(s: Front, i: int, live: int)
    requires s.Wf() && 0 <= i < |s.data| && 0 <= live < |s.data| && s.data[live] != []
    requires s.Column(live) && s.Column(i) && s.Head(i).key <= s.Head(live).key
    ensures s.data[i] != []
  {
    assert s.At(live)[0] == s.Head(live);
  }

  /** When every column is closed the output is the whole input. */
  lemma Finished(s: Front, out: seq<Tuple>, input: multiset<Tuple>)
    requires Merging(s, out, input) && Closed(s.data, |s.data|) == |s.data|
    ensures Sorted(out) && multiset(out) == input
  {
    ClosedCount(s.data, |s.data|);
    EmptyBag(s.Pending());
  }

  /** Taking the next tuple of the current block. */
  lemma AdvancedWithin(s: Front, i: int)
    requires s.Wf() && 0 <= i < |s.data| && s.data[i] != [] && s.itrs[i] != [] && s.Column(i)
    ensures Advanced(s, Front(s.heads[i + 1 := s.itrs[i][0]], s.itrs[i := s.itrs[i][1..]], s.data), i)
  {
    hide Flatten, Sorted, Below;
    var s' := Front(s.heads[i + 1 := s.itrs[i][0]], s.itrs[i := s.itrs[i][1..]], s.data);
    var rest := Flatten(s.data[i]);
    PendTail(s.Head(i), s.itrs[i], rest);
    assert s.At(i) == [s.Head(i)] + s.itrs[i] + rest && s'.At(i) == [s.itrs[i][0]] + s.itrs[i][1..] + rest;
  }

  lemma PendTail(head: Tuple, itr: seq<Tuple>, rest: seq<Tuple>)
    requires itr != []
    ensures ([head] + itr + rest)[1..] == itr + rest == [itr[0]] + itr[1..] + rest
  {
  }

  /** Going on to the next block, or to the sentinel if that block is empty. */
  lemma AdvancedOver(s: Front, i: int, tuple: Tuple)
    requires s.Wf() && 0 <= i < |s.data| && s.data[i] != [] && s.itrs[i] == [] && s.Column(i)
    requires if s.data[i][0] == [] then tuple.key == ULONG_MAX else tuple == s.data[i][0][0]
    ensures Advanced(s, Front(s.heads[i + 1 := tuple],
                              s.itrs[i := if s.data[i][0] == [] then [] else s.data[i][0][1..]],
                              s.data[i := s.data[i][1..]]), i)
  {
    var b := s.data[i];
    var s' := Front(s.heads[i + 1 := tuple], s.itrs[i := if b[0] == [] then [] else b[0][1..]], s.data[i := b[1..]]);
    assert s.At(i)[1..] == b[0] + Flatten(b[1..]);
    if b[0] != [] {
      assert b[0] == [tuple] + b[0][1..];
      assert s'.At(i) == b[0] + Flatten(b[1..]);
    }
  }

  /** The sentinel never wins while a column is not closed. */
  lemma LiveWinner(s: Front, out: seq<Tuple>, input: multiset<Tuple>, i: int)
    requires Merging(s, out, input) && 0 <= i < |s.data|
    requires forall j :: 0 <= j < |s.data| ==> s.Head(i).key <= s.Head(j).key
    requires Closed(s.data, |s.data|) < |s.data|
    ensures s.data[i] != []
  {
    ClosedCount(s.data, |s.data|);
    var live :| 0 <= live < |s.data| && s.data[live] != [];
    LeastIsLive(s, i, live);
  }

  /** The first tuple of every first block starts a merge. */
  lemma FirstFront(data: seq<seq<Block>>, blocks: seq<Block>, s: Front)
    requires s.Wf() && |s.data| == |data| == |blocks| && forall i :: 0 <= i < |data| ==> Stream(data[i])
    requires forall i :: 0 <= i < |data| ==> |data[i]| >= 1 && blocks[i] == data[i][0] && s.data[i] == data[i][1..]
    requires forall i :: 0 <= i < |data| ==> |blocks[i]| >= 1 && s.heads[i + 1] == blocks[i][0]
    requires forall i :: 0 <= i < |data| ==> s.itrs[i] == blocks[i][1..]
    ensures Merging(s, [], Bag(FlattenAll(data)))
    ensures forall i :: 0 <= i < |data| ==> s.data[i] != []
  {
    forall i | 0 <= i < |data|
      ensures s.data[i] != [] && s.Column(i) && s.At(i) == Flatten(data[i])
    {
      assert blocks[i] == [s.Head(i)] + s.itrs[i];
      assert s.At(i) == data[i][0] + Flatten(data[i][1..]);
    }
    assert s.Pending() == FlattenAll(data);
  }

  /** The number of closed columns among the first k. */
  ghost function Closed(data: seq<seq<Block>>, k: nat): nat
    requires k <= |data|
  {
    if k == 0 then 0 else Closed(data, k - 1) + if data[k - 1] == [] then 1 else 0
  }

  lemma {:induction false} ClosedCount(data: seq<seq<Block>>, k: nat)
    requires k <= |data|
    ensures Closed(data, k) <= k
    ensures Closed(data, k) == k <==> forall i :: 0 <= i < k ==> data[i] == []
  {
    if k > 0 {
      ClosedCount(data, k - 1);
    }
  }

  lemma {:induction false} ClosedNone(data: seq<seq<Block>>, k: nat)
    requires k <= |data| && forall i :: 0 <= i < |data| ==> data[i] != []
    ensures Closed(data, k) == 0
  {
    if k > 0 {
      ClosedNone(data, k - 1);
    }
  }

  lemma {:induction false} ClosedUpdate(data: seq<seq<Block>>, i: int, bs: seq<Block>, k: nat)
    requires k <= |data| && 0 <= i < |data| && data[i] != []
    ensures Closed(data[i := bs], k) == Closed(data, k) + if i < k && bs == [] then 1 else 0
  {
    if k > 0 {
      ClosedUpdate(data, i, bs, k - 1);
    }
  }
}

module Merge {
  import opened LoserTrees
  import opened Streams
  import opened Tournament
  import opened Tuples

  class PCBuffer {
    const row: nat
    /** Blocks that each column hands over in order; popping an empty column waits for the next one. */
    var data: seq<seq<Block>>
    var itrs: seq<seq<Tuple>>
    var lt: LoserTree
    var array_: array<Tuple>
    var begin: bool
    var finished: nat

    ghost const input: multiset<Tuple>
    ghost var out: seq<Tuple>

    ghost function Columns(): (s: Front)
      reads this, array_
    {
      Front(array_[..], itrs, data)
    }

    /** Nothing has been merged yet. */
    ghost predicate Waiting()
      reads this
    {
      && row >= 2 && !begin && finished == 0 && out == [] && |data| == row
      && (forall i :: 0 <= i < row ==> Stream(data[i]))
      && input == Bag(FlattenAll(data))
    }

    ghost predicate Running()
      reads this, array_
    {
      && row >= 2 && begin && |data| == |itrs| == row && array_.Length == row + 1
      && Merging(Columns(), out, input) && finished == Closed(data, row)
    }

    /** Between two calls. */
    ghost predicate Valid()
      reads this, array_, lt, lt.B, lt.L
    {
      if begin then Running() && finished < row && lt.Valid() && lt.L == array_ && lt.n == row else Waiting()
    }

    constructor (data: seq<seq<Block>>)
      requires |data| >= 2 && forall i :: 0 <= i < |data| ==> Stream(data[i])
      ensures Valid() && out == [] && this.data == data && row == |data| && fresh(array_) && fresh(lt)
      ensures fresh(lt.B) && fresh(lt.L)
      ensures input == Bag(FlattenAll(data))
    {
      row, this.data, itrs := |data|, data, [];
      lt := new LoserTree();
      array_ := new Tuple[0];
      begin, finished, out := false, 0, [];
      input := Bag(FlattenAll(data));
    }

    /** Lines 59-61: pop the first block of every column. */
    method TakeBlocks()
      requires |data| == row && forall i :: 0 <= i < row ==> |data[i]| >= 1
      modifies this`itrs, this`data
      ensures |itrs| == |data| == row
      ensures forall i :: 0 <= i < row ==> itrs[i] == old(data)[i][0] && data[i] == old(data)[i][1..]
    {
      itrs := [];
      for i := 0 to row
        invariant |itrs| == i && |data| == row
        invariant forall j :: 0 <= j < i ==> itrs[j] == old(data)[j][0] && data[j] == old(data)[j][1..]
        invariant forall j :: i <= j < row ==> data[j] == old(data)[j]
      {
        itrs, data := itrs + [data[i][0]], data[i := data[i][1..]];
      }
    }

    /** Lines 65-68: the leaves are the first tuples. */
    method TakeHeads()
      requires |itrs| == row && forall i :: 0 <= i < row ==> |itrs[i]| >= 1
      modifies this`itrs, this`array_
      ensures |itrs| == row && fresh(array_) && array_.Length == row + 1
      ensures forall i :: 0 <= i < row ==> array_[i + 1] == old(itrs)[i][0] && itrs[i] == old(itrs)[i][1..]
    {
      array_ := new Tuple[row + 1];
      for i := 0 to row
        modifies this`itrs, array_
        invariant |itrs| == row
        invariant forall j :: 1 <= j <= i ==> array_[j] == old(itrs)[j - 1][0]
        invariant forall j :: 0 <= j < i ==> itrs[j] == old(itrs)[j][1..]
        invariant forall j :: i <= j < row ==> itrs[j] == old(itrs)[j]
      {
        array_[i + 1], itrs := itrs[i][0], itrs[i := itrs[i][1..]];
      }
    }

    /** Lines 59-68: the first tuple of every column is out of its block. */
    method Open()
      requires Waiting()
      modifies this`itrs, this`data, this`array_
      ensures |data| == |itrs| == row && fresh(array_) && array_.Length == row + 1
      ensures Merging(Columns(), [], input) && Closed(data, row) == 0
    {
      ghost var data0 := data;
      assert forall i :: 0 <= i < row ==> |data0[i]| >= 1 && |data0[i][0]| >= 1;
      hide Stream, Merging, Closed, Bag, FlattenAll;
      TakeBlocks();
      ghost var blocks := itrs;
      TakeHeads();
      FirstFront(data0, blocks, Columns());
      ClosedNone(data, row);
    }

    /** Lines 59-70: open every column and build the tree over the first tuples. */
    method Start()
      requires Waiting()
      modifies this, lt
      ensures Running() && finished == 0 && lt.Valid() && lt.L == array_ && lt.n == row
      ensures lt == old(lt) && out == old(out) && fresh(array_) && fresh(lt.B)
    {
      hide Stream, Merging, Closed, Bag, FlattenAll, Settled;
      Open();
      lt.Initialize(array_);
      begin := true;
    }

    /** Lines 81-101: the next tuple of column i, or the sentinel when its closing block arrives. */
    method Advance(i: int) returns (tuple: Tuple)
      requires Running() && 0 <= i < row && data[i] != []
      modifies this`itrs, this`data, this`finished
      ensures Advanced(old(Columns()), Front(array_[..][i + 1 := tuple], itrs, data), i)
      ensures |data| == |itrs| == row && finished == Closed(data, row)
    {
      ghost var s := Columns();
      assert s.Column(i);
      hide Merging, Sorted, Advanced, Closed;
      if itrs[i] != [] {
        tuple := itrs[i][0];
        itrs := itrs[i := itrs[i][1..]];
        AdvancedWithin(s, i);
      } else {
        var block := data[i][0];
        ClosedUpdate(data, i, data[i][1..], row);
        data := data[i := data[i][1..]];
        if |block| == 0 {
          tuple := Tuple(ULONG_MAX, 0);
          finished := finished + 1;
        } else {
          itrs := itrs[i := block[1..]];
          tuple := block[0];
        }
        AdvancedOver(s, i, tuple);
      }
    }

    /** Lines 77-104: write the winner, fetch the next tuple of its column and replay. */
    method Step() returns (done: bool, temp: Tuple)
      requires Valid() && begin
      modifies this`itrs, this`data, this`finished, this`out, array_, lt, lt.B
      ensures out == old(out) + [temp] && lt == old(lt) && lt.B == old(lt.B)
      ensures !done ==> Valid() && begin
      ensures done ==> Sorted(out) && multiset(out) == input
    {
      hide Settled, Replaying, Merging, Sorted, Closed, Advanced;
      ghost var s, o := Columns(), out;
      var winner := lt.Winner();
      temp := array_[winner];
      forall j | 0 <= j < row
        ensures s.Head(winner - 1).key <= s.Head(j).key
      {
        assert Compare(lt.L[winner], lt.L[j + 1]);
      }
      LiveWinner(s, o, input, winner - 1);
      var tuple := Advance(winner - 1);
      ghost var s' := Front(s.heads[winner := tuple], itrs, data);
      Emit(s, s', o, input, winner - 1);
      out := out + [temp];
      ClosedCount(data, row);
      done := finished == row;
      if done {
        Finished(s', out, input);
      } else {
        lt.Load(winner, tuple);
        assert Columns() == s';
        lt.Replay(winner);
      }
    }

    /**
     Fills one output block of the given capacity. Over all calls up to and
     including the one that returns false, the tuples written are the whole input
     in key order.
     */
    method GetSorted(capacity: nat) returns (more: bool, block: seq<Tuple>)
      requires Valid()
      modifies this, array_, lt, lt.B
      ensures out == old(out) + block && Sorted(out) && |block| <= capacity
      ensures more ==> Valid() && begin && |block| == capacity
      ensures !more ==> multiset(out) == input && |block| >= 1
      ensures lt == old(lt) && (array_ == old(array_) || fresh(array_)) && (lt.B == old(lt.B) || fresh(lt.B))
    {
      hide Sorted, Bag;
      if !begin {
        Start();
      }
      block := [];
      while |block| < capacity
        invariant begin && Valid() && |block| <= capacity && out == old(out) + block
        invariant lt == old(lt) && (array_ == old(array_) || fresh(array_)) && (lt.B == old(lt.B) || fresh(lt.B))
      {
        var done, temp := Step();
        block := block + [temp];
        if done {
          return false, block;
        }
      }
      more := true;
    }

    ghost predicate Partial()
      reads this
    {
      |out| <= |input|
    }

    lemma WrittenFits()
      requires Valid()
      ensures Partial()
    {
      if begin {
        assert input == multiset(out) + Bag(Columns().Pending());
        assert |multiset(out)| == |out|;
      }
    }

    /**
     The consumer of src/physical/m_shuffle_upper.cpp:119-137: calls until one returns
     false. Everything is written, but only the blocks before that call are handed on;
     the last one, with between one and capacity tuples, is not.
     */
    method Drain(capacity: nat) returns (handed: seq<Block>, last: Block)
      requires Valid() && out == [] && capacity >= 1
      modifies this, array_, lt, lt.B
      ensures out == Flatten(handed) + last && Sorted(out) && multiset(out) == input
      ensures Full(handed, capacity) && 1 <= |last| <= capacity
    {
      handed := [];
      assert Flatten(handed) == [] && Full(handed, capacity);
      hide Sorted, Bag, Running, Waiting, Flatten, Full;
      while true
        invariant Valid() && out == Flatten(handed) && lt == old(lt) && Full(handed, capacity)
        invariant (array_ == old(array_) || fresh(array_)) && (lt.B == old(lt.B) || fresh(lt.B))
        decreases |input| - |out|
      {
        WrittenFits();
        var more, block := GetSorted(capacity);
        if !more {
          return handed, block;
        }
        OneMoreBlock(handed, block, capacity);
        handed := handed + [block];
        WrittenFits();
      }
    }
  }

  ghost predicate Full(bs: seq<Block>, capacity: nat) {
    forall k :: 0 <= k < |bs| ==> |bs[k]| == capacity
  }

  lemma OneMoreBlock(bs: seq<Block>, b: Block, capacity: nat)
    requires Full(bs, capacity) && |b| == capacity
    ensures Full(bs + [b], capacity) && Flatten(bs + [b]) == Flatten(bs) + b
  {
    FlattenAppend(bs, b);
  }
}
