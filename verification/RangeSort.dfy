/**
 The range sort of src/physical/m_sort.cpp: tuples are dealt into buckets by key
 range, every bucket is sorted in descending order, and `execute` hands out the
 buckets one after the other, each from its end.
 */
module RangeSort {
  import opened Routing
  import opened Tuples

  ghost predicate Descending(s: seq<Tuple>) {
    forall i, j :: 0 <= i < j < |s| ==> s[i].key >= s[j].key
  }

  /** Where t belongs in a descending list. */
  method Insert(r: seq<Tuple>, t: Tuple) returns (r': seq<Tuple>)
    requires Descending(r)
    ensures Descending(r') && multiset(r') == multiset(r) + multiset{t}
  {
    var p := 0;
    while p < |r| && r[p].key >= t.key
      invariant 0 <= p <= |r| && forall k :: 0 <= k < p ==> r[k].key >= t.key
    {
      p := p + 1;
    }
    InsertedAt(r, p, t);
    r' := r[..p] + [t] + r[p..];
  }

  lemma InsertedAt(r: seq<Tuple>, p: nat, t: Tuple)
    requires Descending(r) && p <= |r|
    requires (forall k :: 0 <= k < p ==> r[k].key >= t.key) && (p < |r| ==> r[p].key < t.key)
    ensures Descending(r[..p] + [t] + r[p..])
    ensures multiset(r[..p] + [t] + r[p..]) == multiset(r) + multiset{t}
  {
    var x := r[..p] + [t] + r[p..];
    forall i, j | 0 <= i < j < |x|
      ensures x[i].key >= x[j].key
    {
      assert x[i] == if i < p then r[i] else if i == p then t else r[i - 1];
      assert x[j] == if j < p then r[j] else if j == p then t else r[j - 1];
    }
    InsertedBag(r, p, t);
  }

  lemma InsertedBag(r: seq<Tuple>, p: nat, t: Tuple)
    requires p <= |r|
    ensures multiset(r[..p] + [t] + r[p..]) == multiset(r) + multiset{t}
  {
    assert r == r[..p] + r[p..];
  }

  /** A descending order of one bucket, as the sort phase leaves it. */
  method SortDescending(s: seq<Tuple>) returns (r: seq<Tuple>)
    ensures Descending(r) && multiset(r) == multiset(s)
  {
    r := [];
    for i := 0 to |s|
      invariant Descending(r) && multiset(r) == multiset(s[..i])
    {
      r := Insert(r, s[i]);
      assert s[..i + 1] == s[..i] + [s[i]];
    }
    assert s[..|s|] == s;
  }

  /** No tuple of a has a larger key than a tuple of b. */
  ghost predicate Before(a: seq<Tuple>, b: seq<Tuple>) {
    forall i, j :: 0 <= i < |a| && 0 <= j < |b| ==> a[i].key <= b[j].key
  }

  ghost predicate Apart(ranges: seq<seq<Tuple>>) {
    forall b, b' :: 0 <= b < b' < |ranges| ==> Before(ranges[b], ranges[b'])
  }

  lemma DealtIsApart(ranges: seq<seq<Tuple>>, bounds: seq<int>)
    requires Dealt(ranges, bounds)
    ensures Apart(ranges)
  {
    forall b, b', k, k' | 0 <= b < b' < |ranges| && 0 <= k < |ranges[b]| && 0 <= k' < |ranges[b']|
      ensures ranges[b][k].key <= ranges[b'][k'].key
    {
      assert FirstAbove(ranges[b][k].key, bounds, b) && FirstAbove(ranges[b'][k'].key, bounds, b');
    }
  }

  ghost function Total(ranges: seq<seq<Tuple>>): nat {
    if ranges == [] then 0 else |ranges[0]| + Total(ranges[1..])
  }

  lemma {:induction false} TotalUpdate(ranges: seq<seq<Tuple>>, b: int, r: seq<Tuple>)
    requires 0 <= b < |ranges|
    ensures Total(ranges[b := r]) == Total(ranges) - |ranges[b]| + |r|
  {
    if b == 0 {
      assert ranges[b := r][1..] == ranges[1..];
    } else {
      TotalUpdate(ranges[1..], b - 1, r);
      assert ranges[b := r][1..] == ranges[1..][b - 1 := r];
    }
  }

  lemma {:induction false} TotalZero(ranges: seq<seq<Tuple>>)
    ensures Total(ranges) == 0 <==> forall b :: 0 <= b < |ranges| ==> ranges[b] == []
  {
    if ranges != [] {
      TotalZero(ranges[1..]);
      assert forall b :: 1 <= b < |ranges| ==> ranges[b] == ranges[1..][b - 1];
      assert (forall b :: 0 <= b < |ranges| ==> ranges[b] == []) <==>
        ranges[0] == [] && forall b :: 0 <= b < |ranges[1..]| ==> ranges[1..][b] == [];
    }
  }

  /** Nothing written is above anything left, and together they are the input. */
  ghost predicate Emitting(ranges: seq<seq<Tuple>>, count: nat, out: seq<Tuple>, input: multiset<Tuple>) {
    && count <= |ranges|
    && (forall b :: 0 <= b < count ==> ranges[b] == [])
    && (forall b :: 0 <= b < |ranges| ==> Descending(ranges[b]))
    && Apart(ranges)
    && Sorted(out)
    && (forall b :: 0 <= b < |ranges| ==> Before(out, ranges[b]))
    && multiset(out) + Bag(ranges) == input
  }

  /** Popping the end of the current bucket writes the least tuple left. */
  lemma EmitLast(ranges: seq<seq<Tuple>>, count: nat, out: seq<Tuple>, input: multiset<Tuple>)
    requires Emitting(ranges, count, out, input) && count < |ranges| && ranges[count] != []
    ensures var r := ranges[count]; var t := r[|r| - 1]; var r' := r[..|r| - 1];
            Emitting(ranges[count := r'], if r' == [] then count + 1 else count, out + [t], input)
  {
    hide Before, Descending, Sorted, Bag;
    var r := ranges[count];
    var t, r' := r[|r| - 1], r[..|r| - 1];
    LastIsLeast(r, out);
    WrittenSorted(out, t);
    forall b | 0 <= b < |ranges| && b != count
      ensures Before(out + [t], ranges[b]) && (b < count ==> ranges[b] == []) && Descending(ranges[b])
      ensures b < count ==> Before(ranges[b], r')
      ensures b > count ==> Before(r', ranges[b])
    {
      OtherBucket(out, r, ranges[b], b < count);
    }
    EmitLastBag(ranges, count, out);
  }

  lemma LastIsLeast(r: seq<Tuple>, out: seq<Tuple>)
    requires r != [] && Descending(r) && Before(out, r)
    ensures var n := |r| - 1;
            Descending(r[..n]) && Before(out + [r[n]], r[..n]) && forall i :: 0 <= i < |out| ==> out[i].key <= r[n].key
  {
  }

  lemma OtherBucket(out: seq<Tuple>, r: seq<Tuple>, other: seq<Tuple>, done: bool)
    requires r != [] && Before(out, other) && if done then other == [] else Before(r, other)
    ensures var n := |r| - 1;
            Before(out + [r[n]], other) && if done then Before(other, r[..n]) else Before(r[..n], other)
  {
  }

  lemma WrittenSorted(out: seq<Tuple>, t: Tuple)
    requires Sorted(out) && forall i :: 0 <= i < |out| ==> out[i].key <= t.key
    ensures Sorted(out + [t])
  {
  }

  lemma EmitLastBag(ranges: seq<seq<Tuple>>, count: nat, out: seq<Tuple>)
    requires count < |ranges| && ranges[count] != []
    ensures var r := ranges[count]; var n := |r| - 1;
            multiset(out + [r[n]]) + Bag(ranges[count := r[..n]]) == multiset(out) + Bag(ranges)
  {
    var r := ranges[count];
    var t, r' := r[|r| - 1], r[..|r| - 1];
    BagUpdate(ranges, count, r');
    assert r == r' + [t];
    assert multiset(r) == multiset{t} + multiset(r');
    BagShift(Bag(ranges[count := r']), Bag(ranges), multiset(r'), multiset(out), t);
  }

  /** Reordering one bucket keeps what is in the buckets. */
  lemma Reordered(ranges: seq<seq<Tuple>>, bounds: seq<int>, b: nat, r: seq<Tuple>)
    requires Dealt(ranges, bounds) && b < |ranges| && multiset(r) == multiset(ranges[b])
    ensures Dealt(ranges[b := r], bounds)
    ensures Bag(ranges[b := r]) == Bag(ranges) && Total(ranges[b := r]) == Total(ranges)
  {
    assert |r| == |multiset(r)| == |ranges[b]|;
    TotalUpdate(ranges, b, r);
    BagUpdate(ranges, b, r);
    BagCancel(Bag(ranges[b := r]), Bag(ranges), multiset(r), multiset{});
    forall k | 0 <= k < |r|
      ensures FirstAbove(r[k].key, bounds, b)
    {
      assert r[k] in multiset(ranges[b]);
      var j :| 0 <= j < |ranges[b]| && ranges[b][j] == r[k];
    }
  }

  lemma {:induction false} NothingDealt(ranges: seq<seq<Tuple>>)
    requires forall b :: 0 <= b < |ranges| ==> ranges[b] == []
    ensures Bag(ranges) == multiset{} && Total(ranges) == 0
  {
    EmptyBag(ranges);
    TotalZero(ranges);
  }

  class Sort {
    /** dist_ranges_ */
    const bounds: seq<int>
    var ranges: seq<seq<Tuple>>
    var count: nat
    var tempCur: nat

    ghost var input: multiset<Tuple>
    ghost var out: seq<Tuple>

    ghost predicate Valid()
      reads this
    {
      Emitting(ranges, count, out, input) && tempCur == Total(ranges)
    }

    constructor (bounds: seq<int>)
      ensures this.bounds == bounds && fresh(this)
    {
      this.bounds := bounds;
      ranges, count, tempCur, input, out := [], 0, 0, multiset{}, [];
    }

    /** Lines 87-101 and 134-141: deal every tuple into the bucket of its range. */
    method Deal(tuples: seq<Tuple>)
      requires forall k :: 0 <= k < |tuples| ==> HasRange(tuples[k].key, bounds)
      modifies this
      ensures Dealt(ranges, bounds) && Bag(ranges) == multiset(tuples) && Total(ranges) == tempCur == |tuples|
      ensures count == old(count)
    {
      hide Bag, Total, Dealt;
      tempCur := |tuples|;
      ranges := seq(|bounds|, i => []);
      NothingDealt(ranges);
      StartDealt(ranges, bounds);
      for k := 0 to |tuples|
        invariant Dealt(ranges, bounds) && |ranges| == |bounds| && tempCur == |tuples| && count == old(count)
        invariant Bag(ranges) == multiset(tuples[..k]) && Total(ranges) == k
      {
        var r := Partition(tuples[k].key, bounds);
        assert HasRange(tuples[k].key, bounds);
        DealOne(ranges, bounds, r.value, tuples[k]);
        TotalUpdate(ranges, r.value, ranges[r.value] + [tuples[k]]);
        assert tuples[..k + 1] == tuples[..k] + [tuples[k]];
        ranges := ranges[r.value := ranges[r.value] + [tuples[k]]];
      }
      assert tuples[..|tuples|] == tuples;
    }

    /** The partition and sort phases of prelude. */
    method Prelude(tuples: seq<Tuple>)
      requires forall k :: 0 <= k < |tuples| ==> HasRange(tuples[k].key, bounds)
      modifies this
      ensures Valid() && input == multiset(tuples) && out == [] && |ranges| == |bounds|
    {
      hide Bag, Total, Descending, Dealt;
      Deal(tuples);
      ghost var total := tempCur;
      DealtLength(ranges, bounds);
      for b := 0 to |ranges|
        invariant |ranges| == |bounds| && Dealt(ranges, bounds) && tempCur == total
        invariant Bag(ranges) == multiset(tuples) && Total(ranges) == total
        invariant forall i :: 0 <= i < b ==> Descending(ranges[i])
      {
        var r := SortDescending(ranges[b]);
        Reordered(ranges, bounds, b, r);
        ranges := ranges[b := r];
      }
      DealtIsApart(ranges, bounds);
      count := 0;
      input, out := multiset(tuples), [];
    }

    /** Lines 169-204: write one tuple, or step over an empty bucket. */
    method Turn() returns (written: seq<Tuple>)
      requires Valid() && tempCur > 0
      modifies this
      ensures Valid() && input == old(input) && |ranges| == old(|ranges|) && out == old(out) + written
      ensures written == [] ==> count == old(count) + 1 && tempCur == old(tempCur)
      ensures written != [] ==> |written| == 1 && tempCur == old(tempCur) - 1
    {
      hide Emitting, Total;
      SomeBucketLeft(ranges, count, out, input);
      var r := ranges[count];
      if r != [] {
        var t := r[|r| - 1];
        EmitLast(ranges, count, out, input);
        TotalUpdate(ranges, count, r[..|r| - 1]);
        ranges := ranges[count := r[..|r| - 1]];
        tempCur := tempCur - 1;
        out := out + [t];
        if ranges[count] == [] {
          count := count + 1;
        }
        written := [t];
      } else {
        StepOver(ranges, count, out, input);
        count := count + 1;
        written := [];
      }
    }

    /** One output block; false when nothing is left. */
    method Execute(capacity: nat) returns (more: bool, block: seq<Tuple>)
      requires Valid()
      modifies this
      ensures Valid() && input == old(input) && out == old(out) + block && Sorted(out)
      ensures (more <==> old(tempCur) > 0) && tempCur == old(tempCur) - |block|
      ensures !more ==> multiset(out) == input
      ensures |block| <= capacity && (more ==> |block| == capacity || tempCur == 0)
    {
      hide Sorted, Apart, Bag, Total;
      block := [];
      if tempCur == 0 {
        AllWritten(ranges, count, out, input);
        return false, block;
      }
      while |block| < capacity
        invariant Valid() && input == old(input) && out == old(out) + block && |block| <= capacity
        invariant tempCur > 0 && tempCur == old(tempCur) - |block|
        decreases tempCur, |ranges| - count
      {
        var written := Turn();
        block := block + written;
        if tempCur == 0 {
          break;
        }
      }
      more := true;
    }

    /** The consumer: calls until one returns false. */
    method Drain(capacity: nat) returns (all: seq<Tuple>)
      requires Valid() && out == [] && capacity >= 1
      modifies this
      ensures all == out && Sorted(all) && multiset(all) == old(input)
    {
      hide Sorted, Emitting;
      all := [];
      while true
        invariant Valid() && all == out && input == old(input)
        decreases tempCur
      {
        var more, block := Execute(capacity);
        all := all + block;
        if !more {
          break;
        }
      }
    }
  }

  lemma StartDealt(ranges: seq<seq<Tuple>>, bounds: seq<int>)
    requires |ranges| == |bounds| && forall b :: 0 <= b < |ranges| ==> ranges[b] == []
    ensures Dealt(ranges, bounds)
  {
  }

  lemma DealtLength(ranges: seq<seq<Tuple>>, bounds: seq<int>)
    requires Dealt(ranges, bounds)
    ensures |ranges| == |bounds|
  {
  }

  /** While tuples are left the current bucket number is not past the last bucket. */
  lemma SomeBucketLeft(ranges: seq<seq<Tuple>>, count: nat, out: seq<Tuple>, input: multiset<Tuple>)
    requires Emitting(ranges, count, out, input) && Total(ranges) > 0
    ensures count < |ranges|
  {
    TotalZero(ranges);
  }

  lemma StepOver(ranges: seq<seq<Tuple>>, count: nat, out: seq<Tuple>, input: multiset<Tuple>)
    requires Emitting(ranges, count, out, input) && count < |ranges| && ranges[count] == []
    ensures Emitting(ranges, count + 1, out, input)
  {
  }

  lemma AllWritten(ranges: seq<seq<Tuple>>, count: nat, out: seq<Tuple>, input: multiset<Tuple>)
    requires Emitting(ranges, count, out, input) && Total(ranges) == 0
    ensures multiset(out) == input
  {
    TotalZero(ranges);
    EmptyBag(ranges);
  }
}
