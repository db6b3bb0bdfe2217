/**
 The external-sort heap of src/common/m_trees.cpp: sift-down, heap building and
 replacement selection into sorted runs.
 */
module HeapOrder {
  import opened Ordering

  function Parent(c: int): int {
    (c - 1) / 2
  }

  /** Every node below len whose parent is at lo or later is not before its parent. */
  ghost predicate Heaped(vs: seq<SortOrder>, s: seq<Row>, lo: int, len: int)
    requires 0 <= lo && len <= |s|
  {
    forall c :: 1 <= c < len && Parent(c) >= lo ==> Leq(vs, s[Parent(c)], s[c])
  }

  /** The same, except that the tuple at cur may still have to sink. */
  ghost predicate Sinking(vs: seq<SortOrder>, s: seq<Row>, lo: int, cur: int, len: int)
    requires 0 <= lo <= cur < len <= |s|
  {
    && (forall c :: 1 <= c < len && Parent(c) >= lo && Parent(c) != cur ==> Leq(vs, s[Parent(c)], s[c]))
    && (cur > lo && Parent(cur) >= lo ==>
          forall c :: 1 <= c < len && Parent(c) == cur ==> Leq(vs, s[Parent(cur)], s[c]))
  }

  ghost function Swap(s: seq<Row>, i: int, j: int): (r: seq<Row>)
    requires 0 <= i < |s| && 0 <= j < |s|
    ensures |r| == |s|
  {
    s[i := s[j]][j := s[i]]
  }

  lemma SwapKeepsBag(s: seq<Row>, i: int, j: int, len: int)
    requires 0 <= i < len <= |s| && 0 <= j < len
    ensures multiset(Swap(s, i, j)[..len]) == multiset(s[..len])
  {
    assert Swap(s, i, j)[..len] == s[..len][i := s[j]][j := s[i]];
  }

  /** child is the least child of cur. */
  ghost predicate LeastChild(vs: seq<SortOrder>, s: seq<Row>, cur: int, len: int, child: int)
    requires 0 <= cur < len <= |s|
  {
    && 1 <= child < len && Parent(child) == cur
    && forall c :: 1 <= c < len && Parent(c) == cur ==> Leq(vs, s[child], s[c])
  }

  /** Swapping with the least child moves the doubt down to that child. */
  lemma SinkStep(vs: seq<SortOrder>, s: seq<Row>, lo: int, cur: int, len: int, child: int)
    requires 0 <= lo <= cur < len <= |s| && Sinking(vs, s, lo, cur, len)
    requires LeastChild(vs, s, cur, len, child) && !Leq(vs, s[cur], s[child])
    ensures child > cur && Sinking(vs, Swap(s, cur, child), lo, child, len)
  {
    var t := Swap(s, cur, child);
    LeqTotal(vs, s[cur], s[child]);
    forall c | 1 <= c < len && Parent(c) >= lo && Parent(c) != child
      ensures Leq(vs, t[Parent(c)], t[c])
    {
    }
    forall c | 1 <= c < len && Parent(c) == child
      ensures Leq(vs, t[Parent(child)], t[c])
    {
      assert Parent(c) != cur && Leq(vs, s[Parent(c)], s[c]);
    }
  }

  lemma SinkDone(vs: seq<SortOrder>, s: seq<Row>, lo: int, cur: int, len: int)
    requires 0 <= lo <= cur < len <= |s| && Sinking(vs, s, lo, cur, len)
    requires forall c :: 1 <= c < len && Parent(c) == cur ==> Leq(vs, s[cur], s[c])
    ensures Heaped(vs, s, lo, len)
  {
  }

  /** If the least child is not before cur, no child is. */
  lemma NoChildBefore(vs: seq<SortOrder>, s: seq<Row>, cur: int, len: int, child: int)
    requires 0 <= cur < len <= |s| && LeastChild(vs, s, cur, len, child) && Leq(vs, s[cur], s[child])
    ensures forall c :: 1 <= c < len && Parent(c) == cur ==> Leq(vs, s[cur], s[c])
  {
    forall c | 1 <= c < len && Parent(c) == cur
      ensures Leq(vs, s[cur], s[c])
    {
      LeqTransitive(vs, s[cur], s[child], s[c]);
    }
  }

  /** The root of a heap is a least element. */
  lemma {:induction false} RootIsLeast(vs: seq<SortOrder>, s: seq<Row>, len: int, j: int)
    requires 0 <= j < len <= |s| && Heaped(vs, s, 0, len)
    ensures Leq(vs, s[0], s[j])
    decreases j
  {
    if j == 0 {
      LeqTotal(vs, s[0], s[0]);
    } else {
      RootIsLeast(vs, s, len, Parent(j));
      LeqTransitive(vs, s[0], s[Parent(j)], s[j]);
    }
  }

  ghost predicate Sorted(vs: seq<SortOrder>, s: seq<Row>) {
    forall i, j :: 0 <= i < j < |s| ==> Leq(vs, s[i], s[j])
  }

  /** Every tuple of the run is at most every tuple of the heap part. */
  ghost predicate Bounds(vs: seq<SortOrder>, run: seq<Row>, s: seq<Row>) {
    forall i, j :: 0 <= i < |run| && 0 <= j < |s| ==> Leq(vs, run[i], s[j])
  }
}

module Heaps {
  import opened Ordering
  import opened HeapOrder

  /** All tuples of all persisted runs. */
  ghost function Stored(files: seq<seq<Row>>): multiset<Row> {
    if files == [] then multiset{} else Stored(files[..|files| - 1]) + multiset(files[|files| - 1])
  }

  /** Every run is sorted and has at least n tuples. */
  ghost predicate GoodRuns(vs: seq<SortOrder>, files: seq<seq<Row>>, n: nat) {
    forall f :: 0 <= f < |files| ==> Sorted(vs, files[f]) && |files[f]| >= n
  }

  /** The input is what was persisted, what is in the current run and what the array holds. */
  ghost predicate Balanced(input: multiset<Row>, files: seq<seq<Row>>, run: seq<Row>, held: seq<Row>) {
    input == Stored(files) + multiset(run) + multiset(held)
  }

  /** Writing top and holding t instead. */
  lemma Swapped(input: multiset<Row>, files: seq<seq<Row>>, run: seq<Row>, held: seq<Row>, held': seq<Row>,
                top: Row, t: Row)
    requires Balanced(input, files, run, held)
    requires multiset(held') + multiset{top} == multiset(held) + multiset{t}
    ensures Balanced(input + multiset{t}, files, run + [top], held')
  {
    var st := Stored(files);
    forall x
      ensures (input + multiset{t})[x] == (st + multiset(run + [top]) + multiset(held'))[x]
    {
      assert (multiset(held') + multiset{top})[x] == (multiset(held) + multiset{t})[x];
      assert multiset(run + [top])[x] == multiset(run)[x] + multiset{top}[x];
      assert input[x] == (st + multiset(run) + multiset(held))[x];
    }
  }

  lemma PersistRun(vs: seq<SortOrder>, input: multiset<Row>, files: seq<seq<Row>>, run: seq<Row>, held: seq<Row>,
                   n: nat)
    requires Balanced(input, files, run, held) && GoodRuns(vs, files, n) && Sorted(vs, run) && |run| >= n
    ensures Balanced(input, files + [run], [], held) && GoodRuns(vs, files + [run], n)
  {
    assert (files + [run])[..|files|] == files;
  }

  class Heap {
    /** HEAP_SIZE */
    const size: nat
    const vs: seq<SortOrder>
    const array_: array<Row>
    var waterline: int
    var initFlag: bool
    /** The contents of flex_buffer_, and the runs persisted so far. */
    var run: seq<Row>
    var files: seq<seq<Row>>

    /** Everything loaded and fed so far. */
    ghost var input: multiset<Row>

    ghost predicate Shaped()
      reads array_
    {
      array_.Length == size >= 1 && forall i :: 0 <= i < size ==> Wide(vs, array_[i])
    }

    /** No tuple is lost and every persisted run is sorted and at least as long as the heap. */
    ghost predicate Kept()
      reads this, array_
    {
      && Shaped()
      && GoodRuns(vs, files, size)
      && Balanced(input, files, run, array_[..])
    }

    /** A full array waits for HeapSort to start the next run. */
    ghost predicate AtStart()
      reads this, array_
    {
      Kept() && waterline == size && run == []
    }

    /** In a run: the heap holds tuples not before those written, the rest of the array waits for the next run. */
    ghost predicate InRun()
      reads this, array_
    {
      && Kept() && 1 <= waterline <= size
      && Heaped(vs, array_[..], 0, waterline)
      && Sorted(vs, run) && Bounds(vs, run, array_[..waterline])
      && |run| >= size - waterline
    }

    constructor (vs: seq<SortOrder>, tuples: seq<Row>)
      requires |tuples| >= 1 && forall i :: 0 <= i < |tuples| ==> Wide(vs, tuples[i])
      ensures AtStart() && size == |tuples| && this.vs == vs && input == multiset(tuples) && files == []
      ensures fresh(array_)
    {
      size, this.vs := |tuples|, vs;
      array_ := new Row[|tuples|](i requires 0 <= i < |tuples| => tuples[i]);
      waterline, initFlag, run, files, input := |tuples|, true, [], [], multiset(tuples);
      new;
      assert array_[..] == tuples;
    }

    /** Lines 245-246: the least child of i. */
    method PickChild(i: int, len: int) returns (child: int)
      requires Shaped() && 0 <= i && 2 * i + 1 < len <= size
      ensures LeastChild(vs, array_[..], i, len, child) && (child == 2 * i + 1 || child == 2 * i + 2)
    {
      child := 2 * i + 1;
      var s := array_[..];
      if child + 1 < len {
        LeqTotal(vs, s[child], s[child + 1]);
        var before := Compare(vs, array_[child], array_[child + 1]);
        if !before {
          child := child + 1;
        }
      }
      LeqTotal(vs, s[child], s[child]);
      assert forall c :: Parent(c) == i ==> c == 2 * i + 1 || c == 2 * i + 2;
    }

    /** Lines 232-260: sink the tuple at start until the subtree below it is a heap. */
    method HeapAgain(start: int, len: int)
      requires Shaped() && 0 <= start < len <= size
      requires Heaped(vs, array_[..], start + 1, len)
      modifies array_
      ensures Shaped() && Heaped(vs, array_[..], start, len)
      ensures multiset(array_[..len]) == old(multiset(array_[..len]))
      ensures array_[len..] == old(array_[len..])
    {
      hide Sinking, Heaped, LeastChild, Leq;
      var i := start;
      SinkStart(vs, array_[..], start, len);
      while 2 * i + 1 < len
        invariant start <= i < len && Shaped() && Sinking(vs, array_[..], start, i, len)
        invariant multiset(array_[..len]) == old(multiset(array_[..len]))
        invariant array_[len..] == old(array_[len..])
        decreases len - i
      {
        var child := PickChild(i, len);
        ghost var s := array_[..];
        var stop := Compare(vs, array_[i], array_[child]);
        if stop {
          NoChildBefore(vs, s, i, len, child);
          SinkDone(vs, s, start, i, len);
          return;
        }
        SinkStep(vs, s, start, i, len, child);
        SwapKeepsBag(s, i, child, len);
        array_[i], array_[child] := array_[child], array_[i];
        assert array_[..] == Swap(s, i, child);
        assert array_[..][..len] == array_[..len];
        i := child;
      }
      NoChildren(vs, array_[..], i, len);
      SinkDone(vs, array_[..], start, i, len);
    }

    /** Lines 209-212: build the heap at the start of a run. */
    method HeapSort()
      requires AtStart()
      modifies array_
      ensures InRun()
    {
      hide Heaped;
      var i := if waterline == 1 then 0 else (waterline - 2) / 2;
      LeavesAreHeaped(vs, array_[..], i + 1, waterline);
      while i >= 0
        invariant -1 <= i < waterline && Shaped() && Heaped(vs, array_[..], i + 1, waterline)
        invariant multiset(array_[..waterline]) == old(multiset(array_[..waterline]))
      {
        HeapAgain(i, waterline);
        i := i - 1;
      }
      assert array_[..waterline] == array_[..] && old(array_[..waterline]) == old(array_[..]);
    }

    /** Sinking the root keeps the array's contents and what bounds the heap part. */
    method Resink()
      requires Shaped() && 1 <= waterline <= size
      requires Heaped(vs, array_[..], 1, waterline) && Bounds(vs, run, array_[..waterline])
      modifies array_
      ensures Shaped() && Heaped(vs, array_[..], 0, waterline) && Bounds(vs, run, array_[..waterline])
      ensures multiset(array_[..]) == old(multiset(array_[..]))
      ensures array_[waterline..] == old(array_[waterline..])
    {
      hide Heaped;
      ghost var s := array_[..waterline];
      assert array_[..] == s + array_[waterline..];
      HeapAgain(0, waterline);
      assert array_[..] == array_[..waterline] + array_[waterline..];
      BoundsPermuted(vs, run, s, array_[..waterline]);
    }

    /** The root has just been written to the run r and is still in the array. */
    ghost predicate Wrote(r: seq<Row>)
      reads this, array_
    {
      && Shaped() && GoodRuns(vs, files, size) && Balanced(input, files, r, array_[..])
      && 1 <= waterline <= size && Heaped(vs, array_[..], 0, waterline)
      && run == r + [array_[0]] && Sorted(vs, run) && Bounds(vs, run, array_[..waterline]) && |run| > size - waterline
    }

    /** Lines 277 and 283: the new tuple takes the root. */
    method SetRoot(tuple: Row)
      requires Shaped() && Wide(vs, tuple)
      modifies array_
      ensures Shaped() && array_[..] == old(array_[..])[0 := tuple] && array_[..] == [tuple] + old(array_[1..])
    {
      hide Wide;
      array_[0] := tuple;
    }

    /** Lines 277-278: the next tuple can still follow in this run. */
    method TakeOver(tuple: Row, ghost r: seq<Row>)
      requires Wrote(r) && Wide(vs, tuple) && !Leq(vs, tuple, array_[0])
      modifies array_, this`input
      ensures InRun() && input == old(input) + multiset{tuple}
      ensures array_[waterline..] == old(array_[waterline..])
    {
      hide Leq, Heaped, Sorted, Bounds, Balanced, GoodRuns, Wide;
      ghost var s := array_[..];
      SetRoot(tuple);
      ghost var s' := array_[..];
      assert s'[waterline..] == s[waterline..];
      FollowOn(vs, r, s, waterline, tuple);
      ReplaceRoot(input, files, r, s, tuple);
      input := input + multiset{tuple};
      Resink();
      SameBag(input, files, run, s', array_[..]);
    }

    /** Lines 293-294: the last heap tuple moves to the root and the new one takes its slot. */
    method SetAside(tuple: Row)
      requires Shaped() && 1 <= waterline < size && Wide(vs, tuple)
      modifies array_
      ensures Shaped() && array_[..] == old(array_[..])[0 := old(array_[waterline])][waterline := tuple]
      ensures array_[waterline..] == [tuple] + old(array_[waterline + 1..])
    {
      hide Wide;
      array_[0] := array_[waterline];
      array_[waterline] := tuple;
    }

    /** Lines 281 and 293-295: the next tuple waits for the next run. */
    method WaitAside(tuple: Row, ghost r: seq<Row>)
      requires Wrote(r) && Wide(vs, tuple) && waterline > 1
      modifies array_, this`input, this`waterline
      ensures InRun() && input == old(input) + multiset{tuple}
      ensures waterline == old(waterline) - 1 && array_[waterline..] == [tuple] + old(array_[waterline..])
    {
      hide Leq, Heaped, Sorted, Bounds, Balanced, GoodRuns, Wide;
      ghost var s := array_[..];
      waterline := waterline - 1;
      SetAside(tuple);
      ghost var s' := array_[..];
      PutAside(vs, r, s, waterline, tuple);
      ReplaceRootByLast(input, files, r, s, waterline, tuple);
      input := input + multiset{tuple};
      Resink();
      SameBag(input, files, run, s', array_[..]);
    }

    /** Lines 281-290: the heap part is used up; persist the run. */
    method EndRun(tuple: Row, ghost r: seq<Row>)
      requires Wrote(r) && Wide(vs, tuple) && waterline == 1
      modifies this, array_
      ensures AtStart() && input == old(input) + multiset{tuple} && files == old(files) + [old(run)] && !initFlag
      ensures array_[..] == [tuple] + old(array_[1..])
    {
      hide Leq, Heaped, Sorted, Bounds, Balanced, GoodRuns, Wide;
      ghost var s := array_[..];
      SetRoot(tuple);
      ghost var s' := array_[..];
      ReplaceRoot(input, files, r, s, tuple);
      PersistRun(vs, input + multiset{tuple}, files, run, s', size);
      input, files, run := input + multiset{tuple}, files + [run], [];
      waterline, initFlag := size, false;
      assert array_[..] == s';
    }

    /**
     Lines 266-296: write the least tuple to the run and take in the next one, into
     the heap if it can still follow, behind the waterline if it cannot. When the
     heap part is used up the run is persisted.
     */
    method HeapAdjust(tuple: Row)
      requires InRun() && Wide(vs, tuple)
      modifies this, array_
      ensures input == old(input) + multiset{tuple}
      ensures files == old(files) ==> InRun() && run == old(run) + [old(array_[0])] && initFlag == old(initFlag)
      ensures files != old(files) ==>
                AtStart() && files == old(files) + [old(run) + [old(array_[0])]] && !initFlag
      ensures files != old(files) <==> Leq(vs, tuple, old(array_[0])) && old(waterline) == 1
      ensures !Leq(vs, tuple, old(array_[0])) ==>
                waterline == old(waterline) && array_[waterline..] == old(array_[waterline..])
      ensures Leq(vs, tuple, old(array_[0])) && old(waterline) > 1 ==>
                waterline == old(waterline) - 1 && array_[waterline..] == [tuple] + old(array_[waterline..])
      ensures files != old(files) ==> array_[..] == [tuple] + old(array_[1..])
    {
      hide Leq, Heaped, Sorted, Bounds, Balanced, GoodRuns, Wide;
      ghost var r := run;
      var top := array_[0];
      NextInRun(vs, r, array_[..], waterline);
      run := run + [top];
      var next := Compare(vs, tuple, top);
      if !next {
        TakeOver(tuple, r);
      } else if waterline > 1 {
        WaitAside(tuple, r);
      } else {
        EndRun(tuple, r);
      }
    }

    /** Any further tuples: HeapSort starts each run and HeapAdjust takes each tuple. */
    method Feed(tuples: seq<Row>)
      requires AtStart() && forall i :: 0 <= i < |tuples| ==> Wide(vs, tuples[i])
      modifies this, array_
      ensures Kept() && input == old(input) + multiset(tuples) && Sorted(vs, run)
    {
      hide Sorted, Heaped, Bounds, Balanced, GoodRuns;
      var starting := true;
      for i := 0 to |tuples|
        invariant if starting then AtStart() else InRun()
        invariant input == old(input) + multiset(tuples[..i])
      {
        if starting {
          HeapSort();
        }
        var n := |files|;
        HeapAdjust(tuples[i]);
        starting := |files| != n;
        assert tuples[..i + 1] == tuples[..i] + [tuples[i]];
      }
      assert tuples[..|tuples|] == tuples;
      EmptySorted(vs);
    }
  }

  lemma EmptySorted(vs: seq<SortOrder>)
    ensures Sorted(vs, [])
  {
  }

  lemma SameBag(input: multiset<Row>, files: seq<seq<Row>>, run: seq<Row>, held: seq<Row>, held': seq<Row>)
    requires Balanced(input, files, run, held) && multiset(held) == multiset(held')
    ensures Balanced(input, files, run, held')
  {
  }

  lemma BagReplace(s: seq<Row>, i: int, t: Row)
    requires 0 <= i < |s|
    ensures multiset(s[i := t]) + multiset{s[i]} == multiset(s) + multiset{t}
  {
  }

  /** The root is written and t takes its slot. */
  lemma ReplaceRoot(input: multiset<Row>, files: seq<seq<Row>>, run: seq<Row>, s: seq<Row>, t: Row)
    requires s != [] && Balanced(input, files, run, s)
    ensures Balanced(input + multiset{t}, files, run + [s[0]], s[0 := t])
  {
    hide Balanced;
    BagReplace(s, 0, t);
    Swapped(input, files, run, s, s[0 := t], s[0], t);
  }

  /** The root is written, the tuple at len takes its slot, and t takes the slot at len. */
  lemma ReplaceRootByLast(input: multiset<Row>, files: seq<seq<Row>>, run: seq<Row>, s: seq<Row>, len: nat, t: Row)
    requires 1 <= len < |s| && Balanced(input, files, run, s)
    ensures Balanced(input + multiset{t}, files, run + [s[0]], s[0 := s[len]][len := t])
  {
    hide Balanced;
    BagReplace(s, 0, s[len]);
    BagReplace(s[0 := s[len]], len, t);
    Swapped(input, files, run, s, s[0 := s[len]][len := t], s[0], t);
  }

  lemma BoundsPermuted(vs: seq<SortOrder>, run: seq<Row>, a: seq<Row>, b: seq<Row>)
    requires multiset(a) == multiset(b) && Bounds(vs, run, a)
    ensures Bounds(vs, run, b)
  {
    forall i, j | 0 <= i < |run| && 0 <= j < |b|
      ensures Leq(vs, run[i], b[j])
    {
      assert b[j] in multiset(a);
      var k :| 0 <= k < |a| && a[k] == b[j];
    }
  }

  /** The root can be written next, and everything left in the heap part can follow it. */
  lemma NextInRun(vs: seq<SortOrder>, run: seq<Row>, s: seq<Row>, len: int)
    requires 1 <= len <= |s| && Heaped(vs, s, 0, len) && Sorted(vs, run) && Bounds(vs, run, s[..len])
    ensures Sorted(vs, run + [s[0]]) && Bounds(vs, run + [s[0]], s[..len])
  {
    forall j | 0 <= j < len
      ensures Leq(vs, s[0], s[..len][j])
    {
      RootIsLeast(vs, s, len, j);
    }
    assert forall i :: 0 <= i < |run| ==> Leq(vs, run[i], s[..len][0]);
  }

  /** A tuple that is not at or before the root may take its place. */
  lemma FollowOn(vs: seq<SortOrder>, run: seq<Row>, s: seq<Row>, len: int, t: Row)
    requires 1 <= len <= |s| && Heaped(vs, s, 0, len) && Bounds(vs, run + [s[0]], s[..len])
    requires !Leq(vs, t, s[0])
    ensures Heaped(vs, s[0 := t], 1, len) && Bounds(vs, run + [s[0]], s[0 := t][..len])
  {
    LeqTotal(vs, t, s[0]);
    var r, part := run + [s[0]], s[0 := t][..len];
    forall i, j | 0 <= i < |r| && 0 <= j < |part|
      ensures Leq(vs, r[i], part[j])
    {
      assert Leq(vs, r[i], s[..len][j]) && Leq(vs, r[i], s[..len][0]);
      if j == 0 {
        LeqTransitive(vs, r[i], s[0], t);
      }
    }
  }

  /** Otherwise it waits behind the waterline and the last heap tuple takes the root. */
  lemma PutAside(vs: seq<SortOrder>, run: seq<Row>, s: seq<Row>, len: int, t: Row)
    requires 1 <= len < |s| && Heaped(vs, s, 0, len + 1) && Bounds(vs, run + [s[0]], s[..len + 1])
    ensures Heaped(vs, s[0 := s[len]][len := t], 1, len)
    ensures Bounds(vs, run + [s[0]], s[0 := s[len]][len := t][..len])
  {
    var r, part := run + [s[0]], s[0 := s[len]][len := t][..len];
    forall i, j | 0 <= i < |r| && 0 <= j < |part|
      ensures Leq(vs, r[i], part[j])
    {
      assert Leq(vs, r[i], s[..len + 1][j]) && Leq(vs, r[i], s[..len + 1][len]);
    }
  }

  lemma LeavesAreHeaped(vs: seq<SortOrder>, s: seq<Row>, lo: int, len: int)
    requires 0 <= lo && len <= |s| && 2 * lo + 1 >= len
    ensures Heaped(vs, s, lo, len)
  {
  }

  lemma SinkStart(vs: seq<SortOrder>, s: seq<Row>, start: int, len: int)
    requires 0 <= start < len <= |s| && Heaped(vs, s, start + 1, len)
    ensures Sinking(vs, s, start, start, len)
  {
  }

  lemma NoChildren(vs: seq<SortOrder>, s: seq<Row>, i: int, len: int)
    requires 0 <= i < len <= |s| && 2 * i + 1 >= len
    ensures forall c :: 1 <= c < len && Parent(c) == i ==> Leq(vs, s[i], s[c])
  {
    assert forall c :: Parent(c) == i ==> c == 2 * i + 1 || c == 2 * i + 2;
  }
}
