/**
 The range-partition dynamic program of src/analysis/m_par_strategy.cpp: the
 cheapest split of two parallel arrays into P contiguous non-empty parts.
 */
module Splits {

  const INT_MAX := 2147483647

  /** The two histograms and the share of each that a part should get. */
  datatype Load = Load(a: seq<int>, b: seq<int>, aExpect: int, bExpect: int) {
    ghost predicate Wf() {
      |a| == |b|
    }

    ghost predicate Range(m: int, n: int) {
      0 <= m <= n <= |a|
    }

    /** Squared deviation of the part m..n from both shares. */
    ghost function Cost(m: int, n: int): (c: int)
      requires Wf() && Range(m, n)
      ensures c >= 0
    {
      var da, db := Sum(a, m, n) - aExpect, Sum(b, m, n) - bExpect;
      SquareNonNegative(da);
      SquareNonNegative(db);
      da * da + db * db
    }
  }

  lemma SquareNonNegative(x: int)
    ensures x * x >= 0
  {
  }

  ghost function Sum(s: seq<int>, m: int, n: int): int
    requires 0 <= m <= n <= |s|
  {
    if m == n then 0 else Sum(s, m, n - 1) + s[n - 1]
  }

  /** A sum is that of its two halves, and that of one element is the element. */
  lemma {:induction false} SumSplits(s: seq<int>, m: int, k: int, n: int)
    requires 0 <= m <= k <= n <= |s|
    ensures Sum(s, m, k) + Sum(s, k, n) == Sum(s, m, n)
    ensures forall i :: 0 <= i < |s| ==> Sum(s, i, i + 1) == s[i]
    decreases n
  {
    if k < n {
      SumSplits(s, m, k, n - 1);
    }
  }

  /** Both histograms count: a part costs nothing exactly when each of its sums is its share. */
  lemma CostZero(d: Load, m: int, n: int)
    requires d.Wf() && d.Range(m, n)
    ensures d.Cost(m, n) == 0 <==> Sum(d.a, m, n) == d.aExpect && Sum(d.b, m, n) == d.bExpect
  {
    SquareZero(Sum(d.a, m, n) - d.aExpect);
    SquareZero(Sum(d.b, m, n) - d.bExpect);
  }

  lemma SquareZero(x: int)
    ensures x * x >= 0 && (x * x == 0 <==> x == 0)
  {
    if x > 0 {
      assert x * x >= x;
    } else if x < 0 {
      assert x * x == (-x) * (-x) >= -x;
    }
  }

  /**
   What one more element adds to the cost of a part, and what the empty part costs:
   this fixes the cost of every part.
   */
  lemma CostGrows(d: Load, m: int, n: int)
    requires d.Wf() && d.Range(m, n)
    ensures d.Cost(m, m) == d.aExpect * d.aExpect + d.bExpect * d.bExpect
    ensures n < |d.a| ==> d.Cost(m, n + 1) == d.Cost(m, n)
                          + d.a[n] * (2 * (Sum(d.a, m, n) - d.aExpect) + d.a[n])
                          + d.b[n] * (2 * (Sum(d.b, m, n) - d.bExpect) + d.b[n])
  {
    NegatedSquare(d.aExpect);
    NegatedSquare(d.bExpect);
    if n < |d.a| {
      SquareGrows(Sum(d.a, m, n) - d.aExpect, d.a[n]);
      SquareGrows(Sum(d.b, m, n) - d.bExpect, d.b[n]);
    }
  }

  lemma NegatedSquare(x: int)
    ensures (0 - x) * (0 - x) == x * x
  {
  }

  lemma SquareGrows(x: int, y: int)
    ensures (x + y) * (x + y) == x * x + y * (2 * x + y)
  {
  }

  /** cuts divides 0..n into p non-empty parts. */
  ghost predicate Split(cuts: seq<int>, n: int, p: nat) {
    && |cuts| == p + 1 && cuts[0] == 0 && cuts[p] == n
    && forall i :: 0 <= i < p ==> cuts[i] < cuts[i + 1]
  }

  ghost predicate Cuts(d: Load, cuts: seq<int>) {
    forall i :: 0 <= i < |cuts| ==> 0 <= cuts[i] <= |d.a| && (i > 0 ==> cuts[i - 1] <= cuts[i])
  }

  ghost function SplitCost(d: Load, cuts: seq<int>): int
    requires d.Wf() && Cuts(d, cuts)
  {
    var k := |cuts|;
    if k < 2 then 0 else SplitCost(d, cuts[..k - 1]) + d.Cost(cuts[k - 2], cuts[k - 1])
  }

  lemma {:induction false} SplitOrdered(cuts: seq<int>, n: int, p: nat, i: nat)
    requires Split(cuts, n, p) && i <= p
    ensures i <= cuts[i] <= n - (p - i)
    ensures forall j :: 0 <= j <= i ==> j <= cuts[j] <= cuts[i]
    decreases i
  {
    SplitBelow(cuts, n, p, i);
    SplitAbove(cuts, n, p, i);
  }

  lemma {:induction false} SplitBelow(cuts: seq<int>, n: int, p: nat, i: nat)
    requires Split(cuts, n, p) && i <= p
    ensures forall j :: 0 <= j <= i ==> j <= cuts[j] <= cuts[i]
  {
    if i > 0 {
      SplitBelow(cuts, n, p, i - 1);
      assert cuts[i - 1] < cuts[i - 1 + 1];
    }
  }

  lemma {:induction false} SplitAbove(cuts: seq<int>, n: int, p: nat, i: nat)
    requires Split(cuts, n, p) && i <= p
    ensures cuts[i] <= n - (p - i)
    decreases p - i
  {
    if i < p {
      SplitAbove(cuts, n, p, i + 1);
    }
  }

  lemma SplitIsCuts(d: Load, cuts: seq<int>, n: int, p: nat)
    requires d.Wf() && 0 <= n <= |d.a| && Split(cuts, n, p)
    ensures Cuts(d, cuts)
  {
    forall i | 0 <= i < |cuts|
      ensures 0 <= cuts[i] <= |d.a| && (i > 0 ==> cuts[i - 1] <= cuts[i])
    {
      SplitOrdered(cuts, n, p, i);
      if i > 0 {
        assert cuts[i - 1] < cuts[i - 1 + 1];
      }
    }
  }

  /** v is not above the cost of any split of 0..j into k parts. */
  ghost predicate Lower(d: Load, j: int, k: nat, v: int)
    requires d.Wf() && 0 <= j <= |d.a|
  {
    forall cuts :: Split(cuts, j, k) ==> Cuts(d, cuts) && v <= SplitCost(d, cuts)
  }

  /** The part before the last cut is a split of its own. */
  lemma LastPart(d: Load, cuts: seq<int>, j: int, k: nat)
    requires d.Wf() && 0 <= j <= |d.a| && k >= 2 && Split(cuts, j, k)
    ensures k - 1 <= cuts[k - 1] < j && Split(cuts[..k], cuts[k - 1], k - 1)
    ensures Cuts(d, cuts) && Cuts(d, cuts[..k])
    ensures SplitCost(d, cuts) == SplitCost(d, cuts[..k]) + d.Cost(cuts[k - 1], j)
  {
    SplitOrdered(cuts, j, k, k - 1);
    SplitIsCuts(d, cuts, j, k);
    SplitIsCuts(d, cuts[..k], cuts[k - 1], k - 1);
  }

  /** One more cut adds one part. */
  lemma AddPart(d: Load, cuts: seq<int>, l: int, k: nat, j: int)
    requires d.Wf() && k >= 2 && Split(cuts, l, k - 1) && l < j <= |d.a|
    ensures Split(cuts + [j], j, k) && Cuts(d, cuts) && Cuts(d, cuts + [j]) && 0 <= l
    ensures SplitCost(d, cuts + [j]) == SplitCost(d, cuts) + d.Cost(l, j)
  {
    SplitOrdered(cuts, l, k - 1, k - 1);
    assert Split(cuts + [j], j, k);
    LastPart(d, cuts + [j], j, k);
    assert (cuts + [j])[..k] == cuts;
  }

  lemma {:induction false} CostAtMost(d: Load, cuts: seq<int>, v: nat)
    requires d.Wf() && Cuts(d, cuts) && |cuts| >= 1
    requires forall m, n :: d.Range(m, n) ==> d.Cost(m, n) <= v
    ensures SplitCost(d, cuts) <= (|cuts| - 1) * v
  {
    hide Load.Cost;
    var k := |cuts|;
    if k >= 2 {
      CostAtMost(d, cuts[..k - 1], v);
      assert d.Range(cuts[k - 2], cuts[k - 1]);
      assert (k - 1) * v == (k - 2) * v + v;
    }
  }

  lemma FewerParts(k: nat, p: nat, v: nat)
    requires k <= p
    ensures k * v <= p * v
  {
    assert p * v == k * v + (p - k) * v;
  }

  /** There is a split of 0..j into k parts, so a bound below all of them is at most k times the dearest part. */
  lemma LowerIsBounded(d: Load, j: int, k: nat, u: int, v: nat)
    requires d.Wf() && 1 <= k <= j <= |d.a| && Lower(d, j, k, u)
    requires forall m, n :: d.Range(m, n) ==> d.Cost(m, n) <= v
    ensures u <= k * v
  {
    var unit := seq(k + 1, i => if i < k then i else j);
    assert Split(unit, j, k);
    SplitIsCuts(d, unit, j, k);
    CostAtMost(d, unit, v);
  }

  lemma OnePart(d: Load, j: int)
    requires d.Wf() && 1 <= j <= |d.a|
    ensures Lower(d, j, 1, d.Cost(0, j)) && Split([0, j], j, 1) && Cuts(d, [0, j])
    ensures SplitCost(d, [0, j]) == d.Cost(0, j)
  {
    forall cuts | Split(cuts, j, 1)
      ensures Cuts(d, cuts) && d.Cost(0, j) <= SplitCost(d, cuts)
    {
      assert cuts == [0, j];
    }
  }
}

module ParStrategies {
  import opened Splits

  /** q is the share of each of p parts in a total of x, with the rest cut off towards zero. */
  ghost predicate IsShare(x: int, p: int, q: int) {
    if x >= 0 then q * p <= x < (q + 1) * p else (q - 1) * p < x <= q * p
  }

  /** Integer division as the program does it, towards zero. */
  function TruncDiv(x: int, p: int): (q: int)
    requires p > 0
    ensures IsShare(x, p, q)
  {
    Quotient(x, p);
    Quotient(-x, p);
    if x >= 0 then x / p else -((-x) / p)
  }

  lemma Quotient(x: int, p: int)
    requires p > 0
    ensures x / p * p <= x < (x / p + 1) * p
    ensures (-(x / p) - 1) * p < -x <= -(x / p) * p
  {
    var q := x / p;
    assert x == q * p + x % p;
    assert (q + 1) * p == q * p + p;
    assert (-q) * p == -(q * p) && (-q - 1) * p == -(q * p) - p;
  }

  /** There is only one such share. */
  lemma OneShare(x: int, p: int, q: int, q': int)
    requires p > 0 && IsShare(x, p, q) && IsShare(x, p, q')
    ensures q == q'
  {
    ProductStep(q, q', p);
    ProductStep(q', q, p);
  }

  lemma ProductStep(q: int, q': int, p: int)
    requires p > 0
    ensures q < q' ==> (q + 1) * p <= q' * p && q * p <= (q' - 1) * p
  {
  }

  class ParStrategy {
    const N: nat
    const P: nat
    const aArray: seq<int>
    const bArray: seq<int>
    const aExpect: int
    const bExpect: int
    const matrix: array2<int>
    const state: array2<int>
    const newState: array2<int>

    ghost predicate Valid() {
      && N == |aArray| == |bArray| && 1 <= P
      && matrix.Length0 == state.Length0 == newState.Length0 == N + 1
      && matrix.Length1 == state.Length1 == newState.Length1 == P + 1
      && matrix != state && matrix != newState && state != newState
    }

    ghost function Data(): (d: Load)
      requires Valid()
      ensures d.Wf() && |d.a| == N
    {
      Load(aArray, bArray, aExpect, bExpect)
    }

    constructor (a: seq<int>, b: seq<int>, p: nat)
      requires |a| == |b| && p >= 1
      ensures Valid() && N == |a| && P == p
      ensures Data().a == a && Data().b == b
      ensures IsShare(Sum(a, 0, |a|), p, Data().aExpect) && IsShare(Sum(b, 0, |b|), p, Data().bExpect)
      ensures fresh(matrix) && fresh(state) && fresh(newState)
    {
      var aSum, bSum := 0, 0;
      for i := 0 to |a|
        invariant aSum == Sum(a, 0, i) && bSum == Sum(b, 0, i)
      {
        aSum, bSum := aSum + a[i], bSum + b[i];
      }
      N, P, aArray, bArray := |a|, p, a, b;
      aExpect, bExpect := TruncDiv(aSum, p), TruncDiv(bSum, p);
      matrix := new int[|a| + 1, p + 1]((i, j) => 0);
      state := new int[|a| + 1, p + 1]((i, j) => INT_MAX);
      newState := new int[|a| + 1, p + 1]((i, j) => 0);
    }

    /** Lines 44-56. */
    method Variance(m: int, n: int) returns (ret: int)
      requires Valid() && Data().Range(m, n)
      ensures ret == Data().Cost(m, n)
    {
      var ai, bi := 0, 0;
      for i := m to n
        invariant ai == Sum(aArray, m, i) && bi == Sum(bArray, m, i)
      {
        ai, bi := ai + aArray[i], bi + bArray[i];
      }
      ret := (ai - aExpect) * (ai - aExpect) + (bi - bExpect) * (bi - bExpect);
    }

    /** newState leads from cell (j, k) to the cell its value was computed from. */
    ghost predicate Linked(j: int, k: int)
      requires Valid() && 1 <= k <= P && k <= j <= N
      reads matrix, newState
    {
      var v, l := matrix[j, k], newState[j, k];
      if k == 1 then v == Data().Cost(0, j)
      else v == INT_MAX || (v < INT_MAX && k - 1 <= l < j && v == matrix[l, k - 1] + Data().Cost(l, j))
    }

    /** Cell (j, k) bounds every split of 0..j into k parts and is linked to where it came from. */
    ghost predicate Best(j: int, k: int)
      requires Valid() && 1 <= k <= P && k <= j <= N
      reads matrix, newState
    {
      Linked(j, k) && Lower(Data(), j, k, matrix[j, k])
    }

    /** The cells that column k needs are settled. */
    ghost predicate Column(k: int)
      requires Valid()
      reads matrix, newState
    {
      1 <= k <= P && forall j :: k <= j <= N ==> Best(j, k)
    }

    /** A value below every last step is below every split. */
    lemma StepIsLower(j: int, k: nat, v: int)
      requires Valid() && 2 <= k <= P && k <= j <= N && Column(k - 1)
      requires forall l :: k - 1 <= l < j ==> v <= matrix[l, k - 1] + Data().Cost(l, j)
      ensures Lower(Data(), j, k, v)
    {
      var d := Data();
      forall cuts | Split(cuts, j, k)
        ensures Cuts(d, cuts) && v <= SplitCost(d, cuts)
      {
        LastPart(d, cuts, j, k);
        var l := cuts[k - 1];
        assert Best(l, k - 1);
        assert v <= matrix[l, k - 1] + d.Cost(l, j);
      }
    }

    /** Lines 69-76: the inner loop for cell (j, k); it reads only cells that hold a split. */
    method Cheapest(j: int, k: int) returns (min: int)
      requires Valid() && 2 <= k <= P && 2 <= j <= N && Column(k - 1)
      modifies newState
      ensures forall x, y :: 0 <= x <= N && 0 <= y <= P && (x != j || y != k) ==> newState[x, y] == old(newState[x, y])
      ensures min == INT_MAX ||
              (min < INT_MAX && k - 1 <= newState[j, k] < j &&
               min == matrix[newState[j, k], k - 1] + Data().Cost(newState[j, k], j))
      ensures forall l :: k - 1 <= l < j ==> min <= matrix[l, k - 1] + Data().Cost(l, j)
      ensures min < INT_MAX ==>
                forall l :: k - 1 <= l < newState[j, k] ==> min < matrix[l, k - 1] + Data().Cost(l, j)
    {
      min := INT_MAX;
      var l := k - 1;
      while l < j
        invariant k - 1 <= l && (l <= j || l == k - 1)
        invariant min == INT_MAX ||
                  (min < INT_MAX && k - 1 <= newState[j, k] < l &&
                   min == matrix[newState[j, k], k - 1] + Data().Cost(newState[j, k], j))
        invariant forall i :: k - 1 <= i < l && i < j ==> min <= matrix[i, k - 1] + Data().Cost(i, j)
        invariant min < INT_MAX ==>
                    forall i :: k - 1 <= i < newState[j, k] ==> min < matrix[i, k - 1] + Data().Cost(i, j)
        invariant forall x, y :: 0 <= x <= N && 0 <= y <= P && (x != j || y != k) ==>
                    newState[x, y] == old(newState[x, y])
      {
        var v := Variance(l, j);
        if matrix[l, k - 1] + v < min {
          min := matrix[l, k - 1] + v;
          newState[j, k] := l;
        }
        l := l + 1;
      }
    }

    /** Columns are settled up to k. */
    ghost predicate Settled(k: int)
      requires Valid()
      reads matrix, newState
    {
      k <= P && forall c, j :: 1 <= c <= k && c <= j <= N ==> Best(j, c)
    }

    /** The table that is printed agrees with the one that is computed; too many parts cost INT_MAX. */
    ghost predicate Mirrored(k: int)
      requires Valid()
      reads matrix, state
    {
      && (forall j, c :: 1 <= c <= k && c <= P && 1 <= j <= N && (c == 1 || j >= 2) ==> state[j, c] == matrix[j, c])
      && (forall j, c :: 2 <= c <= k && c <= P && 2 <= j < c && j <= N ==> matrix[j, c] == INT_MAX)
    }

    /** Lines 62-65: one part. */
    method FirstColumn()
      requires Valid()
      modifies matrix, state
      ensures Settled(1) && Mirrored(1)
    {
      for i := 1 to N + 1
        invariant forall j :: 1 <= j < i ==> matrix[j, 1] == Data().Cost(0, j) && state[j, 1] == matrix[j, 1]
      {
        var v := Variance(0, i);
        matrix[i, 1] := v;
        state[i, 1] := matrix[i, 1];
      }
      forall j | 1 <= j <= N
        ensures Best(j, 1)
      {
        OnePart(Data(), j);
      }
    }

    /** Lines 69-78: one cell. */
    method FillCell(j: int, k: int)
      requires Valid() && 2 <= k <= P && 2 <= j <= N && Settled(k - 1)
      modifies matrix, state, newState
      ensures forall x, y :: 0 <= x <= N && 0 <= y <= P && (x != j || y != k) ==>
                matrix[x, y] == old(matrix[x, y]) && newState[x, y] == old(newState[x, y]) &&
                state[x, y] == old(state[x, y])
      ensures k <= j ==> Best(j, k)
      ensures state[j, k] == matrix[j, k] && (j < k ==> matrix[j, k] == INT_MAX)
    {
      var min := Cheapest(j, k);
      matrix[j, k] := min;
      state[j, k] := min;
      var c := k - 1;
      forall i | c <= i <= N
        ensures Best(i, c)
      {
        assert old(Best(i, c));
      }
      if k <= j {
        StepIsLower(j, k, min);
      }
    }

    /** Lines 68-79: column k. */
    method FillColumn(k: int)
      requires Valid() && 2 <= k <= P && Settled(k - 1) && Mirrored(k - 1)
      modifies matrix, state, newState
      ensures Settled(k) && Mirrored(k)
    {
      var j := 2;
      while j <= N
        invariant 2 <= j && Settled(k - 1) && Mirrored(k - 1)
        invariant forall i :: 2 <= i < j && i <= N ==>
                    state[i, k] == matrix[i, k] && (i < k ==> matrix[i, k] == INT_MAX)
        invariant forall i :: k <= i < j && i <= N ==> Best(i, k)
      {
        label before:
        FillCell(j, k);
        forall c, i | 1 <= c < k && c <= i <= N
          ensures Best(i, c)
        {
          assert old@before(Best(i, c));
        }
        forall i | k <= i < j
          ensures Best(i, k)
        {
          assert old@before(Best(i, k));
        }
        j := j + 1;
      }
    }

    /** Lines 60-80: the whole table. */
    method Eval()
      requires Valid()
      modifies matrix, state, newState
      ensures Settled(P) && Mirrored(P)
    {
      FirstColumn();
      for k := 2 to P + 1
        invariant Settled(k - 1) && Mirrored(k - 1)
      {
        FillColumn(k);
      }
    }

    /** The cuts found by following newState back from cell (j, k). */
    ghost function Trace(j: int, k: int): seq<int>
      requires Valid() && 1 <= k <= P && k <= j <= N && Settled(P)
      reads matrix, newState
      decreases k
    {
      if k == 1 then [0, j]
      else if matrix[j, k] == INT_MAX then []
      else assert Best(j, k); Trace(newState[j, k], k - 1) + [j]
    }

    /** Following newState back reconstructs a split that costs what the cell says. */
    lemma {:induction false} TraceIsSplit(j: int, k: nat)
      requires Valid() && 1 <= k <= P && k <= j <= N && Settled(P)
      requires k == 1 || matrix[j, k] != INT_MAX
      ensures Split(Trace(j, k), j, k) && Cuts(Data(), Trace(j, k))
      ensures SplitCost(Data(), Trace(j, k)) == matrix[j, k]
      decreases k
    {
      hide Load.Cost, Lower;
      var d := Data();
      assert Best(j, k);
      if k == 1 {
        OnePart(d, j);
      } else {
        var l := newState[j, k];
        assert matrix[j, k] == matrix[l, k - 1] + d.Cost(l, j);
        assert Trace(j, k) == Trace(l, k - 1) + [j];
        hide Best, Settled, Trace, SplitCost;
        TraceIsSplit(l, k - 1);
        AddPart(d, Trace(l, k - 1), l, k, j);
      }
    }

    /**
     The last cell is the cheapest split of 0..N into P parts, and newState leads to
     such a split, unless the program gave up at INT_MAX because every split costs
     at least that much.
     */
    lemma TableIsOptimal()
      requires Valid() && P <= N && Settled(P)
      ensures forall cuts :: Split(cuts, N, P) ==> Cuts(Data(), cuts) && matrix[N, P] <= SplitCost(Data(), cuts)
      ensures P == 1 || matrix[N, P] != INT_MAX ==>
                Split(Trace(N, P), N, P) && Cuts(Data(), Trace(N, P)) && SplitCost(Data(), Trace(N, P)) == matrix[N, P]
      ensures P >= 2 && matrix[N, P] == INT_MAX ==>
                forall cuts :: Split(cuts, N, P) ==> Cuts(Data(), cuts) && SplitCost(Data(), cuts) >= INT_MAX
    {
      assert Best(N, P);
      if P == 1 || matrix[N, P] != INT_MAX {
        TraceIsSplit(N, P);
      }
    }

    /** No cell is negative. */
    lemma {:induction false} CellNonNegative(j: int, k: nat)
      requires Valid() && 1 <= k <= P && k <= j <= N && Settled(P)
      ensures matrix[j, k] >= 0
      decreases k
    {
      assert Best(j, k);
      if k > 1 && matrix[j, k] != INT_MAX {
        CellNonNegative(newState[j, k], k - 1);
      }
    }

    /**
     When no part costs more than v and P * v is below INT_MAX, no cell is INT_MAX
     and every sum that the inner loop compares stays within 32 bits.
     */
    lemma TableFits(v: nat)
      requires Valid() && Settled(P) && P * v < INT_MAX
      requires forall m, n :: Data().Range(m, n) ==> Data().Cost(m, n) <= v
      ensures forall j, k :: 1 <= k <= P && k <= j <= N ==> 0 <= matrix[j, k] <= k * v < INT_MAX
      ensures forall j, k, l :: 2 <= k <= P && k - 1 <= l < j <= N ==>
                0 <= matrix[l, k - 1] + Data().Cost(l, j) <= k * v < INT_MAX
    {
      forall j, k | 1 <= k <= P && k <= j <= N
        ensures 0 <= matrix[j, k] <= k * v < INT_MAX
      {
        CellFits(j, k, v);
      }
      forall j, k, l | 2 <= k <= P && k - 1 <= l < j <= N
        ensures 0 <= matrix[l, k - 1] + Data().Cost(l, j) <= k * v < INT_MAX
      {
        CellFits(l, k - 1, v);
        FewerParts(k, P, v);
        assert Data().Range(l, j) && k * v == (k - 1) * v + v;
      }
    }

    lemma CellFits(j: int, k: nat, v: nat)
      requires Valid() && Settled(P) && P * v < INT_MAX && 1 <= k <= P && k <= j <= N
      requires forall m, n :: Data().Range(m, n) ==> Data().Cost(m, n) <= v
      ensures 0 <= matrix[j, k] <= k * v <= P * v
    {
      hide Load.Cost, Lower;
      assert Best(j, k);
      CellNonNegative(j, k);
      LowerIsBounded(Data(), j, k, matrix[j, k], v);
      FewerParts(k, P, v);
    }
  }
}
