/**
 The assignment solver `KM::run` with its recursive `search`, over any n by n
 integer matrix (src/analysis/m_km.cpp).
 */
module KuhnMunkres {
  import opened Finite
  import opened Matchings
  import opened AlternatingTree
  import opened Relabelling

  ghost predicate Int32(v: int) {
    -0x8000_0000 <= v < 0x8000_0000
  }

  /**
   A range of weights for which no label, no sum of two labels and no reduced cost
   leaves 32 bits, and every reduced cost is below INF.
   */
  ghost predicate Range32(lo: int, hi: int) {
    -INF <= lo <= hi && 2 * hi - lo <= INF && 2 * (hi - lo) < INF
  }

  /** Entries of at most 2^29 - 1 in magnitude are in such a range. */
  lemma ModestWeightsFit()
    ensures Range32(-0x1FFF_FFFF, 0x1FFF_FFFF)
  {
  }

  ghost predicate Square(n: nat, w: seq<seq<int>>) {
    |w| == n + 1 && forall x :: 0 <= x <= n ==> |w[x]| == n + 1
  }

  /** q gives every column its own row. */
  ghost predicate Perfect(n: nat, q: seq<int>) {
    && |q| == n + 1
    && (forall y :: 1 <= y <= n ==> 1 <= q[y] <= n)
    && InjectiveOn(q, Upto(n))
  }

  /** Total weight of the edges that q uses in columns 1..k. */
  ghost function Weight(n: nat, w: seq<seq<int>>, q: seq<int>, k: nat): int
    requires Square(n, w) && |q| == n + 1 && k <= n
    requires forall y :: 1 <= y <= k ==> 1 <= q[y] <= n
  {
    if k == 0 then 0 else Weight(n, w, q, k - 1) + w[q[k]][k]
  }

  /** Exactly the entries that q uses count: one more on an entry is one more in total if q uses it, else nothing. */
  lemma {:induction false} WeightCounts(n: nat, w: seq<seq<int>>, q: seq<int>, k: nat, x: int, y: int, d: int)
    requires Square(n, w) && |q| == n + 1 && k <= n && 1 <= x <= n && 1 <= y <= n
    requires forall c :: 1 <= c <= k ==> 1 <= q[c] <= n
    ensures var w' := w[x := w[x][y := w[x][y] + d]];
            Square(n, w') && Weight(n, w', q, k) == Weight(n, w, q, k) + if y <= k && q[y] == x then d else 0
    ensures (forall a, b :: 1 <= a <= n && 1 <= b <= n ==> w[a][b] == 0) ==> Weight(n, w, q, k) == 0
  {
    if k > 0 {
      WeightCounts(n, w, q, k - 1, x, y, d);
    }
  }

  ghost function Identity(n: nat): (q: seq<int>)
    ensures Perfect(n, q)
  {
    seq(n + 1, i => i)
  }

  /** Total of the labels that q meets in columns 1..k. */
  ghost function LabelSum(g: Duals, q: seq<int>, k: nat): int
    requires g.Wf() && |q| == g.n + 1 && k <= g.n
    requires forall y :: 1 <= y <= k ==> 1 <= q[y] <= g.n
  {
    SumVia(g.lx, q, k) + SumVia(g.ly, Identity(g.n), k)
  }

  /** Feasible labels bound the weight of any choice of rows; a tight choice meets the bound. */
  lemma {:induction false} WeakDuality(g: Duals, q: seq<int>, k: nat)
    requires g.Wf() && g.Feasible() && |q| == g.n + 1 && k <= g.n
    requires forall y :: 1 <= y <= g.n ==> 1 <= q[y] <= g.n
    ensures Weight(g.n, g.w, q, k) <= LabelSum(g, q, k)
    ensures g.Tight(q) ==> Weight(g.n, g.w, q, k) == LabelSum(g, q, k)
  {
    if k > 0 {
      WeakDuality(g, q, k - 1);
      assert g.Pair(q[k], k) && g.Cost(q[k], k) >= 0;
    }
  }

  /** A tight perfect matching under feasible labels weighs at least as much as any other. */
  lemma TightIsOptimal(g: Duals, link: seq<int>, q: seq<int>)
    requires g.Wf() && g.Feasible() && g.Tight(link)
    requires Perfect(g.n, link) && Perfect(g.n, q)
    ensures Weight(g.n, g.w, q, g.n) <= Weight(g.n, g.w, link, g.n)
  {
    WeakDuality(g, q, g.n);
    WeakDuality(g, link, g.n);
    PermutationSum(g.lx, q, link, g.n);
  }

  /** While some row is free, so is some column. */
  lemma FreeColumn(n: nat, link: seq<int>, x: int) returns (f: int)
    requires Shape(n, link) && InjectiveOff(n, link, NoMarks(n)) && 1 <= x <= n
    requires !Meets(n, link, NoMarks(n), x)
    ensures 1 <= f <= n && link[f] < 1
  {
    var cols := MatchedCols(n, link);
    forall y | y in cols
      ensures link[y] != x
    {
      assert !NoMarks(n)[y];
    }
    InjectiveUnmarked(n, link, cols);
    TooFew(n, link, x, cols);
    f := Pick(Upto(n) - cols);
  }

  /** When every row is matched the matching is perfect. */
  lemma AllRowsMatched(n: nat, link: seq<int>)
    requires Shape(n, link) && InjectiveOff(n, link, NoMarks(n))
    requires forall r :: 1 <= r <= n ==> Meets(n, link, NoMarks(n), r)
    ensures Perfect(n, link)
  {
    var cols := MatchedCols(n, link);
    InjectiveUnmarked(n, link, cols);
    ImageSize(link, cols);
    forall r | r in Upto(n)
      ensures r in Image(link, cols)
    {
      assert Meets(n, link, NoMarks(n), r);
      var y :| 1 <= y <= n && !NoMarks(n)[y] && link[y] == r;
      assert y in cols;
    }
    SubsetSize(Upto(n), Image(link, cols));
    SubsetSize(cols, Upto(n));
    assert cols == Upto(n);
  }

  /** Sound labels that match every row carry a perfect matching of the largest weight. */
  lemma SoundIsOptimal(g: Duals, link: seq<int>, lo: int, hi: int)
    requires Sound(g, link, lo, hi)
    requires forall r :: 1 <= r <= g.n ==> Meets(g.n, link, NoMarks(g.n), r)
    ensures Perfect(g.n, link)
    ensures forall q :: Perfect(g.n, q) ==> Weight(g.n, g.w, q, g.n) <= Weight(g.n, g.w, link, g.n)
  {
    AllRowsMatched(g.n, link);
    forall q | Perfect(g.n, q)
      ensures Weight(g.n, g.w, q, g.n) <= Weight(g.n, g.w, link, g.n)
    {
      TightIsOptimal(g, link, q);
    }
  }

  /** Zero column labels with row labels above the weights are sound for the empty matching. */
  lemma InitialSound(g: Duals, link: seq<int>, lo: int, hi: int)
    requires g.Wf() && |link| == g.n + 1
    requires forall x, y :: 1 <= x <= g.n && 1 <= y <= g.n ==> lo <= g.w[x][y] <= hi && g.w[x][y] <= g.lx[x]
    requires forall x :: 1 <= x <= g.n ==> lo <= g.lx[x] <= hi
    requires forall y :: 1 <= y <= g.n ==> link[y] == -1 && g.ly[y] == 0
    ensures Sound(g, link, lo, hi)
  {
    if g.n > 0 {
      assert lo <= g.w[1][1] <= hi;
    }
  }

  class KM {
    const n: nat
    const w: seq<seq<int>>
    const lx: array<int>
    const ly: array<int>
    const link: array<int>
    const slack: array<int>
    const visx: array<bool>
    const visy: array<bool>

    ghost predicate Valid() {
      && Square(n, w)
      && lx.Length == ly.Length == link.Length == slack.Length == visx.Length == visy.Length == n + 1
      && lx != ly && lx != link && lx != slack && ly != link && ly != slack && link != slack && visx != visy
    }

    constructor (n: nat, w: seq<seq<int>>)
      requires Square(n, w)
      ensures Valid() && this.n == n && this.w == w
      ensures fresh(lx) && fresh(ly) && fresh(link) && fresh(slack) && fresh(visx) && fresh(visy)
    {
      this.n, this.w := n, w;
      lx, ly := new int[n + 1], new int[n + 1];
      link, slack := new int[n + 1], new int[n + 1];
      visx, visy := new bool[n + 1], new bool[n + 1];
    }

    ghost function Labels(): (g: Duals)
      requires Valid()
      reads lx, ly
      ensures g.Wf() && g.n == n && g.w == w
    {
      Duals(n, w, lx[..], ly[..])
    }

    ghost function Marks(): (t: Tree)
      requires Valid()
      reads visx, visy, slack
      ensures t.Wf(n)
    {
      Tree(visx[..], visy[..], slack[..])
    }

    ghost predicate Ready(lo: int, hi: int)
      requires Valid()
      reads lx, ly, link
    {
      Sound(Labels(), link[..], lo, hi)
    }

    /** A column that no row has is recorded as -1. */
    ghost predicate Slots()
      requires Valid()
      reads link
    {
      forall y :: 1 <= y <= n ==> link[y] == -1 || link[y] >= 1
    }

    /** The weights and labels fit, so that no sum the search forms leaves 32 bits. */
    ghost predicate Fits(lo: int, hi: int)
      requires Valid()
      reads lx, ly
    {
      && Range32(lo, hi)
      && (forall i :: 1 <= i <= n ==> lo <= lx[i] <= hi && 0 <= ly[i] <= hi - lo)
      && WeightBounds(Labels(), lo, hi)
    }

    lemma ReducedCostFits(lo: int, hi: int, x: int, y: int)
      requires Valid() && Fits(lo, hi) && 1 <= x <= n && 1 <= y <= n
      ensures Int32(lx[x] + ly[y]) && Int32(lx[x] + ly[y] - w[x][y])
      ensures lx[x] + ly[y] - w[x][y] < INF
    {
      assert Labels().Pair(x, y);
    }

    method Search(x: int, ghost lo: int, ghost hi: int) returns (found: bool)
      requires Valid() && Slots() && Fits(lo, hi) && 1 <= x <= n
      requires Labels().Feasible() && Labels().Tight(link[..])
      requires InjectiveOff(n, link[..], visy[..]) && !Meets(n, link[..], visy[..], x)
      modifies visx, visy, slack, link
      ensures Slots() && Labels().Tight(link[..])
      ensures found ==> Augments(n, old(link[..]), link[..], old(visy[..]), x)
      ensures !found ==> link[..] == old(link[..]) && Explored(Labels(), link[..], old(Marks()), Marks(), x, n + 1)
      decreases Unmarked(visy[..], n), 1
    {
      hide Explored, InjectiveOff, Meets, Augments, WeightBounds;
      ghost var g, l0, t0 := Labels(), link[..], Marks();
      visx[x] := true;
      assert Marks() == t0.(visx := t0.visx[x := true]);
      ExploreStart(g, l0, t0, Marks(), x);
      var y := 1;
      while y <= n
        invariant 1 <= y <= n + 1
        invariant Labels() == g && link[..] == l0
        invariant Explored(g, l0, t0, Marks(), x, y)
      {
        ghost var t1 := Marks();
        ExploredGrows(g, l0, t0, t1, x, y);
        UnmarkedFalls(t0.visy, t1.visy, n);
        if visy[y] {
          ExploreSkip(g, l0, t0, t1, x, y);
        } else {
          ReducedCostFits(lo, hi, x, y);
          var t := lx[x] + ly[y] - w[x][y];
          assert t == g.Cost(x, y);
          if t == 0 {
            found := Take(x, y, lo, hi, t0);
            if found {
              return;
            }
          } else {
            assert g.Pair(x, y);
            if slack[y] > t {
              slack[y] := t;
            }
            assert Marks() == t1.(slack := t1.slack[y := if t1.slack[y] > t then t else t1.slack[y]]);
            ExploreSlack(g, l0, t0, t1, x, y, Marks());
          }
        }
        y := y + 1;
      }
      found := false;
    }

    /** The branch of Search for a tight column y that is not marked yet; t0 is where the search from x began. */
    method Take(x: int, y: int, ghost lo: int, ghost hi: int, ghost t0: Tree) returns (found: bool)
      requires Valid() && Slots() && Fits(lo, hi) && Labels().Pair(x, y) && !visy[y]
      requires Labels().Feasible() && Labels().Tight(link[..]) && Labels().Cost(x, y) == 0
      requires t0.Wf(n) && InjectiveOff(n, link[..], t0.visy) && !Meets(n, link[..], t0.visy, x)
      requires Explored(Labels(), link[..], t0, Marks(), x, y)
      modifies visx, visy, slack, link
      ensures Slots() && Labels().Tight(link[..])
      ensures found ==> Augments(n, old(link[..]), link[..], t0.visy, x)
      ensures !found ==> link[..] == old(link[..]) && Explored(Labels(), link[..], t0, Marks(), x, y + 1)
      decreases Unmarked(visy[..], n), 0
    {
      hide Explored, InjectiveOff, Meets, Augments, WeightBounds;
      ghost var g, l0, t1 := Labels(), link[..], Marks();
      ExploredGrows(g, l0, t0, t1, x, y);
      visy[y] := true;
      ghost var t2 := Marks();
      assert t2 == t1.(visy := t1.visy[y := true]);
      found := link[y] == -1;
      if found {
        AugmentFree(n, l0, t0.visy, x, y);
      } else {
        UnmarkedShrinks(t1.visy, t2.visy, n, y);
        StillInjective(n, l0, t0.visy, t2.visy, y);
        found := Search(link[y], lo, hi);
        if found {
          AugmentThrough(n, l0, link[..], t0.visy, t2.visy, x, y);
        } else {
          ExploreDeeper(g, l0, t0, t1, t2, Marks(), x, y);
        }
      }
      if found {
        ghost var l1 := link[..];
        link[y] := x;
        assert link[..] == l1[y := x];
      }
    }

    /** Lines 43-49: every label of a row is its largest weight and every column is free. */
    method InitLabels(ghost lo: int, ghost hi: int)
      requires Valid() && WeightRange(lo, hi) && Range32(lo, hi)
      modifies lx, ly, link
      ensures Ready(lo, hi) && Slots()
      ensures forall y :: 1 <= y <= n ==> link[y] == -1
    {
      for i := 0 to n + 1
        invariant forall y :: 0 <= y < i ==> link[y] == -1 && ly[y] == 0
      {
        link[i], ly[i] := -1, 0;
      }
      for i := 1 to n + 1
        modifies lx
        invariant forall x, y :: 1 <= x < i && 1 <= y <= n ==> w[x][y] <= lx[x]
        invariant forall x :: 1 <= x < i ==> lo <= lx[x] <= hi
      {
        label row:
        lx[i] := -INF;
        assert lo <= w[i][1] <= hi;
        for j := 1 to n + 1
          modifies lx
          invariant forall x :: 1 <= x < i ==> lx[x] == old@row(lx[x])
          invariant forall y :: 1 <= y < j ==> lo <= w[i][y] <= lx[i]
          invariant lx[i] <= hi
        {
          if w[i][j] > lx[i] {
            lx[i] := w[i][j];
          }
        }
      }
      ghost var g := Labels();
      InitialSound(g, link[..], lo, hi);
    }

    ghost predicate WeightRange(lo: int, hi: int)
      requires Valid()
    {
      forall x, y :: 1 <= x <= n && 1 <= y <= n ==> lo <= w[x][y] <= hi
    }

    method ClearMarks()
      requires Valid()
      modifies visx, visy
      ensures visx[..] == NoMarks(n) && visy[..] == NoMarks(n)
    {
      for i := 0 to n + 1
        invariant forall j :: 0 <= j < i ==> !visx[j] && !visy[j]
      {
        visx[i], visy[i] := false, false;
      }
    }

    method ResetSlack()
      requires Valid()
      modifies slack
      ensures forall y :: 1 <= y <= n ==> slack[y] == INF
    {
      for i := 1 to n + 1
        invariant forall y :: 1 <= y < i ==> slack[y] == INF
      {
        slack[i] := INF;
      }
    }

    /** Lines 65-68: the least slack of an unmarked column. */
    method LeastUnmarked(ghost y: int) returns (d: int)
      requires Valid() && LeastSlack(n, Marks(), y) && slack[y] < INF
      ensures d == slack[y]
    {
      d := INF;
      for i := 1 to n + 1
        invariant d == INF || exists c :: 1 <= c < i && !visy[c] && d == slack[c]
        invariant forall c :: 1 <= c < i && !visy[c] ==> d <= slack[c]
        invariant d <= INF
      {
        if !visy[i] && d > slack[i] {
          d := slack[i];
        }
      }
    }

    /** Lines 65-76: shift the labels of the marked rows and columns by the least slack d. */
    method Shift(ghost y: int) returns (d: int)
      requires Valid() && LeastSlack(n, Marks(), y) && slack[y] < INF
      modifies lx, ly, slack
      ensures d == old(slack[y]) && Shifted(old(Labels()), Labels(), old(Marks()), d)
      ensures SlackShifted(n, old(Marks()), slack[..], d)
    {
      d := LeastUnmarked(y);
      for i := 1 to n + 1
        modifies lx
        invariant forall x :: 1 <= x <= n ==> lx[x] == old(lx[x]) - if x < i && visx[x] then d else 0
      {
        if visx[i] {
          lx[i] := lx[i] - d;
        }
      }
      for i := 1 to n + 1
        modifies ly, slack
        invariant forall c :: 1 <= c <= n ==> ly[c] == old(ly[c]) + if c < i && visy[c] then d else 0
        invariant forall c :: 1 <= c <= n ==> slack[c] == old(slack[c]) - if c < i && !visy[c] then d else 0
      {
        if visy[i] {
          ly[i] := ly[i] + d;
        } else {
          slack[i] := slack[i] - d;
        }
      }
    }

    /** Rows below x are matched, the others are free. */
    ghost predicate MatchedBelow(x: int)
      requires Valid()
      reads link
    {
      forall r :: r >= 1 ==> (Meets(n, link[..], NoMarks(n), r) <==> r < x)
    }

    /** Labels, matching and slack as one retry from row x finds them. */
    ghost predicate Between(x: int, lo: int, hi: int, rows: set<int>, cols: set<int>)
      requires Valid()
      reads lx, ly, link, slack
    {
      Slots() && Ready(lo, hi) && SlackFits(n, slack[..]) && Frontier(Labels(), link[..], x, rows, cols, slack[..])
    }

    /** Lines 57-76: one search from row x, followed by a label shift if it fails. */
    method Retry(x: int, ghost lo: int, ghost hi: int, ghost rows: set<int>, ghost cols: set<int>)
      returns (found: bool, ghost rows': set<int>, ghost cols': set<int>)
      requires Valid() && Between(x, lo, hi, rows, cols) && 1 <= x <= n && MatchedBelow(x)
      requires Range32(lo, hi)
      modifies lx, ly, link, slack, visx, visy
      ensures found ==> Slots() && Ready(lo, hi) && Augments(n, old(link[..]), link[..], NoMarks(n), x)
      ensures !found ==> link[..] == old(link[..]) && Between(x, lo, hi, rows', cols')
      ensures !found ==> cols < cols' && |cols| < |cols'| <= x
    {
      hide Frontier, Explored, Augments, Meets, InjectiveOff, SlackExact, SlackShifted, SlackFits;
      ghost var slack0, g, l0 := slack[..], Labels(), link[..];
      ClearMarks();
      assert Marks() == Tree(NoMarks(n), NoMarks(n), slack0);
      found := Search(x, lo, hi);
      rows', cols' := rows, cols;
      ghost var t := Marks();
      if found {
        AugmentedSound(g, l0, link[..], x, lo, hi);
      } else {
        RetryKeeps(g, l0, x, rows, cols, slack0, t, lo, hi);
        SearchKeepsSlack(g, l0, x, slack0, t, lo, hi);
        ghost var y := LeastOf(g, l0, x, slack0, t);
        FewMarked(g, l0, x, slack0, t);
        var d := Shift(y);
        ghost var f := FreeColumn(n, l0, x);
        ShiftIsSound(g, Labels(), l0, x, slack0, t, y, f, lo, hi);
        ShiftKeepsSlack(n, t, slack[..], y);
        ShiftAdvances(g, Labels(), l0, x, slack0, t, y, slack[..]);
        rows', cols' := t.Rows(), t.Cols() + {y};
        GrownCols(n, t, y, cols);
      }
    }

    /**
     Lines 53-77: search from row x and shift labels until a search succeeds,
     after at most x shifts: a failed search marks matched columns only, and x - 1
     columns are matched.
     */
    method Grow(x: int, ghost lo: int, ghost hi: int) returns (ghost shifts: nat)
      requires Valid() && Slots() && Ready(lo, hi) && 1 <= x <= n && MatchedBelow(x)
      requires Range32(lo, hi)
      modifies lx, ly, link, slack, visx, visy
      ensures Slots() && Ready(lo, hi) && MatchedBelow(x + 1)
      ensures shifts <= x
    {
      hide Sound, Augments;
      ResetSlack();
      assert SlackFits(n, slack[..]);
      ghost var rows, cols: set<int> := {}, {};
      ghost var l0 := link[..];
      shifts := 0;
      while true
        invariant Between(x, lo, hi, rows, cols) && link[..] == l0
        invariant shifts <= |cols| <= x
        decreases x - |cols|
      {
        var found;
        found, rows, cols := Retry(x, lo, hi, rows, cols);
        if found {
          break;
        }
        shifts := shifts + 1;
      }
      AugmentedBelow(n, l0, link[..], x);
    }

    /** Lines 79-88: add up the weights of the matched edges. */
    method Total(ghost lo: int, ghost hi: int) returns (res: int)
      requires Valid() && WeightRange(lo, hi) && Perfect(n, link[..])
      ensures res == Weight(n, w, link[..], n)
      ensures n * lo <= res <= n * hi
    {
      res := 0;
      for i := 1 to n + 1
        invariant res == Weight(n, w, link[..], i - 1)
        invariant (i - 1) * lo <= res <= (i - 1) * hi
      {
        if link[i] > -1 {
          res := res + w[link[i]][i];
        }
      }
    }

    /**
     The solver. With weights in lo..hi whose spread keeps every label sum within
     32 bits, it ends with a perfect matching of the largest total weight, after
     at most x label shifts for row x.
     */
    method Run(ghost lo: int, ghost hi: int) returns (res: int, ghost shifts: nat)
      requires Valid() && WeightRange(lo, hi)
      requires Range32(lo, hi)
      modifies lx, ly, link, slack, visx, visy
      ensures Perfect(n, link[..]) && res == Weight(n, w, link[..], n)
      ensures forall q :: Perfect(n, q) ==> Weight(n, w, q, n) <= res
      ensures Ready(lo, hi)
      ensures n * lo <= res <= n * hi && 2 * shifts <= n * (n + 1)
    {
      hide Sound, Weight, Perfect;
      InitLabels(lo, hi);
      shifts := 0;
      for x := 1 to n + 1
        invariant Slots() && Ready(lo, hi) && MatchedBelow(x)
        invariant 2 * shifts <= (x - 1) * x
      {
        ghost var k := Grow(x, lo, hi);
        shifts := shifts + k;
        assert x * (x + 1) == (x - 1) * x + 2 * x;
      }
      SoundIsOptimal(Labels(), link[..], lo, hi);
      res := Total(lo, hi);
    }
  }

  lemma GrownCols(n: nat, t: Tree, y: int, cols: set<int>)
    requires t.Wf(n) && 1 <= y <= n && !t.visy[y] && cols <= t.Cols()
    ensures cols < t.Cols() + {y} && |cols| < |t.Cols() + {y}| == |t.Cols()| + 1
  {
    SubsetSize(cols, t.Cols());
    assert y !in t.Cols();
  }

  /** With the rows below x matched, a failed search from x marks fewer than x columns. */
  lemma FewMarked(g: Duals, link: seq<int>, x: int, slack: seq<int>, t: Tree)
    requires FailedFrom(g, link, x, slack, t) && InjectiveOff(g.n, link, NoMarks(g.n))
    requires forall r :: r >= 1 && Meets(g.n, link, NoMarks(g.n), r) ==> r < x
    ensures |t.Cols()| < x
  {
    MarkedAreScanned(g, link, x, slack, t);
    var cols := t.Cols();
    forall y | y in cols
      ensures link[y] in Upto(x - 1)
    {
      assert !NoMarks(g.n)[y];
      assert Meets(g.n, link, NoMarks(g.n), link[y]);
    }
    InjectiveUnmarked(g.n, link, cols);
    ImageSize(link, cols);
    SubsetSize(Image(link, cols), Upto(x - 1));
    UptoSize(x - 1);
  }

  lemma AugmentedSound(g: Duals, link: seq<int>, link': seq<int>, x: int, lo: int, hi: int)
    requires Sound(g, link, lo, hi) && g.Tight(link') && Augments(g.n, link, link', NoMarks(g.n), x)
    ensures Sound(g, link', lo, hi)
  {
  }

  lemma AugmentedBelow(n: nat, link: seq<int>, link': seq<int>, x: int)
    requires |link| == |link'| == n + 1 && Augments(n, link, link', NoMarks(n), x)
    requires forall r :: r >= 1 ==> (Meets(n, link, NoMarks(n), r) <==> r < x)
    ensures forall r :: r >= 1 ==> (Meets(n, link', NoMarks(n), r) <==> r < x + 1)
  {
  }

  /** Some unmarked column has the least slack. */
  lemma LeastOf(g: Duals, link: seq<int>, root: int, slack: seq<int>, t: Tree) returns (y: int)
    requires FailedFrom(g, link, root, slack, t)
    requires InjectiveOff(g.n, link, NoMarks(g.n)) && !Meets(g.n, link, NoMarks(g.n), root)
    ensures LeastSlack(g.n, t, y)
    ensures |t.Cols()| < g.n
  {
    y := SomeColumnLeft(g, link, root, slack, t);
    for i := 1 to g.n + 1
      invariant 1 <= y <= g.n && !t.visy[y]
      invariant forall c :: 1 <= c < i && !t.visy[c] ==> t.slack[y] <= t.slack[c]
    {
      if !t.visy[i] && t.slack[i] < t.slack[y] {
        y := i;
      }
    }
  }
}
