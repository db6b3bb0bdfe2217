/**
 What is known between two searches from the same root of the assignment
 solver, and why one label shift keeps it.
 */
module Relabelling {
  import opened Finite
  import opened Matchings
  import opened AlternatingTree

  const INF := 2147483647

  /** Labels stay within the range of the weights, and a free column has label zero. */
  ghost predicate LabelBounds(g: Duals, link: seq<int>, lo: int, hi: int)
    requires g.Wf() && |link| == g.n + 1
  {
    && (forall x :: 1 <= x <= g.n ==> lo <= g.lx[x] <= hi)
    && (forall y :: 1 <= y <= g.n ==> 0 <= g.ly[y] <= hi - lo && (link[y] < 1 ==> g.ly[y] == 0))
  }

  ghost predicate WeightBounds(g: Duals, lo: int, hi: int)
    requires g.Wf()
  {
    forall x, y :: g.Pair(x, y) ==> lo <= g.w[x][y] <= hi
  }

  /** Labels are feasible and bounded and the matching is injective and tight. */
  ghost predicate Sound(g: Duals, link: seq<int>, lo: int, hi: int) {
    && g.Wf()
    && g.Feasible()
    && g.Tight(link)
    && InjectiveOff(g.n, link, NoMarks(g.n))
    && WeightBounds(g, lo, hi)
    && LabelBounds(g, link, lo, hi)
  }

  ghost predicate TightFrom(g: Duals, rows: set<int>, y: int)
    requires g.Wf() && rows <= Upto(g.n) && 1 <= y <= g.n
  {
    exists x :: x in rows && g.Cost(x, y) == 0
  }

  ghost predicate SlackFrom(g: Duals, rows: set<int>, slack: seq<int>, y: int)
    requires g.Wf() && rows <= Upto(g.n) && 1 <= y <= g.n && |slack| == g.n + 1
  {
    exists x :: x in rows && slack[y] == g.Cost(x, y)
  }

  /**
   The state between two searches from `root`: `rows` are certain to be marked
   again, each column of `cols` is tight with one of them, and the slack of every
   other column is untouched or the reduced cost of one of them.
   */
  ghost predicate Frontier(g: Duals, link: seq<int>, root: int, rows: set<int>, cols: set<int>, slack: seq<int>)
    requires g.Wf() && |link| == |slack| == g.n + 1
  {
    && rows <= Upto(g.n)
    && cols <= Upto(g.n)
    && (forall c: set<int> :: root in c && g.ClosedUnder(link, c) ==> rows <= c)
    && (forall y :: y in cols ==> TightFrom(g, rows, y))
    && (forall y :: 1 <= y <= g.n && y !in cols ==> slack[y] == INF || SlackFrom(g, rows, slack, y))
  }

  /** The slack of column y is the least reduced cost over the marked rows, and it is positive. */
  ghost predicate SlackExact(g: Duals, t: Tree, y: int)
    requires g.Wf() && t.Wf(g.n) && 1 <= y <= g.n
  {
    && t.slack[y] > 0
    && SlackFrom(g, t.Rows(), t.slack, y)
    && forall x :: x in t.Rows() ==> t.slack[y] <= g.Cost(x, y)
  }

  /** A fresh search from the root that failed. */
  ghost predicate FailedFrom(g: Duals, link: seq<int>, root: int, slack: seq<int>, t: Tree) {
    && g.Wf() && t.Wf(g.n) && |link| == |slack| == g.n + 1 && 1 <= root <= g.n
    && Explored(g, link, Tree(NoMarks(g.n), NoMarks(g.n), slack), t, root, g.n + 1)
  }

  lemma MarkedAreScanned(g: Duals, link: seq<int>, root: int, slack: seq<int>, t: Tree)
    requires FailedFrom(g, link, root, slack, t)
    ensures t.Rows() <= Upto(g.n) && t.Cols() <= Upto(g.n) && root in t.Rows()
    ensures forall x :: x in t.Rows() ==> Scanned(g, t, x)
    ensures forall y :: y in t.Cols() ==> 1 <= link[y] <= g.n && link[y] in t.Rows() && Reached(g, t, y)
    ensures g.ClosedUnder(link, t.Rows())
  {
    var t0 := Tree(NoMarks(g.n), NoMarks(g.n), slack);
    forall x | x in t.Rows()
      ensures Scanned(g, t, x)
    {
      assert NewRow(g.n, t0, t, x);
    }
    forall x, y | x in t.Rows() && g.Pair(x, y) && g.Cost(x, y) == 0 && link[y] >= 1
      ensures link[y] in t.Rows()
    {
      assert ScannedAt(g, t, x, y);
      assert y in t.Cols();
    }
  }

  /**
   A failed retry marks everything the last one made certain, and leaves every
   unmarked column with its exact, positive slack.
   */
  lemma RetryKeeps(g: Duals, link: seq<int>, root: int, rows: set<int>, cols: set<int>, slack: seq<int>, t: Tree,
                   lo: int, hi: int)
    requires Sound(g, link, lo, hi) && 2 * (hi - lo) < INF
    requires FailedFrom(g, link, root, slack, t)
    requires Frontier(g, link, root, rows, cols, slack)
    ensures rows <= t.Rows() && cols <= t.Cols()
    ensures forall y :: 1 <= y <= g.n && !t.visy[y] ==> SlackExact(g, t, y)
    ensures forall y :: 1 <= y <= g.n && !t.visy[y] ==> t.slack[y] < INF
  {
    MarkedAreScanned(g, link, root, slack, t);
    assert rows <= t.Rows();
    forall y | y in cols
      ensures y in t.Cols()
    {
      var x :| x in rows && g.Cost(x, y) == 0;
      assert ScannedAt(g, t, x, y);
    }
    forall y | 1 <= y <= g.n && !t.visy[y]
      ensures SlackExact(g, t, y) && t.slack[y] < INF
    {
      assert y !in cols;
      assert forall x :: x in t.Rows() ==> ScannedAt(g, t, x, y);
      assert ScannedAt(g, t, root, y) && g.Pair(root, y);
      assert t.slack[y] <= g.Cost(root, y) <= 2 * (hi - lo);
      if t.slack[y] == slack[y] {
        assert SlackFrom(g, rows, slack, y);
        var x :| x in rows && slack[y] == g.Cost(x, y);
        assert x in t.Rows() && ScannedAt(g, t, x, y);
      } else {
        assert Attained(g, t, y);
        var x :| 1 <= x <= g.n && t.visx[x] && t.slack[y] == g.Cost(x, y);
        assert x in t.Rows() && ScannedAt(g, t, x, y);
      }
    }
  }

  /** A failed search from a free root leaves some column unmarked. */
  lemma SomeColumnLeft(g: Duals, link: seq<int>, root: int, slack: seq<int>, t: Tree) returns (y: int)
    requires FailedFrom(g, link, root, slack, t)
    requires InjectiveOff(g.n, link, NoMarks(g.n)) && !Meets(g.n, link, NoMarks(g.n), root)
    ensures 1 <= y <= g.n && !t.visy[y]
    ensures |t.Cols()| < g.n
  {
    MarkedAreScanned(g, link, root, slack, t);
    var cols := t.Cols();
    forall i | i in cols
      ensures link[i] != root
    {
      assert !NoMarks(g.n)[i];
    }
    InjectiveUnmarked(g.n, link, cols);
    TooFew(g.n, link, root, cols);
    y := Pick(Upto(g.n) - cols);
  }

  /** The duals after every marked row loses d and every marked column gains d. */
  ghost predicate Shifted(g: Duals, g': Duals, t: Tree, d: int) {
    && g.Wf() && g'.Wf() && t.Wf(g.n)
    && g'.n == g.n && g'.w == g.w
    && (forall x :: 1 <= x <= g.n ==> g'.lx[x] == if t.visx[x] then g.lx[x] - d else g.lx[x])
    && (forall y :: 1 <= y <= g.n ==> g'.ly[y] == if t.visy[y] then g.ly[y] + d else g.ly[y])
  }

  /** The slacks after every unmarked column loses d. */
  ghost predicate SlackShifted(n: nat, t: Tree, slack': seq<int>, d: int)
    requires t.Wf(n)
  {
    |slack'| == n + 1 && forall c :: 1 <= c <= n ==> slack'[c] == t.slack[c] - if t.visy[c] then 0 else d
  }

  /** Every slack is a 32-bit value between 0 and INF. */
  ghost predicate SlackFits(n: nat, slack: seq<int>) {
    |slack| == n + 1 && forall y :: 1 <= y <= n ==> 0 <= slack[y] <= INF
  }

  ghost predicate LeastSlack(n: nat, t: Tree, y: int)
    requires t.Wf(n)
  {
    && 1 <= y <= n && !t.visy[y]
    && forall c :: 1 <= c <= n && !t.visy[c] ==> t.slack[y] <= t.slack[c]
  }

  /** A shift by the least slack of an unmarked column keeps every slack between 0 and INF. */
  lemma ShiftKeepsSlack(n: nat, t: Tree, slack': seq<int>, y: int)
    requires t.Wf(n) && SlackFits(n, t.slack) && LeastSlack(n, t, y) && SlackShifted(n, t, slack', t.slack[y])
    ensures SlackFits(n, slack')
  {
  }

  /** A failed search leaves every slack at its old value or at a reduced cost, between 0 and INF. */
  lemma SearchKeepsSlack(g: Duals, link: seq<int>, x: int, slack: seq<int>, t: Tree, lo: int, hi: int)
    requires Sound(g, link, lo, hi) && 2 * (hi - lo) < INF && FailedFrom(g, link, x, slack, t)
    requires SlackFits(g.n, slack)
    ensures SlackFits(g.n, t.slack)
  {
    forall y | 1 <= y <= g.n
      ensures 0 <= t.slack[y] <= INF
    {
      if t.slack[y] != slack[y] {
        assert Attained(g, t, y);
        var r :| 1 <= r <= g.n && t.visx[r] && t.slack[y] == g.Cost(r, y);
        assert g.Pair(r, y);
      }
    }
  }

  lemma ShiftCosts(g: Duals, g': Duals, t: Tree, d: int, x: int, y: int)
    requires Shifted(g, g', t, d) && g.Pair(x, y)
    ensures g'.Cost(x, y) == g.Cost(x, y) + (if t.visy[y] then d else 0) - if t.visx[x] then d else 0
  {
  }

  /** A shift by the least slack keeps the labels feasible and the matching tight. */
  lemma ShiftKeepsDuals(g: Duals, g': Duals, link: seq<int>, root: int, slack: seq<int>, t: Tree, d: int)
    requires FailedFrom(g, link, root, slack, t)
    requires g.Feasible() && g.Tight(link) && Shifted(g, g', t, d) && d >= 0
    requires forall c :: 1 <= c <= g.n && !t.visy[c] ==> SlackExact(g, t, c) && d <= t.slack[c]
    ensures g'.Feasible() && g'.Tight(link)
  {
    MarkedAreScanned(g, link, root, slack, t);
    forall x, c | g.Pair(x, c)
      ensures g'.Cost(x, c) >= 0
    {
      ShiftCosts(g, g', t, d, x, c);
      if t.visx[x] && !t.visy[c] {
        assert x in t.Rows() && SlackExact(g, t, c);
      }
    }
    forall c | 1 <= c <= g.n && link[c] >= 1
      ensures g'.Cost(link[c], c) == 0
    {
      ShiftCosts(g, g', t, d, link[c], c);
      assert t.visx[link[c]] ==> ScannedAt(g, t, link[c], c);
      assert t.visy[c] ==> c in t.Cols();
    }
  }

  lemma ShiftKeepsBounds(g: Duals, g': Duals, link: seq<int>, t: Tree, d: int, f: int, lo: int, hi: int)
    requires Sound(g, link, lo, hi) && Shifted(g, g', t, d) && d >= 0
    requires g'.Feasible() && g'.Tight(link)
    requires forall y :: y in t.Cols() ==> link[y] >= 1
    requires 1 <= f <= g.n && link[f] < 1
    ensures LabelBounds(g', link, lo, hi)
  {
    assert f !in t.Cols() && g'.ly[f] == 0;
    forall x | 1 <= x <= g.n
      ensures lo <= g'.lx[x] <= hi
    {
      assert g'.Pair(x, f) && g'.Cost(x, f) >= 0;
      assert g.Pair(x, f);
    }
    forall c | 1 <= c <= g.n
      ensures 0 <= g'.ly[c] <= hi - lo && (link[c] < 1 ==> g'.ly[c] == 0)
    {
      if t.visy[c] {
        assert c in t.Cols();
        assert g'.Pair(link[c], c) && g'.Cost(link[c], c) == 0;
        assert g.Pair(link[c], c);
      }
    }
  }

  lemma ShiftIsSound(g: Duals, g': Duals, link: seq<int>, root: int, slack: seq<int>, t: Tree, y: int, f: int,
                     lo: int, hi: int)
    requires Sound(g, link, lo, hi)
    requires FailedFrom(g, link, root, slack, t)
    requires forall c :: 1 <= c <= g.n && !t.visy[c] ==> SlackExact(g, t, c)
    requires LeastSlack(g.n, t, y) && Shifted(g, g', t, t.slack[y])
    requires 1 <= f <= g.n && link[f] < 1
    ensures Sound(g', link, lo, hi)
  {
    assert SlackExact(g, t, y);
    ShiftKeepsDuals(g, g', link, root, slack, t, t.slack[y]);
    MarkedAreScanned(g, link, root, slack, t);
    ShiftKeepsBounds(g, g', link, t, t.slack[y], f, lo, hi);
    assert forall x, c :: g'.Pair(x, c) ==> g.Pair(x, c);
  }

  lemma TightAfterShift(g: Duals, g': Duals, t: Tree, y: int, c: int)
    requires g.Wf() && t.Wf(g.n) && LeastSlack(g.n, t, y) && SlackExact(g, t, y) && Shifted(g, g', t, t.slack[y])
    requires t.Rows() <= Upto(g.n) && 1 <= c <= g.n && (c == y || (t.visy[c] && Reached(g, t, c)))
    ensures TightFrom(g', t.Rows(), c)
  {
    if c == y {
      var x :| x in t.Rows() && t.slack[y] == g.Cost(x, y);
      ShiftCosts(g, g', t, t.slack[y], x, y);
    } else {
      var x :| 1 <= x <= g.n && t.visx[x] && g.Cost(x, c) == 0;
      ShiftCosts(g, g', t, t.slack[y], x, c);
      assert x in t.Rows();
    }
  }

  lemma SlackAfterShift(g: Duals, g': Duals, t: Tree, d: int, c: int, slack': seq<int>)
    requires Shifted(g, g', t, d) && t.Rows() <= Upto(g.n) && 1 <= c <= g.n && !t.visy[c] && SlackExact(g, t, c)
    requires |slack'| == g.n + 1 && slack'[c] == t.slack[c] - d
    ensures SlackFrom(g', t.Rows(), slack', c)
  {
    var x :| x in t.Rows() && t.slack[c] == g.Cost(x, c);
    ShiftCosts(g, g', t, d, x, c);
  }

  /** After the shift all marked columns and the one of least slack are tight with a marked row. */
  lemma ShiftAdvances(g: Duals, g': Duals, link: seq<int>, root: int, slack: seq<int>, t: Tree, y: int,
                      slack': seq<int>)
    requires FailedFrom(g, link, root, slack, t)
    requires forall c :: 1 <= c <= g.n && !t.visy[c] ==> SlackExact(g, t, c)
    requires LeastSlack(g.n, t, y) && Shifted(g, g', t, t.slack[y])
    requires SlackShifted(g.n, t, slack', t.slack[y])
    ensures Frontier(g', link, root, t.Rows(), t.Cols() + {y}, slack')
  {
    var d, rows, cols := t.slack[y], t.Rows(), t.Cols() + {y};
    MarkedAreScanned(g, link, root, slack, t);
    hide Explored, Scanned, Reached, SlackExact, SlackFrom, TightFrom;
    forall c: set<int> | root in c && g'.ClosedUnder(link, c)
      ensures rows <= c
    {
      LeastAfterShift(g, g', link, root, slack, t, d, c);
    }
    forall c | c in cols
      ensures TightFrom(g', rows, c)
    {
      TightAfterShift(g, g', t, y, c);
    }
    forall c | 1 <= c <= g.n && c !in cols
      ensures SlackFrom(g', rows, slack', c)
    {
      SlackAfterShift(g, g', t, d, c, slack');
    }
  }

  lemma LeastAfterShift(g: Duals, g': Duals, link: seq<int>, root: int, slack: seq<int>, t: Tree, d: int, c: set<int>)
    requires FailedFrom(g, link, root, slack, t)
    requires Shifted(g, g', t, d)
    requires root in c && g'.ClosedUnder(link, c)
    ensures t.Rows() <= c
  {
    MarkedAreScanned(g, link, root, slack, t);
    var both := c * t.Rows();
    forall x, y | x in both && g.Pair(x, y) && g.Cost(x, y) == 0 && link[y] >= 1
      ensures link[y] in both
    {
      assert ScannedAt(g, t, x, y);
      assert y in t.Cols();
      ShiftCosts(g, g', t, d, x, y);
    }
    assert g.ClosedUnder(link, both);
    var t0 := Tree(NoMarks(g.n), NoMarks(g.n), slack);
    forall x | x in t.Rows()
      ensures x in c
    {
      assert NewRow(g.n, t0, t, x);
    }
  }
}
