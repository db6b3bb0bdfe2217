/**
 What one recursive search of the assignment solver explores: rows and columns
 marked through tight edges, and the slack recorded for the columns left out.
 Everything here is about snapshots of the solver's arrays.
 */
module AlternatingTree {
  import opened Matchings

  /** The weights with one pair of dual labels; index 0 is unused. */
  datatype Duals = Duals(n: nat, w: seq<seq<int>>, lx: seq<int>, ly: seq<int>) {
    ghost predicate Wf() {
      |w| == |lx| == |ly| == n + 1 && forall x :: 0 <= x <= n ==> |w[x]| == n + 1
    }

    ghost predicate Pair(x: int, y: int) {
      1 <= x <= n && 1 <= y <= n
    }

    /** The reduced cost lx[x] + ly[y] - w[x][y]. */
    ghost function Cost(x: int, y: int): int
      requires Wf() && Pair(x, y)
    {
      lx[x] + ly[y] - w[x][y]
    }

    ghost predicate Feasible()
      requires Wf()
    {
      forall x, y :: Pair(x, y) ==> Cost(x, y) >= 0
    }

    /** Every matched edge has reduced cost zero. */
    ghost predicate Tight(link: seq<int>)
      requires Wf()
    {
      Shape(n, link) && forall y :: 1 <= y <= n && link[y] >= 1 ==> Cost(link[y], y) == 0
    }

    /** A set of rows that contains the partner of every column one of its rows is tight with. */
    ghost predicate ClosedUnder(link: seq<int>, c: set<int>)
      requires Wf() && |link| == n + 1
    {
      forall x, y :: x in c && Pair(x, y) && Cost(x, y) == 0 && link[y] >= 1 ==> link[y] in c
    }
  }

  datatype Tree = Tree(visx: seq<bool>, visy: seq<bool>, slack: seq<int>) {
    ghost predicate Wf(n: nat) {
      |visx| == |visy| == |slack| == n + 1
    }

    ghost function Rows(): set<int> {
      set x | 1 <= x < |visx| && visx[x]
    }

    ghost function Cols(): set<int> {
      set y | 1 <= y < |visy| && visy[y]
    }
  }

  ghost predicate Grows(n: nat, t: Tree, t': Tree)
    requires t.Wf(n) && t'.Wf(n)
  {
    && MarksGrow(t.visx, t'.visx)
    && MarksGrow(t.visy, t'.visy)
    && forall y :: 1 <= y <= n ==> t'.slack[y] <= t.slack[y]
  }

  /** Column y was either taken into the tree or left with a slack that row x bounds. */
  ghost predicate ScannedAt(g: Duals, t: Tree, x: int, y: int)
    requires g.Wf() && t.Wf(g.n) && g.Pair(x, y)
  {
    t.visy[y] || (g.Cost(x, y) > 0 && t.slack[y] <= g.Cost(x, y))
  }

  ghost predicate Scanned(g: Duals, t: Tree, x: int)
    requires g.Wf() && t.Wf(g.n) && 1 <= x <= g.n
  {
    forall y :: 1 <= y <= g.n ==> ScannedAt(g, t, x, y)
  }

  /** Some marked row is tight with column y. */
  ghost predicate Reached(g: Duals, t: Tree, y: int)
    requires g.Wf() && t.Wf(g.n) && 1 <= y <= g.n
  {
    exists x :: 1 <= x <= g.n && t.visx[x] && g.Cost(x, y) == 0
  }

  /** The slack of column y is the reduced cost of some marked row. */
  ghost predicate Attained(g: Duals, t: Tree, y: int)
    requires g.Wf() && t.Wf(g.n) && 1 <= y <= g.n
  {
    exists x :: 1 <= x <= g.n && t.visx[x] && t.slack[y] == g.Cost(x, y)
  }

  /** Row r was marked between t and t'. */
  ghost predicate NewRow(n: nat, t: Tree, t': Tree, r: int)
    requires t.Wf(n) && t'.Wf(n)
  {
    1 <= r <= n && t'.visx[r] && !t.visx[r]
  }

  /** Rows marked between t and t' lie in every closed set that holds x. */
  ghost predicate Least(g: Duals, link: seq<int>, t: Tree, t': Tree, x: int)
    requires g.Wf() && t.Wf(g.n) && t'.Wf(g.n) && |link| == g.n + 1
  {
    forall c: set<int> :: x in c && g.ClosedUnder(link, c) ==> forall r :: NewRow(g.n, t, t', r) ==> r in c
  }

  /**
   The search from row x went from t to t' without finding a free column and has
   looked at the columns below k.
   */
  ghost predicate Explored(g: Duals, link: seq<int>, t: Tree, t': Tree, x: int, k: int)
    requires g.Wf() && t.Wf(g.n) && t'.Wf(g.n) && |link| == g.n + 1 && 1 <= x <= g.n && k <= g.n + 1
  {
    && Grows(g.n, t, t')
    && t'.visx[x]
    && (forall y :: 1 <= y < k ==> ScannedAt(g, t', x, y))
    && (forall r :: NewRow(g.n, t, t', r) && r != x ==> Scanned(g, t', r))
    && (forall y :: 1 <= y <= g.n && t'.visy[y] && !t.visy[y] ==>
          1 <= link[y] <= g.n && t'.visx[link[y]] && Reached(g, t', y))
    && (forall y :: 1 <= y <= g.n ==> t'.slack[y] == t.slack[y] || Attained(g, t', y))
    && Least(g, link, t, t', x)
  }

  /** Marking a matched column and failing from its row keeps the exploration record. */
  lemma ExploreDeeper(g: Duals, link: seq<int>, t: Tree, t1: Tree, t2: Tree, t3: Tree, x: int, y: int)
    requires g.Wf() && t.Wf(g.n) && t1.Wf(g.n) && t2.Wf(g.n) && t3.Wf(g.n) && |link| == g.n + 1
    requires g.Pair(x, y) && 1 <= link[y] <= g.n
    requires Explored(g, link, t, t1, x, y)
    requires g.Cost(x, y) == 0 && t2 == t1.(visy := t1.visy[y := true])
    requires Explored(g, link, t2, t3, link[y], g.n + 1)
    ensures Explored(g, link, t, t3, x, y + 1)
  {
    forall r | NewRow(g.n, t, t3, r) && r != x
      ensures Scanned(g, t3, r)
    {
      if t1.visx[r] {
        assert NewRow(g.n, t, t1, r);
        assert forall c :: 1 <= c <= g.n && ScannedAt(g, t1, r, c) ==> ScannedAt(g, t3, r, c);
      } else {
        assert NewRow(g.n, t2, t3, r);
      }
    }
    assert forall c :: 1 <= c < y && ScannedAt(g, t1, x, c) ==> ScannedAt(g, t3, x, c);
    ReachedGrows(g, t1, t3);
    assert Reached(g, t3, y);
    forall c: set<int> | x in c && g.ClosedUnder(link, c)
      ensures forall r :: NewRow(g.n, t, t3, r) ==> r in c
    {
      assert link[y] in c;
      forall r | NewRow(g.n, t, t3, r)
        ensures r in c
      {
        assert NewRow(g.n, t, t1, r) || NewRow(g.n, t2, t3, r);
      }
    }
  }

  lemma ReachedGrows(g: Duals, t: Tree, t': Tree)
    requires g.Wf() && t.Wf(g.n) && t'.Wf(g.n) && Grows(g.n, t, t')
    ensures forall y :: 1 <= y <= g.n && Reached(g, t, y) ==> Reached(g, t', y)
    ensures forall y :: 1 <= y <= g.n && Attained(g, t, y) && t'.slack[y] == t.slack[y] ==> Attained(g, t', y)
  {
  }

  /** A column that is not tight only lowers its slack. */
  lemma ExploreSlack(g: Duals, link: seq<int>, t: Tree, t1: Tree, x: int, y: int, t2: Tree)
    requires g.Wf() && t.Wf(g.n) && t1.Wf(g.n) && |link| == g.n + 1 && g.Pair(x, y)
    requires Explored(g, link, t, t1, x, y)
    requires g.Cost(x, y) > 0
    requires t2 == t1.(slack := t1.slack[y := if t1.slack[y] > g.Cost(x, y) then g.Cost(x, y) else t1.slack[y]])
    ensures Explored(g, link, t, t2, x, y + 1)
  {
    assert t2.Wf(g.n) && Grows(g.n, t1, t2);
    ReachedGrows(g, t1, t2);
    assert ScannedAt(g, t2, x, y);
    forall r | NewRow(g.n, t, t2, r)
      ensures NewRow(g.n, t, t1, r)
      ensures r != x ==> Scanned(g, t2, r)
    {
      assert NewRow(g.n, t, t1, r);
      if r != x {
        assert forall c :: 1 <= c <= g.n && ScannedAt(g, t1, r, c) ==> ScannedAt(g, t2, r, c);
      }
    }
    assert forall c :: 1 <= c < y && ScannedAt(g, t1, x, c) ==> ScannedAt(g, t2, x, c);
  }

  lemma ExploredGrows(g: Duals, link: seq<int>, t: Tree, t1: Tree, x: int, y: int)
    requires g.Wf() && t.Wf(g.n) && t1.Wf(g.n) && |link| == g.n + 1 && g.Pair(x, y)
    requires Explored(g, link, t, t1, x, y)
    ensures Grows(g.n, t, t1)
  {
  }

  /** A column already marked is passed over. */
  lemma ExploreSkip(g: Duals, link: seq<int>, t: Tree, t1: Tree, x: int, y: int)
    requires g.Wf() && t.Wf(g.n) && t1.Wf(g.n) && |link| == g.n + 1 && g.Pair(x, y)
    requires Explored(g, link, t, t1, x, y) && t1.visy[y]
    ensures Explored(g, link, t, t1, x, y + 1)
  {
    assert ScannedAt(g, t1, x, y);
  }

  /** The search starts by marking its own row. */
  lemma ExploreStart(g: Duals, link: seq<int>, t: Tree, t1: Tree, x: int)
    requires g.Wf() && t.Wf(g.n) && |link| == g.n + 1 && 1 <= x <= g.n
    requires t1 == t.(visx := t.visx[x := true])
    ensures Explored(g, link, t, t1, x, 1)
  {
    assert forall r :: NewRow(g.n, t, t1, r) ==> r == x;
  }
}
