/**
 The largest-matching search `KM::find` and the loop of `KM::LM` that counts its
 successes, over any bipartite graph on rows and columns 1..n
 (src/analysis/m_km.cpp).
 */
module MaxMatching {
  import opened Finite
  import opened Matchings

  ghost predicate Grid(n: nat, adj: seq<seq<bool>>) {
    |adj| == n + 1 && forall x :: 0 <= x <= n ==> |adj[x]| == n + 1
  }

  /** Every matched pair is an edge; a free column holds 0. */
  ghost predicate OnEdges(n: nat, adj: seq<seq<bool>>, link: seq<int>)
    requires Grid(n, adj)
  {
    Shape(n, link) && forall y :: 1 <= y <= n ==> link[y] == 0 || (link[y] >= 1 && adj[link[y]][y])
  }

  ghost predicate IsMatching(n: nat, adj: seq<seq<bool>>, link: seq<int>)
    requires Grid(n, adj)
  {
    OnEdges(n, adj, link) && InjectiveOn(link, MatchedCols(n, link))
  }

  /** Every column next to row x is marked. */
  ghost predicate Dry(n: nat, adj: seq<seq<bool>>, vis: seq<bool>, x: int)
    requires Grid(n, adj) && |vis| == n + 1 && 1 <= x <= n
  {
    forall y :: 1 <= y <= n && adj[x][y] ==> vis[y]
  }

  /** A failed search marked only matched columns, and their rows lead nowhere else. */
  ghost predicate DeadEnd(n: nat, adj: seq<seq<bool>>, link: seq<int>, vis: seq<bool>, vis': seq<bool>)
    requires Grid(n, adj) && |link| == n + 1 && |vis| == |vis'| == n + 1
  {
    && MarksGrow(vis, vis')
    && forall y :: 1 <= y <= n && vis'[y] && !vis[y] ==> 1 <= link[y] <= n && Dry(n, adj, vis', link[y])
  }

  lemma DeadEndJoins(n: nat, adj: seq<seq<bool>>, link: seq<int>, v0: seq<bool>, v1: seq<bool>, v2: seq<bool>, y: int)
    requires Grid(n, adj) && |link| == n + 1 && |v0| == |v1| == |v2| == n + 1 && 1 <= y <= n
    requires DeadEnd(n, adj, link, v0, v1) && DeadEnd(n, adj, link, v1[y := true], v2)
    requires 1 <= link[y] <= n && Dry(n, adj, v2, link[y])
    ensures DeadEnd(n, adj, link, v0, v2)
  {
  }

  /** Rows dx reach only columns dy, and those are all matched back into dx. */
  ghost predicate Barren(n: nat, adj: seq<seq<bool>>, link: seq<int>, dx: set<int>, dy: set<int>)
    requires Grid(n, adj) && |link| == n + 1
  {
    && dx <= Upto(n) && dy <= Upto(n)
    && (forall y :: y in dy ==> link[y] in dx)
    && (forall x, y :: x in dx && 1 <= y <= n && adj[x][y] ==> y in dy)
  }

  /** The rows and columns of a failed search join the barren ones. */
  lemma BarrenGrows(n: nat, adj: seq<seq<bool>>, link: seq<int>, vis: seq<bool>, x: int, dx: set<int>, dy: set<int>)
    returns (dx': set<int>, dy': set<int>)
    requires Grid(n, adj) && |link| == n + 1 && |vis| == n + 1 && 1 <= x <= n
    requires Barren(n, adj, link, dx, dy)
    requires DeadEnd(n, adj, link, NoMarks(n), vis) && Dry(n, adj, vis, x)
    ensures Barren(n, adj, link, dx', dy') && dx <= dx' && x in dx'
  {
    var cols := set y | y in Upto(n) && vis[y];
    dx' := dx + {x} + Image(link, cols);
    dy' := dy + cols;
  }

  /** Columns that a matching uses outside the barren ones belong to rows matched outside them. */
  lemma OutsideRows(n: nat, adj: seq<seq<bool>>, link: seq<int>, dx: set<int>, dy: set<int>, q: seq<int>)
    requires Grid(n, adj) && OnEdges(n, adj, link) && OnEdges(n, adj, q)
    requires Barren(n, adj, link, dx, dy)
    requires forall r :: 1 <= r <= n && r !in dx ==> Meets(n, link, NoMarks(n), r)
    ensures Image(q, MatchedCols(n, q) - dy) <= Image(link, MatchedCols(n, link) - dy)
  {
    forall y | y in MatchedCols(n, q) - dy
      ensures q[y] in Image(link, MatchedCols(n, link) - dy)
    {
      assert q[y] !in dx;
      assert Meets(n, link, NoMarks(n), q[y]);
      var c :| 1 <= c <= n && !NoMarks(n)[c] && link[c] == q[y];
      assert c in MatchedCols(n, link) - dy;
    }
  }

  lemma SplitSize(a: set<int>, b: set<int>, d: set<int>)
    requires d <= b && |a - d| <= |b - d|
    ensures |a| <= |b|
  {
    assert a == (a * d) + (a - d) && b == d + (b - d);
    SubsetSize(a * d, d);
  }

  /** An augmentation that leaves the barren columns alone leaves them barren. */
  lemma BarrenKept(n: nat, adj: seq<seq<bool>>, link: seq<int>, link': seq<int>, dx: set<int>, dy: set<int>)
    requires Grid(n, adj) && |link| == |link'| == n + 1 && Barren(n, adj, link, dx, dy)
    requires forall y :: y in dy && 0 <= y <= n ==> link'[y] == link[y]
    ensures Barren(n, adj, link', dx, dy)
  {
  }

  /**
   The barren columns and the rows that are not barren cover every edge, and there
   are as many of them as matched columns: no matching is larger.
   */
  lemma CoverBounds(n: nat, adj: seq<seq<bool>>, link: seq<int>, dx: set<int>, dy: set<int>, q: seq<int>)
    requires Grid(n, adj) && IsMatching(n, adj, link) && IsMatching(n, adj, q)
    requires Barren(n, adj, link, dx, dy)
    requires forall r :: 1 <= r <= n && r !in dx ==> Meets(n, link, NoMarks(n), r)
    ensures |MatchedCols(n, q)| <= |MatchedCols(n, link)|
  {
    hide Meets;
    var a, b := MatchedCols(n, q), MatchedCols(n, link);
    OutsideRows(n, adj, link, dx, dy, q);
    ImageSize(q, a - dy);
    ImageSize(link, b - dy);
    SubsetSize(Image(q, a - dy), Image(link, b - dy));
    forall y | y in dy
      ensures y in b
    {
      assert link[y] in dx;
    }
    SplitSize(a, b, dy);
  }

  /** One augmentation adds one matched column. */
  lemma AugmentCounts(n: nat, link: seq<int>, link': seq<int>, x: int)
    requires Shape(n, link) && Shape(n, link') && 1 <= x <= n
    requires InjectiveOff(n, link, NoMarks(n)) && !Meets(n, link, NoMarks(n), x)
    requires Augments(n, link, link', NoMarks(n), x)
    ensures |MatchedCols(n, link')| == |MatchedCols(n, link)| + 1
  {
    var a, b := MatchedCols(n, link), MatchedCols(n, link');
    InjectiveUnmarked(n, link, a);
    InjectiveUnmarked(n, link', b);
    ImageSize(link, a);
    ImageSize(link', b);
    MetRows(n, link);
    MetRows(n, link');
    assert Image(link', b) == Image(link, a) + {x};
  }

  lemma MetRows(n: nat, link: seq<int>)
    requires Shape(n, link)
    ensures forall r :: r in Image(link, MatchedCols(n, link)) <==> r >= 1 && Meets(n, link, NoMarks(n), r)
  {
    forall r | r in Image(link, MatchedCols(n, link))
      ensures r >= 1 && Meets(n, link, NoMarks(n), r)
    {
      var y :| y in MatchedCols(n, link) && link[y] == r;
      assert !NoMarks(n)[y];
    }
    forall r | r >= 1 && Meets(n, link, NoMarks(n), r)
      ensures r in Image(link, MatchedCols(n, link))
    {
      var y :| 1 <= y <= n && !NoMarks(n)[y] && link[y] == r;
      assert y in MatchedCols(n, link);
    }
  }

  lemma NothingMatched(n: nat, adj: seq<seq<bool>>, link: seq<int>)
    requires Grid(n, adj) && |link| == n + 1 && forall y :: 0 <= y <= n ==> link[y] == 0
    ensures MatchedCols(n, link) == {} && Barren(n, adj, link, {}, {})
    ensures InjectiveOff(n, link, NoMarks(n)) && forall r :: r >= 1 ==> !Meets(n, link, NoMarks(n), r)
  {
  }

  class Matcher {
    const n: nat
    const map_: seq<seq<bool>>
    const link1: array<int>
    const vis: array<bool>

    ghost predicate Valid() {
      Grid(n, map_) && link1.Length == vis.Length == n + 1
    }

    constructor (n: nat, adj: seq<seq<bool>>)
      requires Grid(n, adj)
      ensures Valid() && this.n == n && map_ == adj && fresh(link1) && fresh(vis)
      ensures forall y :: 0 <= y <= n ==> link1[y] == 0
    {
      this.n, map_ := n, adj;
      link1, vis := new int[n + 1](i => 0), new bool[n + 1];
    }

    /**
     The search from row x. Success is one augmentation that starts outside the
     barren rows and leaves the barren columns alone; failure is a dead end.
     */
    method Find(x: int, ghost dx: set<int>, ghost dy: set<int>) returns (found: bool)
      requires Valid() && 1 <= x <= n
      requires OnEdges(n, map_, link1[..]) && Barren(n, map_, link1[..], dx, dy)
      requires InjectiveOff(n, link1[..], vis[..]) && !Meets(n, link1[..], vis[..], x)
      modifies vis, link1
      ensures OnEdges(n, map_, link1[..])
      ensures found ==> Augments(n, old(link1[..]), link1[..], old(vis[..]), x)
      ensures found ==> x !in dx && forall y :: y in dy ==> link1[y] == old(link1[y])
      ensures !found ==> link1[..] == old(link1[..]) && DeadEnd(n, map_, link1[..], old(vis[..]), vis[..])
      ensures !found ==> Dry(n, map_, vis[..], x)
      decreases Unmarked(vis[..], n)
    {
      hide InjectiveOff, Meets, Augments;
      ghost var l0, v0 := link1[..], vis[..];
      for i := 1 to n + 1
        invariant link1[..] == l0 && DeadEnd(n, map_, l0, v0, vis[..])
        invariant forall y :: 1 <= y < i && map_[x][y] ==> vis[y]
      {
        ghost var v1 := vis[..];
        if map_[x][i] && !vis[i] {
          vis[i] := true;
          ghost var v2 := vis[..];
          assert v2 == v1[i := true];
          found := link1[i] == 0;
          if found {
            AugmentFree(n, l0, v0, x, i);
          } else {
            UnmarkedShrinks(v0, v2, n, i);
            StillInjective(n, l0, v0, v2, i);
            found := Find(link1[i], dx, dy);
            if found {
              AugmentThrough(n, l0, link1[..], v0, v2, x, i);
            } else {
              DeadEndJoins(n, map_, l0, v0, v1, vis[..], i);
            }
          }
          if found {
            ghost var l1 := link1[..];
            link1[i] := x;
            assert link1[..] == l1[i := x];
            return;
          }
        }
      }
      found := false;
    }

    method ClearMarks()
      requires Valid()
      modifies vis
      ensures vis[..] == NoMarks(n)
    {
      for i := 0 to n + 1
        invariant forall j :: 0 <= j < i ==> !vis[j]
      {
        vis[i] := false;
      }
    }

    /** Lines 138-142: the number of successes is the size of a largest matching. */
    method LM() returns (s: nat)
      requires Valid() && forall y :: 0 <= y <= n ==> link1[y] == 0
      modifies vis, link1
      ensures IsMatching(n, map_, link1[..]) && s == |MatchedCols(n, link1[..])|
      ensures forall q :: IsMatching(n, map_, q) ==> |MatchedCols(n, q)| <= s
    {
      hide Augments, DeadEnd, Dry, Barren, InjectiveOff, Meets;
      s := 0;
      ghost var dx, dy: set<int> := {}, {};
      NothingMatched(n, map_, link1[..]);
      for i := 1 to n + 1
        invariant OnEdges(n, map_, link1[..]) && InjectiveOff(n, link1[..], NoMarks(n))
        invariant Barren(n, map_, link1[..], dx, dy)
        invariant forall r :: r >= 1 && Meets(n, link1[..], NoMarks(n), r) ==> r < i
        invariant forall r :: 1 <= r < i && r !in dx ==> Meets(n, link1[..], NoMarks(n), r)
        invariant s == |MatchedCols(n, link1[..])|
      {
        ghost var l0 := link1[..];
        ClearMarks();
        var found := Find(i, dx, dy);
        if found {
          s := s + 1;
          AugmentCounts(n, l0, link1[..], i);
          AugmentMeets(n, l0, link1[..], i);
          BarrenKept(n, map_, l0, link1[..], dx, dy);
        } else {
          dx, dy := BarrenGrows(n, map_, l0, vis[..], i, dx, dy);
        }
      }
      ghost var l := link1[..];
      InjectiveUnmarked(n, l, MatchedCols(n, l));
      forall q | IsMatching(n, map_, q)
        ensures |MatchedCols(n, q)| <= s
      {
        CoverBounds(n, map_, l, dx, dy, q);
      }
    }
  }

  lemma AugmentMeets(n: nat, link: seq<int>, link': seq<int>, x: int)
    requires |link| == |link'| == n + 1 && Augments(n, link, link', NoMarks(n), x)
    ensures InjectiveOff(n, link', NoMarks(n))
    ensures forall r :: r >= 1 ==> (Meets(n, link', NoMarks(n), r) <==> Meets(n, link, NoMarks(n), r) || r == x)
  {
  }
}
