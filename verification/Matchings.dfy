/**
 Partial matchings between rows 1..n and columns 1..n, held as the arrays
 `link` and `link1` hold them: link[y] >= 1 is the row matched to column y, and
 any smaller value means that column y is free.
 */
module Matchings {
  import opened Finite

  ghost predicate Shape(n: nat, link: seq<int>) {
    |link| == n + 1 && forall y :: 1 <= y <= n ==> link[y] <= n
  }

  /** No column is marked. */
  ghost function NoMarks(n: nat): seq<bool> {
    seq(n + 1, i => false)
  }

  /** The columns that have a row. */
  ghost function MatchedCols(n: nat, link: seq<int>): (s: set<int>)
    requires |link| == n + 1
    ensures s <= Upto(n)
  {
    set y | y in Upto(n) && link[y] >= 1
  }

  /** No row has two of the columns that are not marked. */
  ghost predicate InjectiveOff(n: nat, link: seq<int>, vis: seq<bool>)
    requires |link| == |vis| == n + 1
  {
    forall y, y' :: 1 <= y < y' <= n && !vis[y] && !vis[y'] && link[y] >= 1 ==> link[y] != link[y']
  }

  /** Row x has one of the columns that are not marked. */
  ghost predicate Meets(n: nat, link: seq<int>, vis: seq<bool>, x: int)
    requires |link| == |vis| == n + 1
  {
    exists y :: 1 <= y <= n && !vis[y] && link[y] == x
  }

  /** link' is link after one augmentation from row x that stays off the marked columns. */
  ghost predicate Augments(n: nat, link: seq<int>, link': seq<int>, vis: seq<bool>, x: int)
    requires |link| == |link'| == |vis| == n + 1
  {
    && (forall y :: 1 <= y <= n && vis[y] ==> link'[y] == link[y])
    && (forall y :: 1 <= y <= n && link[y] >= 1 ==> link'[y] >= 1)
    && InjectiveOff(n, link', vis)
    && (forall r :: r >= 1 ==> (Meets(n, link', vis, r) <==> Meets(n, link, vis, r) || r == x))
  }

  ghost predicate MarksGrow(vis: seq<bool>, vis': seq<bool>) {
    |vis| == |vis'| && forall y :: 0 <= y < |vis| && vis[y] ==> vis'[y]
  }

  /** The number of columns in 1..k that are not marked. */
  ghost function Unmarked(vis: seq<bool>, k: nat): nat
    requires k < |vis|
  {
    if k == 0 then 0 else Unmarked(vis, k - 1) + if vis[k] then 0 else 1
  }

  lemma {:induction false} UnmarkedShrinks(vis: seq<bool>, vis': seq<bool>, k: nat, y: int)
    requires MarksGrow(vis, vis') && k < |vis| && 1 <= y < |vis| && !vis[y] && vis'[y]
    ensures Unmarked(vis', k) <= Unmarked(vis, k) - if y <= k then 1 else 0
  {
    if k > 0 {
      UnmarkedShrinks(vis, vis', k - 1, y);
    }
  }

  lemma {:induction false} UnmarkedFalls(vis: seq<bool>, vis': seq<bool>, k: nat)
    requires MarksGrow(vis, vis') && k < |vis|
    ensures Unmarked(vis', k) <= Unmarked(vis, k)
  {
    if k > 0 {
      UnmarkedFalls(vis, vis', k - 1);
    }
  }

  /** A free column ends the augmenting path. */
  lemma AugmentFree(n: nat, link: seq<int>, vis: seq<bool>, x: int, y: int)
    requires |link| == |vis| == n + 1
    requires 1 <= y <= n && !vis[y] && link[y] < 1 && x >= 1
    requires InjectiveOff(n, link, vis) && !Meets(n, link, vis, x)
    ensures Augments(n, link, link[y := x], vis, x)
  {
  }

  /** A matched column passes the path on to its row, which found another column. */
  lemma AugmentThrough(n: nat, link: seq<int>, link1: seq<int>, vis: seq<bool>, vis1: seq<bool>, x: int, y: int)
    requires |link| == |link1| == |vis| == n + 1
    requires 1 <= y <= n && !vis[y] && link[y] >= 1 && x >= 1
    requires MarksGrow(vis, vis1) && vis1[y]
    requires InjectiveOff(n, link, vis) && !Meets(n, link, vis, x)
    requires Augments(n, link, link1, vis1, link[y])
    ensures Augments(n, link, link1[y := x], vis, x)
  {
    var link' := link1[y := x];
    forall r | r >= 1
      ensures Meets(n, link', vis, r) <==> Meets(n, link, vis, r) || r == x
    {
      if Meets(n, link, vis, r) {
        var c :| 1 <= c <= n && !vis[c] && link[c] == r;
        if vis1[c] && c != y {
          assert link'[c] == r;
        } else {
          assert Meets(n, link1, vis1, r);
          var c' :| 1 <= c' <= n && !vis1[c'] && link1[c'] == r;
          assert link'[c'] == r;
        }
      }
      if r == x {
        assert link'[y] == r;
      }
      if Meets(n, link', vis, r) && r != x {
        var c :| 1 <= c <= n && !vis[c] && link'[c] == r;
        if !vis1[c] {
          assert Meets(n, link1, vis1, r);
          MeetsLess(n, link, vis, vis1, r);
          assert r == link[y] || Meets(n, link, vis, r);
        }
      }
    }
    forall c, c' | 1 <= c < c' <= n && !vis[c] && !vis[c'] && link'[c] >= 1
      ensures link'[c] != link'[c']
    {
      AugmentedDistinct(n, link, link1, vis, vis1, x, y, c, c');
    }
  }

  lemma MeetsLess(n: nat, link: seq<int>, vis: seq<bool>, vis1: seq<bool>, r: int)
    requires |link| == |vis| == n + 1 && MarksGrow(vis, vis1)
    ensures Meets(n, link, vis1, r) ==> Meets(n, link, vis, r)
  {
  }

  lemma AugmentedDistinct(n: nat, link: seq<int>, link1: seq<int>, vis: seq<bool>, vis1: seq<bool>, x: int, y: int,
                          c: int, c': int)
    requires |link| == |link1| == |vis| == n + 1
    requires 1 <= y <= n && !vis[y] && link[y] >= 1 && x >= 1
    requires MarksGrow(vis, vis1) && vis1[y]
    requires InjectiveOff(n, link, vis) && !Meets(n, link, vis, x)
    requires Augments(n, link, link1, vis1, link[y])
    requires 1 <= c < c' <= n && !vis[c] && !vis[c'] && link1[y := x][c] >= 1
    ensures link1[y := x][c] != link1[y := x][c']
  {
    if c != y {
      Provenance(n, link, link1, vis, vis1, y, c);
    }
    if c' != y && link1[c'] >= 1 {
      Provenance(n, link, link1, vis, vis1, y, c');
    }
    if c != y && c' != y && vis1[c] != vis1[c'] {
      var kept, moved := if vis1[c] then c else c', if vis1[c] then c' else c;
      if link1[moved] >= 1 {
        var b :| 1 <= b <= n && !vis[b] && link[b] == link1[moved] && (b == y || !vis1[b]);
        assert b != kept;
        assert link[kept] >= 1 ==> link[kept] != link[b];
      }
    }
  }

  /** Outside y, a row still held off the old marks was held off them before. */
  lemma Provenance(n: nat, link: seq<int>, link1: seq<int>, vis: seq<bool>, vis1: seq<bool>, y: int, c: int)
    requires |link| == |link1| == |vis| == n + 1
    requires 1 <= y <= n && !vis[y] && link[y] >= 1
    requires MarksGrow(vis, vis1) && vis1[y]
    requires Augments(n, link, link1, vis1, link[y])
    requires 1 <= c <= n && !vis[c] && link1[c] >= 1
    ensures Meets(n, link, vis, link1[c])
    ensures !vis1[c] ==> exists b :: 1 <= b <= n && !vis[b] && link[b] == link1[c] && (b == y || !vis1[b])
  {
    if vis1[c] {
      assert link[c] == link1[c];
    } else {
      assert Meets(n, link1, vis1, link1[c]);
      if link1[c] == link[y] {
        assert link[y] == link1[c];
      } else {
        var b :| 1 <= b <= n && !vis1[b] && link[b] == link1[c];
        assert !vis[b];
      }
    }
  }

  lemma StillInjective(n: nat, link: seq<int>, vis: seq<bool>, vis1: seq<bool>, y: int)
    requires |link| == |vis| == n + 1 && MarksGrow(vis, vis1) && InjectiveOff(n, link, vis)
    requires 1 <= y <= n && !vis[y] && vis1[y] && link[y] >= 1
    ensures InjectiveOff(n, link, vis1) && !Meets(n, link, vis1, link[y])
  {
  }

  lemma InjectiveUnmarked(n: nat, link: seq<int>, cols: set<int>)
    requires |link| == n + 1 && cols <= Upto(n) && InjectiveOff(n, link, NoMarks(n))
    requires forall y :: y in cols ==> link[y] >= 1
    ensures InjectiveOn(link, cols)
  {
    assert forall i :: 1 <= i <= n ==> !NoMarks(n)[i];
  }

  /** Columns matched to distinct rows other than the root are not all the columns. */
  lemma TooFew(n: nat, link: seq<int>, root: int, cols: set<int>)
    requires |link| == n + 1 && 1 <= root <= n && cols <= Upto(n)
    requires forall y :: y in cols ==> 1 <= link[y] <= n && link[y] != root
    requires InjectiveOn(link, cols)
    ensures |cols| < n
    ensures Upto(n) - cols != {}
  {
    var rest := Upto(n) - {root};
    ImageSize(link, cols);
    assert Image(link, cols) <= rest;
    hide Image, Upto;
    SubsetSize(Image(link, cols), rest);
    UptoSize(n);
    assert |rest| == n - 1;
    if Upto(n) - cols == {} {
      SubsetSize(Upto(n), cols);
    }
  }
}
