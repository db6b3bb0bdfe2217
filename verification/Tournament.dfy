/**
 The games of the loser tree on snapshots of its arrays: b[0] is the winner and
 b[q] the loser of the game at internal node q. The program does not store the
 winner of each game; the sequence w names it.
 */
module Tournament {
  import opened Bracket
  import opened Finite
  import opened Tuples

  /** CompareTemp::compare */
  predicate Compare(left: Tuple, right: Tuple) {
    !(left.key > right.key)
  }

  ghost predicate Shaped(f: Frame, ks: seq<Tuple>, b: seq<int>, w: seq<int>) {
    && f.Wf() && |ks| == f.n + 1 && |b| == f.n && |w| == 2 * f.n
    && (forall q {:trigger f.Node(q)} {:trigger w[q]} :: f.Node(q) ==> 1 <= w[q] <= f.n)
    && (forall e :: f.n <= e < 2 * f.n ==> w[e] == f.LeafAt(e))
  }

  /** Node q holds the loser and w names the winner of the winners of its two subtrees. */
  ghost predicate Decided(f: Frame, ks: seq<Tuple>, b: seq<int>, w: seq<int>, q: int)
    requires Shaped(f, ks, b, w) && f.Inner(q)
  {
    && ((w[q] == w[2 * q] && b[q] == w[2 * q + 1]) || (w[q] == w[2 * q + 1] && b[q] == w[2 * q]))
    && 1 <= b[q] <= f.n
    && Compare(ks[w[q]], ks[b[q]])
  }

  /** The whole tournament is decided and B[0] is its winner. */
  ghost predicate Settled(f: Frame, ks: seq<Tuple>, b: seq<int>, w: seq<int>) {
    && Shaped(f, ks, b, w)
    && (forall q :: f.Inner(q) ==> Decided(f, ks, b, w, q))
    && b[0] == w[1]
  }

  lemma {:induction false} ChampionBeats(f: Frame, ks: seq<Tuple>, b: seq<int>, w: seq<int>, q: int)
    requires Settled(f, ks, b, w) && f.Node(q)
    ensures Compare(ks[w[1]], ks[w[q]])
    decreases q
  {
    if q > 1 {
      ChampionBeats(f, ks, b, w, q / 2);
      assert Decided(f, ks, b, w, q / 2);
    }
  }

  /** B[0] is a least leaf. */
  lemma WinnerIsLeast(f: Frame, ks: seq<Tuple>, b: seq<int>, w: seq<int>)
    requires Settled(f, ks, b, w)
    ensures 1 <= b[0] <= f.n
    ensures forall i :: 1 <= i <= f.n ==> Compare(ks[b[0]], ks[i])
  {
    forall i | 1 <= i <= f.n
      ensures Compare(ks[b[0]], ks[i])
    {
      f.LeavesFillPositions(i, 0);
      ChampionBeats(f, ks, b, w, f.NodeOf(i));
    }
  }

  lemma {:induction false} Recorded(f: Frame, ks: seq<Tuple>, b: seq<int>, w: seq<int>, q: int) returns (j: int)
    requires Settled(f, ks, b, w) && f.Node(q)
    ensures 0 <= j < f.n && b[j] == w[q]
    decreases q
  {
    if q == 1 {
      j := 0;
    } else {
      assert Decided(f, ks, b, w, q / 2);
      if b[q / 2] == w[q] {
        j := q / 2;
      } else {
        j := Recorded(f, ks, b, w, q / 2);
      }
    }
  }

  /** Every leaf is recorded in B. */
  lemma EveryLeafRecorded(f: Frame, ks: seq<Tuple>, b: seq<int>, w: seq<int>)
    requires Settled(f, ks, b, w)
    ensures forall i :: 1 <= i <= f.n ==> i in b
  {
    forall i | 1 <= i <= f.n
      ensures i in b
    {
      f.LeavesFillPositions(i, 0);
      var j := Recorded(f, ks, b, w, f.NodeOf(i));
    }
  }

  lemma ReachesAll(f: Frame, ks: seq<Tuple>, b: seq<int>, w: seq<int>)
    requires Settled(f, ks, b, w)
    ensures Upto(f.n) <= Image([0] + b, Upto(f.n))
  {
    hide Upto, Decided;
    forall i | i in Upto(f.n)
      ensures i in Image([0] + b, Upto(f.n))
    {
      f.LeavesFillPositions(i, 0);
      var j := Recorded(f, ks, b, w, f.NodeOf(i));
      assert ([0] + b)[j + 1] == i && j + 1 in Upto(f.n);
    }
  }

  lemma AllDistinct(b: seq<int>, n: nat, j: int, j': int)
    requires |b| == n && 0 <= j < j' < n && Upto(n) <= Image([0] + b, Upto(n))
    ensures b[j] != b[j']
  {
    hide Upto, Image;
    SubsetSize(Upto(n), Image([0] + b, Upto(n)));
    NoValueTwice([0] + b, Upto(n), j + 1, j' + 1);
  }

  /** B is a permutation of the leaves 1..n. */
  lemma BracketIsPermutation(f: Frame, ks: seq<Tuple>, b: seq<int>, w: seq<int>)
    requires Settled(f, ks, b, w)
    ensures forall i :: 1 <= i <= f.n ==> i in b
    ensures forall j :: 0 <= j < f.n ==> 1 <= b[j] <= f.n
    ensures forall j, j' :: 0 <= j < j' < f.n ==> b[j] != b[j']
  {
    EveryLeafRecorded(f, ks, b, w);
    forall j | 0 <= j < f.n
      ensures 1 <= b[j] <= f.n
    {
      assert f.Node(1) && (j >= 1 ==> Decided(f, ks, b, w, j));
    }
    forall j, j' | 0 <= j < j' < f.n
      ensures b[j] != b[j']
    {
      ReachesAll(f, ks, b, w);
      AllDistinct(b, f.n, j, j');
    }
  }

  // ----- Building the tournament, leaf by leaf from the left -----

  /**
   Leaves 1..k have been played: games whose leaves are all in are decided, and a
   left subtree that waits for its sibling has its winner parked in the parent.
   */
  ghost predicate Played(f: Frame, ks: seq<Tuple>, b: seq<int>, w: seq<int>, k: int) {
    && Shaped(f, ks, b, w)
    && (forall q {:trigger f.Inner(q)} :: f.Inner(q) && f.Hi(q) <= k ==> Decided(f, ks, b, w, q))
    && (forall q {:trigger f.Inner(q)} :: f.Inner(q) && f.Hi(2 * q) <= k < f.Hi(q) ==> b[q] == w[2 * q])
    && (f.Hi(1) <= k ==> b[0] == w[1])
  }

  /** In the middle of a play that brings in the leaves up to k1, now standing at node p. */
  ghost predicate Climbing(f: Frame, ks: seq<Tuple>, b: seq<int>, w: seq<int>, k: int, k1: int, p: int) {
    && Shaped(f, ks, b, w) && f.Inner(p)
    && f.Lo(p) <= k + 1 <= f.Hi(p) == k1
    && (forall q {:trigger f.Inner(q)} :: f.Inner(q) && (f.Hi(q) <= k || (f.Hi(q) == k1 && q >= p)) ==>
          Decided(f, ks, b, w, q))
    && (forall q {:trigger f.Inner(q)} :: f.Inner(q) && f.Hi(2 * q) <= k < f.Hi(q) && !(f.Hi(q) == k1 && q >= p) ==>
          b[q] == w[2 * q])
    && (f.Hi(1) <= k ==> b[0] == w[1])
  }

  /** Bringing in the leaves up to k1 at node p completes no other node but the left child of p. */
  ghost predicate Next(f: Frame, k: int, k1: int, p: int)
    requires f.Wf() && f.Inner(p)
  {
    && 2 * p + 1 >= f.n && f.Lo(p) <= k + 1 <= f.Hi(p) == k1
    && forall c {:trigger f.Node(c)} :: f.Node(c) && k < f.Hi(c) < k1 ==> c == 2 * p && c >= f.n
  }

  /** A game that neither array changed stays decided. */
  lemma StillDecided(f: Frame, ks: seq<Tuple>, b: seq<int>, w: seq<int>, b': seq<int>, w': seq<int>, q: int)
    requires Shaped(f, ks, b, w) && Shaped(f, ks, b', w') && f.Inner(q) && Decided(f, ks, b, w, q)
    requires b'[q] == b[q] && w'[q] == w[q] && w'[2 * q] == w[2 * q] && w'[2 * q + 1] == w[2 * q + 1]
    ensures Decided(f, ks, b', w', q)
  {
  }

  /** A node whose leaves reach past k is neither a game finished by k nor a child of one. */
  lemma NotBelow(f: Frame, q: int, p: int, k: int)
    requires f.Wf() && f.Inner(q) && f.Inner(p) && f.Hi(q) <= k < f.Hi(p)
    ensures q != p && 2 * q != p && 2 * q + 1 != p
  {
    hide Frame.Hi, Frame.Lo;
    f.Interval(q);
    f.Interval(2 * q);
    f.Interval(2 * q + 1);
  }

  /** Writing down winner and loser of the game at p decides it. */
  lemma PlayGame(f: Frame, ks: seq<Tuple>, b: seq<int>, w: seq<int>, p: int, win: int, lose: int)
    requires Shaped(f, ks, b, w) && f.Inner(p)
    requires (win == w[2 * p] && lose == w[2 * p + 1]) || (win == w[2 * p + 1] && lose == w[2 * p])
    requires Compare(ks[win], ks[lose])
    ensures Shaped(f, ks, b[p := lose], w[p := win]) && Decided(f, ks, b[p := lose], w[p := win], p)
  {
    hide Pow2;
  }

  /** A game finished by k is not disturbed by one at p, whose leaves reach past k. */
  lemma KeptBelow(f: Frame, ks: seq<Tuple>, b: seq<int>, w: seq<int>, p: int, win: int, lose: int, q: int, k: int)
    requires Shaped(f, ks, b, w) && f.Inner(p) && f.Inner(q) && Shaped(f, ks, b[p := lose], w[p := win])
    requires Decided(f, ks, b, w, q) && f.Hi(q) <= k < f.Hi(p)
    ensures Decided(f, ks, b[p := lose], w[p := win], q)
  {
    hide Frame.Hi, Pow2, Decided;
    NotBelow(f, q, p, k);
    StillDecided(f, ks, b, w, b[p := lose], w[p := win], q);
  }

  lemma PlayStart(f: Frame, ks: seq<Tuple>, b: seq<int>, w: seq<int>, k: int, k1: int, p: int, win: int, lose: int)
    requires Played(f, ks, b, w, k) && f.Inner(p) && Next(f, k, k1, p)
    requires (win == w[2 * p] && lose == w[2 * p + 1]) || (win == w[2 * p + 1] && lose == w[2 * p])
    requires Compare(ks[win], ks[lose])
    ensures Shaped(f, ks, b[p := lose], w[p := win])
    ensures Climbing(f, ks, b[p := lose], w[p := win], k, k1, p)
  {
    PlayGame(f, ks, b, w, p, win, lose);
    hide Frame.Hi, Frame.Lo, Pow2, Decided, Shaped;
    var b', w' := b[p := lose], w[p := win];
    forall q | f.Inner(q) && (f.Hi(q) <= k || (f.Hi(q) == k1 && q >= p)) && q != p
      ensures Decided(f, ks, b', w', q)
    {
      if f.Hi(q) <= k {
        KeptBelow(f, ks, b, w, p, win, lose, q, k);
      } else {
        f.Chain(q, p);
      }
    }
    forall q | f.Inner(q) && f.Hi(2 * q) <= k < f.Hi(q) && !(f.Hi(q) == k1 && q >= p)
      ensures b'[q] == w'[2 * q]
    {
      assert 2 * q != p;
    }
    f.Interval(p);
  }

  /** A right child finds the winner of its left sibling parked in the parent. */
  lemma PlayClimb(f: Frame, ks: seq<Tuple>, b: seq<int>, w: seq<int>, k: int, k1: int, p: int)
    requires Climbing(f, ks, b, w, k, k1, p) && p > 1 && p % 2 == 1
    ensures 2 * (p / 2) == p - 1 && b[p / 2] == w[p - 1] && f.Inner(p / 2)
    ensures f.Lo(p / 2) <= k + 1 && f.Hi(p / 2) == k1
  {
    hide Frame.Hi, Frame.Lo, Pow2;
    var r := p / 2;
    assert f.Inner(r) && 2 * r == p - 1;
    f.Interval(r);
    f.Interval(2 * r);
  }

  lemma PlayClimbed(f: Frame, ks: seq<Tuple>, b: seq<int>, w: seq<int>, k: int, k1: int, p: int, win: int, lose: int)
    requires Climbing(f, ks, b, w, k, k1, p) && p > 1 && p % 2 == 1
    requires (win == w[p] && lose == w[p - 1]) || (win == w[p - 1] && lose == w[p])
    requires Compare(ks[win], ks[lose])
    ensures Shaped(f, ks, b[p / 2 := lose], w[p / 2 := win])
    ensures Climbing(f, ks, b[p / 2 := lose], w[p / 2 := win], k, k1, p / 2)
  {
    PlayClimb(f, ks, b, w, k, k1, p);
    PlayGame(f, ks, b, w, p / 2, win, lose);
    hide Frame.Hi, Frame.Lo, Pow2, Decided, Shaped;
    ClimbTo(f, ks, b, w, k, k1, p / 2, win, lose);
  }

  /** Games with the same last leaf further down the climb are not disturbed by the one at r. */
  lemma KeptAbove(f: Frame, ks: seq<Tuple>, b: seq<int>, w: seq<int>, k: int, k1: int, r: int, win: int, lose: int,
                  q: int)
    requires Climbing(f, ks, b, w, k, k1, 2 * r + 1) && f.Inner(r) && f.Inner(q) && f.Hi(q) == k1 && q > r
    requires Shaped(f, ks, b[r := lose], w[r := win])
    ensures Decided(f, ks, b[r := lose], w[r := win], q)
  {
    if q < 2 * r + 1 {
      f.Chain(2 * r + 1, q);
    }
    hide Frame.Hi, Frame.Lo, Pow2, Decided;
    StillDecided(f, ks, b, w, b[r := lose], w[r := win], q);
  }

  /** A climb that stands at the right child of r goes on at r once the game there is decided. */
  lemma ClimbTo(f: Frame, ks: seq<Tuple>, b: seq<int>, w: seq<int>, k: int, k1: int, r: int, win: int, lose: int)
    requires Climbing(f, ks, b, w, k, k1, 2 * r + 1) && f.Inner(r) && f.Lo(r) <= k + 1 && f.Hi(r) == k1
    requires var b', w' := b[r := lose], w[r := win];
             Shaped(f, ks, b', w') && Decided(f, ks, b', w', r)
    ensures Climbing(f, ks, b[r := lose], w[r := win], k, k1, r)
  {
    assert |b| == f.n && |w| == 2 * f.n;
    hide Frame.Hi, Frame.Lo, Pow2, Decided, Shaped;
    var b', w' := b[r := lose], w[r := win];
    forall q | f.Inner(q) && (f.Hi(q) <= k || (f.Hi(q) == k1 && q >= r)) && q != r
      ensures Decided(f, ks, b', w', q)
    {
      if f.Hi(q) <= k {
        KeptBelow(f, ks, b, w, r, win, lose, q, k);
      } else {
        KeptAbove(f, ks, b, w, k, k1, r, win, lose, q);
      }
    }
    forall q | f.Inner(q) && f.Hi(2 * q) <= k < f.Hi(q) && !(f.Hi(q) == k1 && q >= r)
      ensures b'[q] == w'[2 * q]
    {
      assert 2 * q != r;
    }
  }

  /** The climb ends at a left child, which parks its winner in the parent, or at the root. */
  lemma PlayEnd(f: Frame, ks: seq<Tuple>, b: seq<int>, w: seq<int>, k: int, k1: int, p: int, p0: int)
    requires Climbing(f, ks, b, w, k, k1, p) && (p == 1 || p % 2 == 0)
    requires f.Inner(p0) && Next(f, k, k1, p0)
    ensures Shaped(f, ks, b[p / 2 := w[p]], w) && Played(f, ks, b[p / 2 := w[p]], w, k1)
  {
    hide Frame.Hi, Frame.Lo, Decided;
    var b' := b[p / 2 := w[p]];
    assert Shaped(f, ks, b', w);
    forall q | f.Inner(q) && f.Hi(q) <= k1
      ensures Decided(f, ks, b', w, q)
    {
      FinishedByThen(f, k, k1, p, p0, q);
      assert Decided(f, ks, b, w, q);
      PastParent(f, q, p, k1);
      StillDecided(f, ks, b, w, b', w, q);
    }
    forall q | f.Inner(q) && f.Hi(2 * q) <= k1 < f.Hi(q)
      ensures b'[q] == w[2 * q]
    {
      ParkedByThen(f, k, k1, p, p0, q);
    }
    FinishedByThen(f, k, k1, p, p0, 1);
  }

  /** A game whose leaves are in by k1 was finished by k or lies on the climb that ended at p. */
  lemma FinishedByThen(f: Frame, k: int, k1: int, p: int, p0: int, q: int)
    requires f.Wf() && f.Inner(p) && f.Inner(q) && f.Inner(p0) && Next(f, k, k1, p0)
    requires f.Hi(p) == k1 && (p == 1 || p % 2 == 0)
    ensures f.Hi(q) <= k1 ==> f.Hi(q) <= k || (f.Hi(q) == k1 && q >= p)
  {
    hide Frame.Hi, Frame.Lo;
    assert f.Node(q);
    if q < p && f.Hi(q) == k1 {
      f.Chain(p, q);
    }
  }

  /** A left subtree finished by k1 whose parent is not was finished by k or is p itself. */
  lemma ParkedByThen(f: Frame, k: int, k1: int, p: int, p0: int, q: int)
    requires f.Wf() && f.Inner(p) && f.Inner(q) && f.Inner(p0) && Next(f, k, k1, p0)
    requires f.Hi(p) == k1 && (p == 1 || p % 2 == 0) && f.Hi(2 * q) <= k1 < f.Hi(q)
    ensures (f.Hi(2 * q) <= k && 2 * q != p) || 2 * q == p
  {
    hide Frame.Hi, Frame.Lo;
    assert f.Node(2 * q);
    if f.Hi(2 * q) == k1 {
      SameTop(f, p, 2 * q);
    }
  }

  /** The parent of a left child reaches past the last leaf of that child. */
  lemma PastParent(f: Frame, q: int, p: int, k1: int)
    requires f.Wf() && f.Inner(q) && f.Inner(p) && (p == 1 || p % 2 == 0) && f.Hi(p) == k1 >= f.Hi(q)
    ensures q != p / 2
  {
    if p > 1 {
      f.Interval(p / 2);
      f.Interval(p + 1);
    }
  }

  lemma SameTop(f: Frame, p: int, c: int)
    requires f.Wf() && f.Node(p) && f.Node(c) && f.Hi(p) == f.Hi(c)
    requires (p == 1 || p % 2 == 0) && c % 2 == 0
    ensures p == c
  {
    if c < p {
      f.Chain(p, c);
    } else if c > p {
      f.Chain(c, p);
    }
  }

  /** Before any leaf is in, nothing is required of b. */
  lemma PlayedNone(f: Frame, ks: seq<Tuple>, b: seq<int>, w: seq<int>)
    requires Shaped(f, ks, b, w)
    ensures Played(f, ks, b, w, 0)
  {
    forall q | f.Node(q)
      ensures f.Hi(q) > 0
    {
      f.Interval(q);
    }
  }

  lemma PlayedAll(f: Frame, ks: seq<Tuple>, b: seq<int>, w: seq<int>)
    requires Played(f, ks, b, w, f.n)
    ensures Settled(f, ks, b, w)
  {
    forall q | f.Node(q)
      ensures f.Hi(q) <= f.n
    {
      f.Interval(q);
    }
  }

  /** Two sibling leaves come in together. */
  lemma NextPair(f: Frame, i: int)
    requires f.Wf() && 2 <= i <= f.n && f.NodeOf(i - 1) % 2 == 0 && f.NodeOf(i) == f.NodeOf(i - 1) + 1
    ensures f.Inner(f.NodeOf(i) / 2) && Next(f, i - 2, i, f.NodeOf(i) / 2)
    ensures 2 * (f.NodeOf(i) / 2) == f.NodeOf(i - 1)
  {
    hide Frame.NodeOf, Frame.LeafAt, Pow2;
    var e := f.NodeOf(i - 1);
    f.LeavesFillPositions(i - 1, e);
    f.LeavesFillPositions(i, e + 1);
    assert f.Hi(e + 1) == i && f.Lo(e) == f.Hi(e) == i - 1;
    OddIsRight(e + 1, e / 2);
    PairIsNext(f, i, e / 2);
  }

  /** The parent of two neighbouring leaves reaches exactly over them. */
  lemma PairIsNext(f: Frame, i: int, p: int)
    requires f.Wf() && f.Inner(p) && 2 * p >= f.n
    requires f.Lo(2 * p) == f.Hi(2 * p) == i - 1 && f.Hi(2 * p + 1) == i
    ensures Next(f, i - 2, i, p)
  {
    hide Frame.Hi, Frame.Lo, Frame.Wf;
    f.Interval(p);
    forall c | f.Node(c) && f.Hi(c) == i - 1
      ensures c == 2 * p
    {
      SameTopLeaf(f, 2 * p, c);
    }
  }

  lemma SameTopLeaf(f: Frame, e: int, c: int)
    requires f.Wf() && f.n <= e < 2 * f.n && e % 2 == 0 && f.Node(c) && f.Hi(c) == f.Hi(e)
    ensures c == e
  {
    if c < e {
      f.Chain(e, c);
    } else if c > e {
      f.Chain(c, e);
    }
  }

  /** For odd n one leaf meets the winner of the lowest games, parked in the parent of both. */
  lemma NextOdd(f: Frame)
    requires f.Wf() && f.n % 2 == 1
    ensures f.Inner(f.n / 2) && Next(f, f.LowExt(), f.LowExt() + 1, f.n / 2)
    ensures f.Hi(2 * (f.n / 2)) == f.LowExt() && f.LeafAt(f.n) == f.LowExt() + 1
  {
    var p := f.n / 2;
    f.Interval(p);
    assert f.Hi(f.n) == f.LeafAt(f.n) == f.Lo(f.n);
  }

  // ----- Replaying one leaf -----

  /**
   The games outside the path above p are decided, b[0] won the game at p, and the
   games above still hold the winners of the side branches.
   */
  ghost predicate Replaying(f: Frame, ks: seq<Tuple>, b: seq<int>, w: seq<int>, p: int) {
    && Shaped(f, ks, b, w) && f.Node(p) && b[0] == w[p]
    && (forall q {:trigger f.Inner(q)} :: f.Inner(q) && (!OnPath(q, p) || q == p) ==> Decided(f, ks, b, w, q))
    && (forall c :: 1 < c <= p && OnPath(c, p) ==> b[c / 2] == w[Sibling(c)])
  }

  /** The winner at q is a leaf below q. */
  lemma {:induction false} WinnerBelow(f: Frame, ks: seq<Tuple>, b: seq<int>, w: seq<int>, q: int)
    requires Settled(f, ks, b, w) && f.Node(q)
    ensures f.NodeOf(w[q]) >= 1 && OnPath(q, f.NodeOf(w[q]))
    decreases 2 * f.n - q
  {
    f.LeavesFillPositions(w[q], q);
    if q < f.n {
      assert Decided(f, ks, b, w, q);
      var c := if w[q] == w[2 * q] then 2 * q else 2 * q + 1;
      WinnerBelow(f, ks, b, w, c);
      PathUp(c, f.NodeOf(w[q]));
    }
  }

  /** Whoever won at the parent of c without coming from the sibling of c won at c. */
  lemma WonAgainst(f: Frame, ks: seq<Tuple>, b: seq<int>, w: seq<int>, c: int)
    requires Settled(f, ks, b, w) && f.Node(c) && c > 1 && w[c / 2] != w[Sibling(c)]
    ensures w[c] == w[c / 2] && b[c / 2] == w[Sibling(c)]
  {
    assert f.Inner(c / 2) && Decided(f, ks, b, w, c / 2);
  }

  /** The champion won every game on its path. */
  lemma {:induction false} ChampionPath(f: Frame, ks: seq<Tuple>, b: seq<int>, w: seq<int>, c: int)
    requires Settled(f, ks, b, w) && f.Node(c) && f.NodeOf(b[0]) >= 1 && OnPath(c, f.NodeOf(b[0]))
    ensures w[c] == b[0] && (c > 1 ==> b[c / 2] == w[Sibling(c)])
    decreases c
  {
    hide OnPath, Decided, Frame.NodeOf;
    if c > 1 {
      var e := f.NodeOf(b[0]);
      PathUp(c, e);
      ChampionPath(f, ks, b, w, c / 2);
      SiblingOffPath(c, e);
      assert f.Node(Sibling(c));
      WinnerBelow(f, ks, b, w, Sibling(c));
      WonAgainst(f, ks, b, w, c);
    }
  }

  /** After the key of the champion changes, only the games on its path are in doubt. */
  lemma ReplayStart(f: Frame, ks: seq<Tuple>, b: seq<int>, w: seq<int>, t: Tuple)
    requires Settled(f, ks, b, w)
    ensures Replaying(f, ks[b[0] := t], b, w, f.NodeOf(b[0]))
  {
    var i, ks' := b[0], ks[b[0] := t];
    var e := f.NodeOf(i);
    assert f.Node(1);
    f.LeavesFillPositions(i, 0);
    forall q | f.Inner(q) && (!OnPath(q, e) || q == e)
      ensures Decided(f, ks', b, w, q)
    {
      assert Decided(f, ks, b, w, q);
      WinnerBelow(f, ks, b, w, q);
      LoserBelow(f, ks, b, w, q);
    }
    forall c | 1 < c <= e && OnPath(c, e)
      ensures b[c / 2] == w[Sibling(c)]
    {
      ChampionPath(f, ks, b, w, c);
    }
  }

  lemma LoserBelow(f: Frame, ks: seq<Tuple>, b: seq<int>, w: seq<int>, q: int)
    requires Settled(f, ks, b, w) && f.Inner(q)
    ensures 1 <= b[q] <= f.n && f.NodeOf(b[q]) >= 1 && OnPath(q, f.NodeOf(b[q]))
  {
    assert Decided(f, ks, b, w, q);
    var c := if b[q] == w[2 * q] then 2 * q else 2 * q + 1;
    WinnerBelow(f, ks, b, w, c);
    PathUp(c, f.NodeOf(b[q]));
  }

  lemma ReplayGame(f: Frame, ks: seq<Tuple>, b: seq<int>, w: seq<int>, p: int, win: int, lose: int)
    requires Shaped(f, ks, b, w) && f.Node(p) && p > 1 && b[0] == w[p] && b[p / 2] == w[Sibling(p)]
    requires (win == b[0] && lose == b[p / 2]) || (win == b[p / 2] && lose == b[0])
    requires 1 <= win <= f.n && 1 <= lose <= f.n && Compare(ks[win], ks[lose])
    ensures Shaped(f, ks, b[p / 2 := lose][0 := win], w[p / 2 := win]) && f.Inner(p / 2)
    ensures Decided(f, ks, b[p / 2 := lose][0 := win], w[p / 2 := win], p / 2)
  {
  }

  /** A game above q keeps the winner of its side branch when the one at q is played. */
  lemma SideKept(b: seq<int>, w: seq<int>, q: int, c: int, win: int, lose: int)
    requires 1 < c <= q < |b| && |w| == 2 * |b| && OnPath(c, q) && b[c / 2] == w[Sibling(c)]
    ensures b[q := lose][0 := win][c / 2] == w[q := win][Sibling(c)]
  {
    PathBelow(c, q);
  }

  /** Playing the next game on the path moves the doubt one node up. */
  lemma ReplayStep(f: Frame, ks: seq<Tuple>, b: seq<int>, w: seq<int>, p: int, win: int, lose: int)
    requires Replaying(f, ks, b, w, p) && p > 1
    requires (win == b[0] && lose == b[p / 2]) || (win == b[p / 2] && lose == b[0])
    requires 1 <= win <= f.n && 1 <= lose <= f.n && Compare(ks[win], ks[lose])
    ensures Replaying(f, ks, b[p / 2 := lose][0 := win], w[p / 2 := win], p / 2)
  {
    hide Pow2;
    assert OnPath(p, p);
    var q := p / 2;
    var b', w' := b[q := lose][0 := win], w[q := win];
    ReplayGame(f, ks, b, w, p, win, lose);
    assert |b| == f.n && |w| == 2 * f.n && b'[0] == w'[q];
    hide Decided, OnPath, Shaped;
    forall r | f.Inner(r) && !OnPath(r, q)
      ensures Decided(f, ks, b', w', r)
    {
      PathTail(r, p);
      OffPathChildren(r, q);
      StillDecided(f, ks, b, w, b', w', r);
    }
    hide Sibling;
    forall c | 1 < c <= q && OnPath(c, q)
      ensures b'[c / 2] == w'[Sibling(c)]
    {
      PathTail(c, p);
      SideKept(b, w, q, c, win, lose);
    }
  }

  lemma ReplayEnd(f: Frame, ks: seq<Tuple>, b: seq<int>, w: seq<int>)
    requires Replaying(f, ks, b, w, 1)
    ensures Settled(f, ks, b, w)
  {
  }
}
