/**
 The class LoserTree of src/common/m_trees.cpp and m_trees.h.
 */
module LoserTrees {
  import opened Bracket
  import opened Tournament
  import opened Tuples

  class LoserTree {
    var n: nat
    var lowExt: int
    var offset: int
    var B: array<int>
    var L: array<Tuple>
    ghost var f: Frame
    ghost var W: seq<int>

    ghost predicate Fields()
      reads this
    {
      && f.Wf() && n == f.n && lowExt == f.LowExt() && offset == f.Offset()
      && B.Length == n && L.Length == n + 1
    }

    /** The tournament over the current leaves is decided. */
    ghost predicate Valid()
      reads this, B, L
    {
      Fields() && Settled(f, L[..], B[..], W)
    }

    /** The winner was replaced by Load and waits for Replay. */
    ghost predicate Loaded(i: int)
      reads this, B, L
    {
      Fields() && 1 <= i <= n && i == B[0] && Replaying(f, L[..], B[..], W, f.NodeOf(i))
    }

    constructor ()
      ensures fresh(B) && fresh(L)
    {
      n, lowExt, offset := 0, 0, 0;
      B, L := new int[0], new Tuple[0];
      f, W := Frame(0, 0), [];
    }

    function Win(left: int, right: int): (r: int)
      requires 1 <= left < L.Length && 1 <= right < L.Length
      reads this, L
      ensures r == left || r == right
      ensures Compare(L[r], L[left]) && Compare(L[r], L[right])
      ensures L[left].key == L[right].key ==> r == left
    {
      if Compare(L[left], L[right]) then left else right
    }

    function Lose(left: int, right: int): (r: int)
      requires 1 <= left < L.Length && 1 <= right < L.Length
      reads this, L
      ensures r == left + right - Win(left, right)
    {
      if !Compare(L[left], L[right]) then left else right
    }

    /** Plays the game at p between left and right and lets the winner climb while it is a right child. */
    method Play(p0: int, left: int, right: int, ghost k: int, ghost k1: int)
      requires Fields() && Shaped(f, L[..], B[..], W) && f.Inner(p0)
      requires Played(f, L[..], B[..], W, k) && Next(f, k, k1, p0)
      requires left == W[2 * p0] && right == W[2 * p0 + 1]
      modifies this`W, B
      ensures Fields() && Shaped(f, L[..], B[..], W) && Played(f, L[..], B[..], W, k1)
    {
      hide Played, Climbing, Next, Frame.LeafAt, Pow2;
      var p := p0;
      ghost var b0 := B[..];
      B[p] := Lose(left, right);
      var temp1 := Win(left, right);
      PlayStart(f, L[..], b0, W, k, k1, p, temp1, B[p]);
      W := W[p := temp1];
      assert B[..] == b0[p := B[p]];
      while p > 1 && p % 2 == 1
        invariant f.Inner(p) && Climbing(f, L[..], B[..], W, k, k1, p) && Shaped(f, L[..], B[..], W)
        invariant temp1 == W[p]
        decreases p
      {
        ghost var b1 := B[..];
        PlayClimb(f, L[..], b1, W, k, k1, p);
        var temp2 := Win(temp1, B[p / 2]);
        B[p / 2] := Lose(temp1, B[p / 2]);
        PlayClimbed(f, L[..], b1, W, k, k1, p, temp2, B[p / 2]);
        assert B[..] == b1[p / 2 := B[p / 2]];
        W := W[p / 2 := temp2];
        temp1 := temp2;
        p := p / 2;
      }
      ghost var b2 := B[..];
      B[p / 2] := temp1;
      assert B[..] == b2[p / 2 := temp1];
      PlayEnd(f, L[..], b2, W, k, k1, p, p0);
    }

    /** Leaves 1..k have been played. */
    ghost predicate Building(k: int)
      reads this, B, L
    {
      Fields() && Shaped(f, L[..], B[..], W) && Played(f, L[..], B[..], W, k)
    }

    /** Lines 72-105: plays all leaves of A, whose entry 0 is unused. */
    method Initialize(A: array<Tuple>)
      requires A.Length >= 3
      modifies this
      ensures Valid() && L == A && fresh(B)
    {
      hide Played, Shaped, Settled;
      n, L := A.Length - 1, A;
      var s := LargestPower(n);
      lowExt := 2 * (n - s);
      offset := 2 * s - 1;
      f := Frame(n, s);
      B := new int[n];
      W := FirstWinners(f);
      EmptyBracket(f, L[..], B[..], W);
      PlayLow();
      var i := PlayMiddle();
      PlayHigh(i);
      PlayedAll(f, L[..], B[..], W);
    }

    /** Lines 91-93: the pairs on the lowest level. */
    method PlayLow()
      requires Building(0)
      modifies this`W, B
      ensures Building(lowExt)
    {
      hide Played, Next, Shaped, Frame.Wf, Frame.Offset, SameParity;
      var i := 2;
      LowParity(f);
      hide Frame.LowExt;
      while i <= lowExt
        invariant Building(i - 2) && 2 <= i <= lowExt + 2 && SameParity(i, lowExt)
      {
        LowPair(f, L[..], B[..], W, i);
        Play((i + offset) / 2, i - 1, i, i - 2, i);
        ParityUp(i, lowExt);
        i := i + 2;
      }
      ParityGap(i, lowExt);
    }

    /** Lines 96-101: for odd n, one leaf against the winner parked in its parent. */
    method PlayMiddle() returns (i: int)
      requires Building(lowExt)
      modifies this`W, B
      ensures Building(i - 2) && lowExt + 2 <= i <= n + 2 && SameParity(i, n)
    {
      hide Played, Next, Shaped, Frame.Wf, Frame.Offset, SameParity;
      MiddleParity(f);
      hide Frame.LowExt;
      if n % 2 == 1 {
        OddWinners(f, L[..], B[..], W);
        Play(n / 2, B[(n - 1) / 2], lowExt + 1, lowExt, lowExt + 1);
        i := lowExt + 3;
      } else {
        i := lowExt + 2;
      }
    }

    /** Lines 103-105: the pairs one level above. */
    method PlayHigh(i0: int)
      requires Building(i0 - 2) && lowExt + 2 <= i0 <= n + 2 && SameParity(i0, n)
      modifies this`W, B
      ensures Building(n)
    {
      hide Played, Next, Shaped, Frame.Wf, Frame.LowExt, Frame.Offset, SameParity;
      var i := i0;
      while i <= n
        invariant Building(i - 2) && lowExt + 2 <= i <= n + 2 && SameParity(i, n)
      {
        HighPair(f, L[..], B[..], W, i);
        Play((i - lowExt + n - 1) / 2, i - 1, i, i - 2, i);
        ParityUp(i, n);
        i := i + 2;
      }
      ParityGap(i, n);
    }

    /** The index of a least leaf. */
    method Winner() returns (i: int)
      requires Valid()
      ensures 1 <= i <= n && i == B[0]
      ensures forall j :: 1 <= j <= n ==> Compare(L[i], L[j])
    {
      WinnerIsLeast(f, L[..], B[..], W);
      i := B[0];
      assert forall j :: 1 <= j <= n ==> L[j] == L[..][j];
    }

    method Load(win: int, newOne: Tuple)
      requires Valid() && win == B[0]
      modifies L
      ensures 1 <= win <= n && L[..] == old(L[..])[win := newOne] && Loaded(win)
    {
      hide Settled, Replaying;
      WinnerIsLeast(f, L[..], B[..], W);
      ReplayStart(f, L[..], B[..], W, newOne);
      ghost var l0 := L[..];
      L[win] := newOne;
      assert L[..] == l0[win := newOne];
    }

    /** One game of Replay, at the parent p of c, between the winner so far and the loser stored there. */
    method Game(ghost c: int, p: int, left: int, right: int)
      requires Fields() && c > 1 && Replaying(f, L[..], B[..], W, c) && p == c / 2 && f.Inner(p)
      requires (left == B[0] && right == B[p]) || (left == B[p] && right == B[0])
      modifies this`W, B
      ensures Fields() && Replaying(f, L[..], B[..], W, p)
      ensures forall q :: 1 <= q < n && q != p ==> B[q] == old(B[q])
    {
      hide Replaying;
      ReplayOpponent(f, L[..], B[..], W, c);
      ghost var b0 := B[..];
      var win, lose := Win(left, right), Lose(left, right);
      B[0] := win;
      B[p] := lose;
      assert B[..] == b0[p := lose][0 := win];
      ReplayStep(f, L[..], b0, W, c, win, lose);
      W := W[p := win];
    }

    /** Restores the tournament by replaying the games on the path of leaf i. */
    method Replay(i: int)
      requires Loaded(i)
      modifies this`W, B
      ensures Valid()
      ensures forall q :: 1 <= q < n && !OnPath(q, f.NodeOf(i)) ==> B[q] == old(B[q])
    {
      hide Settled, OnPath, Replaying;
      ghost var e := f.NodeOf(i);
      f.LeavesFillPositions(i, 0);
      var p := if i <= lowExt then (i + offset) / 2 else (i - lowExt + n - 1) / 2;
      assert p == e / 2;
      PathTail(e, e);
      PathUp(e, e);
      Game(e, p, i, B[p]);
      hide Frame.NodeOf, Frame.LowExt, Frame.Offset;
      while p / 2 >= 1
        invariant Fields() && f.Inner(p) && Replaying(f, L[..], B[..], W, p) && OnPath(p, e)
        invariant forall q :: 1 <= q < n && !OnPath(q, e) ==> B[q] == old(B[q])
        decreases p
      {
        PathUp(p, e);
        Game(p, p / 2, B[p / 2], B[0]);
        p := p / 2;
      }
      ReplayEnd(f, L[..], B[..], W);
    }
  }

  /** Line 76: the largest power of two below n. */
  method LargestPower(n: nat) returns (s: nat)
    requires n >= 2
    ensures Pow2(s) && 1 <= s < n <= 2 * s
  {
    s := 1;
    while 2 * s <= n - 1
      invariant Pow2(s) && 1 <= s <= n - 1
    {
      s := s + s;
    }
  }

  ghost function FirstWinners(f: Frame): seq<int> {
    seq(2 * f.n, q => if q >= f.n then f.LeafAt(q) else 1)
  }

  lemma EmptyBracket(f: Frame, ks: seq<Tuple>, b: seq<int>, w: seq<int>)
    requires f.Wf() && |ks| == f.n + 1 && |b| == f.n && w == FirstWinners(f)
    ensures Shaped(f, ks, b, w) && Played(f, ks, b, w, 0)
  {
    forall q | f.Node(q)
      ensures 1 <= w[q] <= f.n
    {
      f.LeavesFillPositions(0, q);
    }
    PlayedNone(f, ks, b, w);
  }

  /** Leaves i - 1 and i are the winners below p, which is the next node to play. */
  ghost predicate PairAt(f: Frame, ks: seq<Tuple>, b: seq<int>, w: seq<int>, i: int, p: int) {
    Shaped(f, ks, b, w) && f.Inner(p) && Next(f, i - 2, i, p) && w[2 * p] == i - 1 && w[2 * p + 1] == i
  }

  lemma PairWinners(f: Frame, ks: seq<Tuple>, b: seq<int>, w: seq<int>, i: int)
    requires Shaped(f, ks, b, w) && 2 <= i <= f.n && f.NodeOf(i - 1) % 2 == 0 && f.NodeOf(i) == f.NodeOf(i - 1) + 1
    ensures PairAt(f, ks, b, w, i, f.NodeOf(i) / 2)
  {
    NextPair(f, i);
    f.LeavesFillPositions(i - 1, 0);
    f.LeavesFillPositions(i, 0);
  }

  ghost predicate SameParity(a: int, b: int) {
    a % 2 == b % 2
  }

  lemma ParityUp(a: int, b: int)
    ensures SameParity(a + 2, b) <==> SameParity(a, b)
  {
  }

  lemma LowParity(f: Frame)
    requires f.Wf()
    ensures SameParity(2, f.LowExt()) && f.LowExt() >= 0
  {
  }

  /** The first leaf above the lowest level that is the second of a pair. */
  lemma MiddleParity(f: Frame)
    requires f.Wf()
    ensures f.LowExt() <= f.n && (f.n % 2 == 1 ==> f.LowExt() < f.n)
    ensures SameParity(f.LowExt() + if f.n % 2 == 1 then 3 else 2, f.n)
  {
  }

  lemma ParityGap(a: int, b: int)
    requires SameParity(a, b)
    ensures a != b + 1
  {
  }

  lemma LowPair(f: Frame, ks: seq<Tuple>, b: seq<int>, w: seq<int>, i: int)
    requires Shaped(f, ks, b, w) && 2 <= i <= f.LowExt() && SameParity(i, f.LowExt())
    ensures PairAt(f, ks, b, w, i, (i + f.Offset()) / 2)
  {
    hide PairAt, Frame.NodeOf;
    f.LowParent(i);
    PairWinners(f, ks, b, w, i);
  }

  lemma HighPair(f: Frame, ks: seq<Tuple>, b: seq<int>, w: seq<int>, i: int)
    requires Shaped(f, ks, b, w) && f.LowExt() + 2 <= i <= f.n && SameParity(i, f.n)
    ensures PairAt(f, ks, b, w, i, (i - f.LowExt() + f.n - 1) / 2)
  {
    hide PairAt, Frame.NodeOf;
    f.HighParent(i);
    PairWinners(f, ks, b, w, i);
  }

  lemma OddWinners(f: Frame, ks: seq<Tuple>, b: seq<int>, w: seq<int>)
    requires f.Wf() && f.n % 2 == 1 && Shaped(f, ks, b, w) && Played(f, ks, b, w, f.LowExt())
    ensures b[(f.n - 1) / 2] == w[2 * (f.n / 2)] && w[2 * (f.n / 2) + 1] == f.LowExt() + 1
    ensures f.Inner(f.n / 2) && Next(f, f.LowExt(), f.LowExt() + 1, f.n / 2)
  {
    NextOdd(f);
  }

  lemma ReplayOpponent(f: Frame, ks: seq<Tuple>, b: seq<int>, w: seq<int>, p: int)
    requires Replaying(f, ks, b, w, p) && p > 1
    ensures f.Inner(p / 2) && 1 <= b[p / 2] <= f.n && 1 <= b[0] <= f.n && |w| == 2 * f.n
  {
    assert OnPath(p, p) && f.Node(Sibling(p));
  }
}
