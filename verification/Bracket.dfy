/**
 The shape of the loser tree over n leaves: internal nodes 1..n-1, leaf positions
 n..2n-1, and where leaf i sits (src/common/m_trees.cpp:70-105). Leaves are
 numbered from left to right, so every node covers an interval of leaves.
 */
module Bracket {

  ghost predicate Pow2(m: int) {
    m == 1 || (m >= 2 && m % 2 == 0 && Pow2(m / 2))
  }

  /** Two siblings: the right one is odd and one above the left one. */
  lemma OddIsRight(j: int, k: int)
    requires j == 2 * k + 1
    ensures j % 2 == 1 && (j - 1) % 2 == 0 && j / 2 == k
  {
  }

  lemma HalfGap(i: int, n: int) returns (k: int)
    requires i % 2 == n % 2
    ensures i - n == 2 * k
  {
    k := i / 2 - n / 2;
  }

  /** n leaves; s is the largest power of two below n. */
  datatype Frame = Frame(n: nat, s: nat) {
    ghost predicate Wf() {
      Pow2(s) && 1 <= s < n <= 2 * s
    }

    function LowExt(): int {
      2 * (n - s)
    }

    function Offset(): int {
      2 * s - 1
    }

    function NodeOf(i: int): int {
      if i <= LowExt() then i + Offset() else i - LowExt() + n - 1
    }

    function LeafAt(e: int): int {
      if e >= 2 * s then e - Offset() else e - n + 1 + LowExt()
    }

    ghost predicate Node(q: int) {
      1 <= q < 2 * n
    }

    ghost predicate Inner(q: int) {
      1 <= q < n
    }

    /** First leaf below q. */
    ghost function Lo(q: int): int
      requires Wf() && Node(q)
      decreases 2 * n - q
    {
      if q >= n then LeafAt(q) else Lo(2 * q)
    }

    /** Last leaf below q. */
    ghost function Hi(q: int): int
      requires Wf() && Node(q)
      decreases 2 * n - q
    {
      if q >= n then LeafAt(q) else Hi(2 * q + 1)
    }

    /** Leaves 1..n fill the positions n..2n-1 one to one. */
    lemma LeavesFillPositions(i: int, e: int)
      requires Wf()
      ensures 1 <= i <= n ==> n <= NodeOf(i) < 2 * n && LeafAt(NodeOf(i)) == i
      ensures n <= e < 2 * n ==> 1 <= LeafAt(e) <= n && NodeOf(LeafAt(e)) == e
    {
    }

    /** The two places where a pair of sibling leaves sits, as the code computes their parent. */
    lemma LowParent(i: int)
      requires Wf() && 2 <= i <= LowExt() && i % 2 == 0
      ensures NodeOf(i - 1) % 2 == 0 && NodeOf(i) == NodeOf(i - 1) + 1 && (i + Offset()) / 2 == NodeOf(i) / 2
    {
      hide Pow2;
      OddIsRight(i + Offset(), i / 2 + s - 1);
    }

    lemma HighParent(i: int)
      requires Wf() && LowExt() + 2 <= i <= n && i % 2 == n % 2
      ensures NodeOf(i - 1) % 2 == 0 && NodeOf(i) == NodeOf(i - 1) + 1
      ensures (i - LowExt() + n - 1) / 2 == NodeOf(i) / 2
    {
      hide Pow2;
      var k := HalfGap(i, n);
      OddIsRight(i - LowExt() + n - 1, k + s - 1);
    }

    /** Neighbours on one level cover neighbouring leaf intervals. */
    lemma {:induction false} Adjacent(q: int)
      requires Wf() && Node(q) && Node(q + 1) && !Pow2(q + 1)
      ensures Hi(q) + 1 == Lo(q + 1)
      decreases 2 * n - q
    {
      assert Pow2(2 * s);
      if q + 1 < n {
        assert Pow2(2 * q + 2) ==> Pow2(q + 1);
        Adjacent(2 * q + 1);
      }
    }

    lemma {:induction false} Interval(q: int)
      requires Wf() && Node(q)
      ensures 1 <= Lo(q) <= Hi(q) <= n
      ensures Inner(q) ==> Lo(q) == Lo(2 * q) && Hi(2 * q) + 1 == Lo(2 * q + 1) && Hi(2 * q + 1) == Hi(q)
      decreases 2 * n - q
    {
      if q < n {
        Adjacent(2 * q);
        Interval(2 * q);
        Interval(2 * q + 1);
      }
    }

    /** Nodes with the same last leaf form one chain of right children. */
    lemma {:induction false} Chain(p: int, q: int)
      requires Wf() && Node(p) && Node(q) && q < p && Hi(p) == Hi(q)
      ensures p % 2 == 1 && Hi(p / 2) == Hi(p) && q <= p / 2
      decreases 4 * n - p - q
    {
      hide Pow2;
      if q >= n {
        LeavesFillPositions(0, p);
        LeavesFillPositions(0, q);
      } else if 2 * q + 1 < p {
        Chain(p, 2 * q + 1);
      } else if 2 * q + 1 > p {
        Chain(2 * q + 1, p);
      }
    }
  }

  /** q is p or one of its ancestors. */
  ghost predicate OnPath(q: int, p: int)
    requires q >= 1 && p >= 1
  {
    q == p || (p > 1 && OnPath(q, p / 2))
  }

  lemma {:induction false} PathBelow(q: int, p: int)
    requires q >= 1 && p >= 1 && OnPath(q, p)
    ensures q == p || 2 * q <= p
  {
    if q != p {
      PathBelow(q, p / 2);
    }
  }

  lemma {:induction false} PathUp(q: int, p: int)
    requires q > 1 && p >= 1 && OnPath(q, p)
    ensures OnPath(q / 2, p)
  {
    if q != p {
      PathUp(q, p / 2);
    }
  }

  lemma PathTail(q: int, p: int)
    requires q >= 1 && p > 1
    ensures OnPath(q, p) <==> q == p || OnPath(q, p / 2)
  {
  }

  lemma OffPathChildren(r: int, q: int)
    requires r >= 1 && q >= 1 && !OnPath(r, q)
    ensures r != q && 2 * r != q && 2 * r + 1 != q
  {
  }

  function Sibling(q: int): int {
    if q % 2 == 0 then q + 1 else q - 1
  }

  /** Only one of two siblings can lie on a path to the root. */
  lemma {:induction false} SiblingOffPath(q: int, p: int)
    requires q > 1 && p >= 1 && OnPath(q, p)
    ensures !OnPath(Sibling(q), p)
    decreases p
  {
    if q != p {
      SiblingOffPath(q, p / 2);
      PathBelow(q, p);
    } else if OnPath(Sibling(q), p) {
      PathBelow(Sibling(q), p);
    }
  }
}
