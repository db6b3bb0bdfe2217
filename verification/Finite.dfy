/**
 Counting and summation over the index range 1..n that the matching code uses.
 */
module Finite {

  ghost function Upto(n: nat): (r: set<int>)
    ensures forall i :: i in r <==> 1 <= i <= n
  {
    if n == 0 then {} else Upto(n - 1) + {n}
  }

  lemma {:induction false} UptoSize(n: nat)
    ensures |Upto(n)| == n
  {
    if n > 0 {
      UptoSize(n - 1);
    }
  }

  lemma {:induction false} SubsetSize(a: set<int>, b: set<int>)
    requires a <= b
    ensures |a| <= |b|
    ensures |a| == |b| ==> a == b
  {
    assert b == a + (b - a);
    assert |b| == |a| + |b - a|;
  }

  ghost predicate Within(f: seq<int>, s: set<int>) {
    forall i :: i in s ==> 0 <= i < |f|
  }

  ghost predicate InjectiveOn(f: seq<int>, s: set<int>)
    requires Within(f, s)
  {
    forall i, j :: i in s && j in s && f[i] == f[j] ==> i == j
  }

  ghost function Image(f: seq<int>, s: set<int>): set<int>
    requires Within(f, s)
  {
    set i | i in s :: f[i]
  }

  lemma Pick<T>(s: set<T>) returns (i: T)
    requires s != {}
    ensures i in s
  {
    i :| i in s;
  }

  /** An injective map keeps the number of elements. */
  lemma {:induction false} ImageSize(f: seq<int>, s: set<int>)
    requires Within(f, s) && InjectiveOn(f, s)
    ensures |Image(f, s)| == |s|
    decreases s
  {
    if s == {} {
      assert Image(f, s) == {};
    } else {
      var i := Pick(s);
      var rest := s - {i};
      ImageSize(f, rest);
      assert Image(f, s) == Image(f, rest) + {f[i]};
      assert f[i] !in Image(f, rest);
    }
  }

  lemma {:induction false} ImageAtMost(f: seq<int>, s: set<int>)
    requires Within(f, s)
    ensures |Image(f, s)| <= |s|
    decreases s
  {
    if s == {} {
      assert Image(f, s) == {};
    } else {
      var i := Pick(s);
      ImageAtMost(f, s - {i});
      assert Image(f, s) == Image(f, s - {i}) + {f[i]};
    }
  }

  lemma ImageWithout(f: seq<int>, s: set<int>, i: int, j: int)
    requires Within(f, s) && i in s && j in s && i != j
    ensures f[i] == f[j] ==> Image(f, s) == Image(f, s - {i})
  {
  }

  /** A map with as many values as arguments takes no value twice. */
  lemma NoValueTwice(f: seq<int>, s: set<int>, i: int, j: int)
    requires Within(f, s) && i in s && j in s && i != j
    requires |s| <= |Image(f, s)|
    ensures f[i] != f[j]
  {
    ImageAtMost(f, s - {i});
    ImageWithout(f, s, i, j);
  }

  /** An injective map of 1..n into 1..n reaches every value. */
  lemma InjectiveIsOnto(f: seq<int>, n: nat)
    requires |f| == n + 1
    requires forall i :: 1 <= i <= n ==> 1 <= f[i] <= n
    requires InjectiveOn(f, Upto(n))
    ensures Image(f, Upto(n)) == Upto(n)
  {
    ImageSize(f, Upto(n));
    SubsetSize(Image(f, Upto(n)), Upto(n));
  }

  /** Sum of f over those of 1..n that lie in s. */
  ghost function MaskSum(s: set<int>, f: seq<int>, n: nat): int
    requires n < |f|
  {
    if n == 0 then 0 else MaskSum(s, f, n - 1) + if n in s then f[n] else 0
  }

  lemma {:induction false} MaskSumAdd(s: set<int>, f: seq<int>, n: nat, x: int)
    requires n < |f| && x !in s
    ensures MaskSum(s + {x}, f, n) == MaskSum(s, f, n) + if 1 <= x <= n then f[x] else 0
  {
    if n > 0 {
      MaskSumAdd(s, f, n - 1, x);
    }
  }

  /** Sum of f[p[i]] for i in 1..k. */
  ghost function SumVia(f: seq<int>, p: seq<int>, k: nat): int
    requires k < |p|
    requires forall i :: 1 <= i <= k ==> 0 <= p[i] < |f|
  {
    if k == 0 then 0 else SumVia(f, p, k - 1) + f[p[k]]
  }

  lemma {:induction false} SumViaIsMaskSum(f: seq<int>, p: seq<int>, k: nat, n: nat)
    requires |f| == n + 1 && k <= n < |p|
    requires forall i :: 1 <= i <= n ==> 1 <= p[i] <= n
    requires InjectiveOn(p, Upto(n))
    ensures SumVia(f, p, k) == MaskSum(Image(p, Upto(k)), f, n)
  {
    if k == 0 {
      assert Image(p, Upto(0)) == {};
      EmptyMask(f, n);
    } else {
      SumViaIsMaskSum(f, p, k - 1, n);
      assert Image(p, Upto(k)) == Image(p, Upto(k - 1)) + {p[k]};
      assert p[k] !in Image(p, Upto(k - 1)) by {
        assert forall i :: i in Upto(k - 1) ==> i in Upto(n) && k in Upto(n);
      }
      MaskSumAdd(Image(p, Upto(k - 1)), f, n, p[k]);
    }
  }

  lemma {:induction false} EmptyMask(f: seq<int>, n: nat)
    requires n < |f|
    ensures MaskSum({}, f, n) == 0
  {
    if n > 0 {
      EmptyMask(f, n - 1);
    }
  }

  /** Summing along any two permutations of 1..n gives the same total. */
  lemma PermutationSum(f: seq<int>, p: seq<int>, q: seq<int>, n: nat)
    requires |f| == |p| == |q| == n + 1
    requires forall i :: 1 <= i <= n ==> 1 <= p[i] <= n && 1 <= q[i] <= n
    requires InjectiveOn(p, Upto(n)) && InjectiveOn(q, Upto(n))
    ensures SumVia(f, p, n) == SumVia(f, q, n)
  {
    SumViaIsMaskSum(f, p, n, n);
    SumViaIsMaskSum(f, q, n, n);
    InjectiveIsOnto(p, n);
    InjectiveIsOnto(q, n);
  }
}
