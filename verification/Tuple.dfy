/**
 Tuples, blocks of tuples and lists of blocks, as the exchange, the merge and the
 range sort pass them on.
 */
module Tuples {

  /** A stored tuple; the merge order is on the unsigned long at byte 8. */
  datatype Tuple = Tuple(key: nat, payload: int)

  /** A block as its tuples; the empty block is the end marker. */
  type Block = seq<Tuple>

  lemma PrefixStep<T>(s: seq<T>, i: nat)
    requires i < |s|
    ensures s[..i + 1] == s[..i] + [s[i]] && |s[..i]| == i
  {
  }

  lemma PrefixEnds<T>(s: seq<T>)
    ensures s[..0] == [] && s[..|s|] == s
  {
  }

  ghost predicate Sorted(s: seq<Tuple>) {
    forall i, j :: 0 <= i < j < |s| ==> s[i].key <= s[j].key
  }

  ghost function Flatten(bs: seq<Block>): seq<Tuple> {
    if bs == [] then [] else bs[0] + Flatten(bs[1..])
  }

  lemma {:induction false} FlattenAppend(bs: seq<Block>, b: Block)
    ensures Flatten(bs + [b]) == Flatten(bs) + b
  {
    if bs != [] {
      FlattenAppend(bs[1..], b);
      assert (bs + [b])[1..] == bs[1..] + [b];
    }
  }

  /** A list of blocks whose last entry, and no other, is the end marker. */
  ghost predicate Closes(bs: seq<Block>) {
    bs != [] && bs[|bs| - 1] == [] && forall k :: 0 <= k < |bs| - 1 ==> bs[k] != []
  }

  /** All tuples of all columns. */
  ghost function Bag(ps: seq<seq<Tuple>>): multiset<Tuple> {
    if ps == [] then multiset{} else multiset(ps[0]) + Bag(ps[1..])
  }

  lemma AddBoth(x: multiset<Tuple>, a: multiset<Tuple>, b: multiset<Tuple>, c: multiset<Tuple>, d: multiset<Tuple>)
    requires a + b == c + d
    ensures (x + a) + b == (x + c) + d
  {
    forall t
      ensures ((x + a) + b)[t] == ((x + c) + d)[t]
    {
      assert (a + b)[t] == (c + d)[t];
    }
  }

  lemma {:induction false} BagUpdate(ps: seq<seq<Tuple>>, i: int, p: seq<Tuple>)
    requires 0 <= i < |ps|
    ensures Bag(ps[i := p]) + multiset(ps[i]) == Bag(ps) + multiset(p)
  {
    if i == 0 {
      assert ps[i := p][1..] == ps[1..];
    } else {
      var rest, x, y := ps[1..], multiset(ps[0]), Bag(ps[1..][i - 1 := p]);
      BagUpdate(rest, i - 1, p);
      assert ps[i := p][1..] == rest[i - 1 := p] && ps[i := p][0] == ps[0];
      assert Bag(ps[i := p]) == x + y && Bag(ps) == x + Bag(rest);
      AddBoth(x, y, multiset(ps[i]), Bag(rest), multiset(p));
    }
  }

  lemma {:induction false} EmptyBag(ps: seq<seq<Tuple>>)
    requires forall i :: 0 <= i < |ps| ==> ps[i] == []
    ensures Bag(ps) == multiset{}
  {
    if ps != [] {
      EmptyBag(ps[1..]);
    }
  }

  lemma {:induction false} BagAppend(ps: seq<seq<Tuple>>, p: seq<Tuple>)
    ensures Bag(ps + [p]) == Bag(ps) + multiset(p)
  {
    if ps != [] {
      BagAppend(ps[1..], p);
      assert (ps + [p])[1..] == ps[1..] + [p];
    }
  }

  lemma {:induction false} SameBags(a: seq<seq<Tuple>>, b: seq<seq<Tuple>>)
    requires |a| == |b| && forall c :: 0 <= c < |a| ==> multiset(a[c]) == multiset(b[c])
    ensures Bag(a) == Bag(b)
  {
    if a != [] {
      SameBags(a[1..], b[1..]);
    }
  }

  lemma BagShift(a: multiset<Tuple>, b: multiset<Tuple>, q: multiset<Tuple>, o: multiset<Tuple>, h: Tuple)
    requires a + (multiset{h} + q) == b + q
    ensures (o + multiset{h}) + a == o + b
  {
    forall t
      ensures ((o + multiset{h}) + a)[t] == (o + b)[t]
    {
      assert (a + (multiset{h} + q))[t] == (b + q)[t];
    }
  }

  lemma BagCancel(a: multiset<Tuple>, b: multiset<Tuple>, m: multiset<Tuple>, d: multiset<Tuple>)
    requires a + m == b + (m + d)
    ensures a == b + d
  {
    forall t
      ensures a[t] == (b + d)[t]
    {
      assert (a + m)[t] == (b + (m + d))[t];
    }
  }
}
