/**
 Range routing between the two sides of an exchange: the lower side picks a
 column for a key (src/physical/m_shuffle_lower1.cpp), the upper side a bucket
 (src/physical/m_sort.cpp).
 */
module Routing {
  import opened Options
  import opened Tuples

  const DATAVOLUME: nat := 50000000
  const CPU_CORE: nat := 4

  /** bounds[i] is the first bound above key. */
  ghost predicate FirstAbove(key: nat, bounds: seq<int>, i: int) {
    0 <= i < |bounds| && key < bounds[i] && forall j :: 0 <= j < i ==> bounds[j] <= key
  }

  ghost predicate HasRange(key: nat, bounds: seq<int>) {
    exists i: nat :: FirstAbove(key, bounds, i)
  }

  /** `ShuffleLower1::partition` and `Sort::compare_start_end`; None where the program falls off its loop. */
  method Partition(key: nat, bounds: seq<int>) returns (ret: Option<nat>)
    ensures ret.Some? ==> FirstAbove(key, bounds, ret.value)
    ensures ret.None? ==> forall i :: 0 <= i < |bounds| ==> bounds[i] <= key
    ensures ret.Some? <==> HasRange(key, bounds)
  {
    for i := 0 to |bounds|
      invariant forall j :: 0 <= j < i ==> bounds[j] <= key
    {
      if key < bounds[i] {
        assert FirstAbove(key, bounds, i);
        return Some(i);
      }
    }
    ret := None;
  }

  /** Bucket b holds only keys whose first bound above is number b. */
  ghost predicate Dealt(ranges: seq<seq<Tuple>>, bounds: seq<int>) {
    |ranges| == |bounds| &&
    forall b, k :: 0 <= b < |ranges| && 0 <= k < |ranges[b]| ==> FirstAbove(ranges[b][k].key, bounds, b)
  }

  lemma DealOne(ranges: seq<seq<Tuple>>, bounds: seq<int>, r: nat, t: Tuple)
    requires Dealt(ranges, bounds) && FirstAbove(t.key, bounds, r)
    ensures Dealt(ranges[r := ranges[r] + [t]], bounds)
    ensures Bag(ranges[r := ranges[r] + [t]]) == Bag(ranges) + multiset{t}
  {
    var grown := ranges[r] + [t];
    BagUpdate(ranges, r, grown);
    assert multiset(grown) == multiset(ranges[r]) + multiset{t};
    BagCancel(Bag(ranges[r := grown]), Bag(ranges), multiset(ranges[r]), multiset{t});
  }

  /** ranges_2_: the bounds of the lower side. */
  function LowerBounds(volume: nat, core: nat): seq<int>
    requires core >= 1
  {
    seq(core, i => (i + 1) * volume / core)
  }

  /** dist_ranges_: the bounds of an upper whose place in the list of n lowers is th. */
  function UpperBounds(volume: nat, core: nat, n: nat, th: nat): seq<int>
    requires core >= 1 && n >= 1
  {
    seq(core, i => th * volume / n + (i + 1) * volume / (n * core))
  }

  lemma MulStep(x: int, y: int, b: int)
    requires b >= 0
    ensures x < y ==> (x + 1) * b <= y * b
    ensures x <= y ==> x * b <= y * b
  {
  }

  lemma DivBetween(a: int, b: int, q: int)
    requires b > 0
    ensures a / b == q <==> q * b <= a < (q + 1) * b
  {
    assert a == (a / b) * b + a % b;
    MulStep(q, a / b, b);
    MulStep(a / b, q, b);
  }

  lemma DivCancel(k: nat, a: nat, b: nat)
    requires k >= 1 && b >= 1
    ensures k * b >= 1 && (k * a) / (k * b) == a / b
  {
    var q := a / b;
    DivBetween(a, b, q);
    assert k * b >= b;
    assert q * (k * b) == k * (q * b);
    assert (q + 1) * (k * b) == k * ((q + 1) * b);
    DivBetween(k * a, k * b, q);
  }

  lemma DivMonotone(a: int, a': int, b: int)
    requires b > 0 && a <= a'
    ensures a / b <= a' / b
  {
    DivBetween(a, b, a / b);
    DivBetween(a', b, a' / b);
    MulStep(a' / b, a / b, b);
  }

  /** Where the range of column c begins when m columns share the volume. */
  ghost function Cut(volume: nat, m: nat, c: nat): nat
    requires m >= 1
  {
    c * volume / m
  }

  ghost predicate InColumn(volume: nat, m: nat, key: nat, c: nat)
    requires m >= 1
  {
    c < m && Cut(volume, m, c) <= key < Cut(volume, m, c + 1)
  }

  lemma CutMonotone(volume: nat, m: nat, c: nat, c': nat)
    requires m >= 1 && c <= c'
    ensures Cut(volume, m, c) <= Cut(volume, m, c')
  {
    assert c * volume <= c' * volume;
    DivMonotone(c * volume, c' * volume, m);
  }

  /** The column of a key, counted out: the keys up to and including it fill column c when the volume has m columns. */
  lemma ColumnOfKey(volume: nat, m: nat, key: nat, c: nat)
    requires m >= 1 && key < volume
    ensures InColumn(volume, m, key, c) <==> c == ((key + 1) * m - 1) / volume
  {
    var x := (key + 1) * m;
    var a, b := Cut(volume, m, c), Cut(volume, m, c + 1);
    DivBetween(c * volume, m, a);
    DivBetween((c + 1) * volume, m, b);
    BelowCut(c * volume, m, a, key);
    BelowCut((c + 1) * volume, m, b, key);
    DivBetween(x - 1, volume, c);
    if c >= m {
      MulStep(m, c, volume);
      assert x <= volume * m by {
        MulStep(key + 1, volume, m);
      }
    }
  }

  /** A quotient is at most key exactly when the dividend is below (key + 1) divisors. */
  lemma BelowCut(x: int, m: int, a: int, key: int)
    requires m >= 1 && a * m <= x < (a + 1) * m
    ensures a <= key <==> x < (key + 1) * m
  {
    if a <= key {
      MulStep(a + 1, key + 1, m);
    } else {
      MulStep(key + 1, a, m);
    }
  }

  lemma CutEnds(volume: nat, m: nat)
    requires m >= 1
    ensures Cut(volume, m, 0) == 0 && Cut(volume, m, m) == volume
  {
    DivBetween(m * volume, m, volume);
  }

  /** Each of the m columns takes mul of the core ranges. */
  ghost predicate Shares(core: nat, m: nat, mul: nat) {
    mul >= 1 && m >= 1 && core >= 1 && core == mul * m
  }

  /** With core == mul * m, every mul-th bound of the lower side is a column boundary. */
  lemma BoundaryOfColumn(volume: nat, core: nat, m: nat, mul: nat, c: nat)
    requires mul >= 1 && m >= 1 && core == mul * m && core >= 1
    ensures Cut(volume, core, c * mul) == Cut(volume, m, c)
  {
    DivCancel(mul, c * volume, m);
    assert mul * (c * volume) == c * mul * volume;
  }

  /** A key of range r lies between two boundaries around it. */
  lemma RangeBetween(volume: nat, core: nat, key: nat, r: nat, lo: nat, hi: nat)
    requires core >= 1 && lo <= r < hi && FirstAbove(key, LowerBounds(volume, core), r)
    ensures Cut(volume, core, lo) <= key < Cut(volume, core, hi)
  {
    assert |LowerBounds(volume, core)| == core;
    CutEnds(volume, core);
    hide Cut, LowerBounds;
    LowerBoundIsCut(volume, core, r);
    CutMonotone(volume, core, r + 1, hi);
    if lo > 0 {
      LowerBoundIsCut(volume, core, lo - 1);
    }
  }

  /** partition followed by the division by mul selects the one column whose range holds the key. */
  lemma RoutesToColumn(volume: nat, core: nat, m: nat, mul: nat, key: nat, r: nat)
    requires mul >= 1 && m >= 1 && core == mul * m && core >= 1
    requires FirstAbove(key, LowerBounds(volume, core), r)
    ensures InColumn(volume, m, key, r / mul)
    ensures forall c: nat :: InColumn(volume, m, key, c) ==> c == r / mul
  {
    assert |LowerBounds(volume, core)| == core;
    var c := r / mul;
    ColumnOfRange(r, m, mul);
    BoundaryOfColumn(volume, core, m, mul, c + 1);
    BoundaryOfColumn(volume, core, m, mul, c);
    hide Cut, LowerBounds, FirstAbove;
    RangeBetween(volume, core, key, r, c * mul, (c + 1) * mul);
    assert InColumn(volume, m, key, c);
    hide InColumn;
    forall c': nat | InColumn(volume, m, key, c')
      ensures c' == c
    {
      OneColumn(volume, m, key, c, c');
    }
  }

  lemma ColumnOfRange(r: nat, m: nat, mul: nat)
    requires mul >= 1 && r < mul * m
    ensures r / mul < m && (r / mul) * mul <= r < (r / mul + 1) * mul
  {
    DivBetween(r, mul, r / mul);
    MulStep(m, r / mul, mul);
  }

  /**
   With more columns than ranges mul = core / m is zero and the program divides by
   it. Otherwise dividing a range number by mul stays inside the m columns exactly
   when m divides core; if it does not, the last range is put into a column that
   does not exist.
   */
  lemma ColumnsExist(core: nat, m: nat)
    requires m >= 1
    ensures core / m == 0 <==> m > core
    ensures m <= core ==> ((forall r: nat :: r < core ==> r / (core / m) < m) <==> core % m == 0)
    ensures m <= core && core % m != 0 ==> (core - 1) / (core / m) >= m
  {
    DivBetween(core, m, 0);
    if m <= core {
      var mul := core / m;
      assert core == mul * m + core % m;
      if core % m == 0 {
        forall r: nat | r < core
          ensures r / mul < m
        {
          ColumnOfRange(r, m, mul);
        }
      } else {
        RangePastColumns(core, m, mul);
      }
    }
  }

  lemma RangePastColumns(core: nat, m: nat, mul: nat)
    requires mul >= 1 && core > mul * m
    ensures (core - 1) / mul >= m
  {
    assert m * mul == mul * m;
    DivBetween(m * mul, mul, m);
    DivMonotone(m * mul, core - 1, mul);
  }

  lemma LowerBoundIsCut(volume: nat, core: nat, i: nat)
    requires i < core
    ensures LowerBounds(volume, core)[i] == Cut(volume, core, i + 1)
  {
  }

  lemma OneColumn(volume: nat, m: nat, key: nat, c: nat, c': nat)
    requires m >= 1 && InColumn(volume, m, key, c) && InColumn(volume, m, key, c')
    ensures c == c'
  {
    if c < c' {
      CutMonotone(volume, m, c + 1, c');
    } else if c' < c {
      CutMonotone(volume, m, c' + 1, c);
    }
  }

  /** Every key below the volume is routed. */
  lemma EveryKeyRouted(volume: nat, core: nat, key: nat)
    requires core >= 1
    ensures key < volume <==> HasRange(key, LowerBounds(volume, core))
  {
    var bounds := LowerBounds(volume, core);
    CutEnds(volume, core);
    LowerBoundIsCut(volume, core, core - 1);
    if key < volume {
      var r := FirstBound(key, bounds);
    } else {
      forall i | 0 <= i < core
        ensures bounds[i] <= key
      {
        LowerBoundIsCut(volume, core, i);
        CutMonotone(volume, core, i + 1, core);
      }
    }
  }

  lemma FirstBound(key: nat, bounds: seq<int>) returns (r: nat)
    requires |bounds| >= 1 && key < bounds[|bounds| - 1]
    ensures FirstAbove(key, bounds, r)
  {
    r := 0;
    while bounds[r] <= key
      invariant 0 <= r < |bounds| && forall j :: 0 <= j < r ==> bounds[j] <= key
      decreases |bounds| - r
    {
      r := r + 1;
    }
  }

  // ----- The bucket on the upper side -----

  /** Where an upper stands in the list of lowers: its first entry there, or 0 if it has none. */
  ghost predicate IsPlace(ip: string, hosts: seq<string>, th: nat) {
    if ip in hosts then th < |hosts| && hosts[th] == ip && ip !in hosts[..th] else th == 0
  }

  method FindPlace(ip: string, hosts: seq<string>) returns (th: nat)
    ensures IsPlace(ip, hosts, th)
  {
    th := 0;
    for i := 0 to |hosts|
      invariant th == 0 && ip !in hosts[..i]
    {
      if ip == hosts[i] {
        th := i;
        return;
      }
    }
  }

  ghost predicate HasBucket(volume: nat, core: nat, n: nat, th: nat, key: nat)
    requires core >= 1 && n >= 1
  {
    HasRange(key, UpperBounds(volume, core, n, th))
  }

  /** The bounds at place th rise to the last one. */
  lemma UpperBoundAt(volume: nat, core: nat, n: nat, th: nat, i: nat)
    requires core >= 1 && n >= 1 && i < core
    ensures UpperBounds(volume, core, n, th)[i] <= Cut(volume, n, th) + volume / n
    ensures i == core - 1 ==> UpperBounds(volume, core, n, th)[i] == Cut(volume, n, th) + volume / n
  {
    var scale := n * core;
    assert scale == core * n >= 1 && core * volume / scale == volume / n by {
      DivCancel(core, volume, n);
    }
    assert (i + 1) * volume / scale <= core * volume / scale by {
      MulStep(i + 1, core, volume);
      DivMonotone((i + 1) * volume, core * volume, scale);
    }
  }

  /** Neighbouring bounds at place th are a share of the volume apart, which differs by at most one between them. */
  lemma BoundsAreEven(volume: nat, core: nat, n: nat, th: nat, i: nat)
    requires core >= 1 && n >= 1 && i < core
    ensures n * core >= 1
    ensures var bounds, share := UpperBounds(volume, core, n, th), volume / (n * core);
            share <= bounds[i] - (if i == 0 then Cut(volume, n, th) else bounds[i - 1]) <= share + 1
  {
    var scale := n * core;
    assert scale >= 1;
    QuotientStep(volume, scale, i);
    DivBetween(0 * volume, scale, 0);
  }

  lemma QuotientStep(volume: nat, scale: nat, i: nat)
    requires scale >= 1
    ensures volume / scale <= (i + 1) * volume / scale - i * volume / scale <= volume / scale + 1
  {
    var q, a, b := volume / scale, i * volume / scale, (i + 1) * volume / scale;
    DivBetween(volume, scale, q);
    DivBetween(i * volume, scale, a);
    DivBetween((i + 1) * volume, scale, b);
    assert (i + 1) * volume == i * volume + volume;
    assert (a + q) * scale == a * scale + q * scale && (a + q + 2) * scale == (a + 1) * scale + (q + 1) * scale;
    assert (b + 1) * scale > (a + q) * scale && b * scale < (a + q + 2) * scale;
    MulStep(b + 1, a + q, scale);
    MulStep(a + q + 2, b, scale);
  }

  /**
   When the shares are even, a key of place th is dealt to the bucket whose share of
   the volume holds it: its number among all shares, counted from the first of th.
   */
  lemma EvenBucket(volume: nat, core: nat, n: nat, th: nat, key: nat, share: nat, b: nat)
    requires core >= 1 && n >= 1 && share >= 1 && volume == share * (n * core)
    requires key >= Cut(volume, n, th) && b < core
    ensures FirstAbove(key, UpperBounds(volume, core, n, th), b) <==> key / share == th * core + b
  {
    var bounds := UpperBounds(volume, core, n, th);
    var first := th * core;
    EvenStart(volume, core, n, th, share);
    forall i: nat | i < core
      ensures bounds[i] == (first + i + 1) * share
    {
      EvenBound(volume, core, n, th, share, i);
    }
    hide UpperBounds, Cut;
    DivBetween(key, share, first + b);
    forall i: nat | i < b
      ensures bounds[i] <= (first + b) * share
    {
      MulStep(first + i + 1, first + b, share);
    }
    if b > 0 {
      assert bounds[b - 1] == (first + b) * share;
    }
  }

  lemma EvenStart(volume: nat, core: nat, n: nat, th: nat, share: nat)
    requires core >= 1 && n >= 1 && volume == share * (n * core)
    ensures Cut(volume, n, th) == th * core * share
  {
    assert th * volume == (th * core * share) * n;
    DivBetween(th * volume, n, th * core * share);
  }

  lemma EvenBound(volume: nat, core: nat, n: nat, th: nat, share: nat, i: nat)
    requires core >= 1 && n >= 1 && i < core && volume == share * (n * core)
    ensures UpperBounds(volume, core, n, th)[i] == (th * core + i + 1) * share
  {
    EvenStart(volume, core, n, th, share);
    var scale := n * core;
    assert scale >= 1;
    assert (i + 1) * volume == ((i + 1) * share) * scale;
    DivBetween((i + 1) * volume, scale, (i + 1) * share);
    assert (th * core + i + 1) * share == th * core * share + (i + 1) * share;
  }

  /** A key has a bucket at place th among n lowers exactly below the last bound there. */
  lemma BucketIffBelow(volume: nat, core: nat, n: nat, th: nat, key: nat)
    requires core >= 1 && n >= 1
    ensures HasBucket(volume, core, n, th, key) <==> key < Cut(volume, n, th) + volume / n
  {
    var bounds := UpperBounds(volume, core, n, th);
    assert |bounds| == core;
    var last := Cut(volume, n, th) + volume / n;
    forall i: nat | i < core
      ensures bounds[i] <= last && (i == core - 1 ==> bounds[i] == last)
    {
      UpperBoundAt(volume, core, n, th, i);
    }
    hide UpperBounds, Cut;
    if key < last {
      var r := FirstBound(key, bounds);
    }
  }

  /** The range of column c of m ends below the last bound at place th among n lowers, or is empty. */
  ghost predicate Covers(volume: nat, m: nat, c: nat, n: nat, th: nat)
    requires m >= 1 && n >= 1
  {
    Cut(volume, m, c) == Cut(volume, m, c + 1) || Cut(volume, m, c + 1) <= Cut(volume, n, th) + volume / n
  }

  /**
   All keys of column c of m have a bucket at the upper that stands at place th among
   n lowers exactly when the last bound there covers the column.
   */
  lemma ColumnHasBuckets(volume: nat, core: nat, m: nat, c: nat, n: nat, th: nat)
    requires core >= 1 && m >= 1 && n >= 1 && c < m
    ensures (forall key: nat :: InColumn(volume, m, key, c) ==> HasBucket(volume, core, n, th, key)) <==>
            Covers(volume, m, c, n, th)
  {
    CutMonotone(volume, m, c, c + 1);
    hide Cut, HasBucket;
    if Covers(volume, m, c, n, th) {
      forall key: nat | InColumn(volume, m, key, c)
        ensures HasBucket(volume, core, n, th, key)
      {
        BucketIffBelow(volume, core, n, th, key);
      }
    } else {
      var key := Cut(volume, m, c + 1) - 1;
      assert InColumn(volume, m, key, c);
      BucketIffBelow(volume, core, n, th, key);
    }
  }

  /**
   When the uppers are the first m of n lowers, every routed key finds a bucket
   exactly when they are all of them and the volume divides evenly among them.
   */
  lemma BucketsAgree(volume: nat, core: nat, m: nat, n: nat)
    requires core >= 1 && 1 <= m <= n && volume >= 1
    ensures (forall key: nat, c: nat :: InColumn(volume, m, key, c) ==> HasBucket(volume, core, n, c, key)) <==>
            n == m && volume % m == 0
  {
    hide HasBucket, Cut;
    if n == m && volume % m == 0 {
      forall key: nat, c: nat | InColumn(volume, m, key, c)
        ensures HasBucket(volume, core, n, c, key)
      {
        EvenCut(volume, m, c);
        EvenCut(volume, m, c + 1);
        BucketIffBelow(volume, core, n, c, key);
      }
    } else {
      LastKeyMissed(volume, core, m, n);
    }
  }

  lemma EvenCut(volume: nat, m: nat, c: nat)
    requires m >= 1 && volume % m == 0
    ensures Cut(volume, m, c) == c * (volume / m) && Cut(volume, m, c + 1) == Cut(volume, m, c) + volume / m
  {
    var part := volume / m;
    assert volume == part * m;
    assert c * volume == (c * part) * m;
    DivBetween(c * volume, m, c * part);
    assert (c + 1) * volume == (c * part + part) * m;
    DivBetween((c + 1) * volume, m, c * part + part);
  }

  /** The last bound at place c among n lowers is at most (c + 1) / n of the volume. */
  lemma LastBoundAtMost(volume: nat, n: nat, c: nat)
    requires n >= 1
    ensures (Cut(volume, n, c) + volume / n) * n <= (c + 1) * volume
  {
    var a, b := Cut(volume, n, c), volume / n;
    DivBetween(c * volume, n, a);
    DivBetween(volume, n, b);
    assert (a + b) * n == a * n + b * n;
    assert (c + 1) * volume == c * volume + volume;
  }

  /** Otherwise the last key of the volume falls past the last bucket of the last upper. */
  lemma LastKeyMissed(volume: nat, core: nat, m: nat, n: nat)
    requires core >= 1 && 1 <= m <= n && volume >= 1 && (n != m || volume % m != 0)
    ensures InColumn(volume, m, volume - 1, m - 1) && !HasBucket(volume, core, n, m - 1, volume - 1)
  {
    var last := Cut(volume, n, m - 1) + volume / n;
    LastColumn(volume, m);
    BucketIffBelow(volume, core, n, m - 1, volume - 1);
    LastBoundAtMost(volume, n, m - 1);
    hide Cut, HasBucket;
    if last >= volume {
      MulStep(volume, last, n);
      assert volume * n <= m * volume;
      if n > m {
        MulStep(m, n, volume);
        assert false;
      } else {
        EvenLast(volume, m, last);
        assert false;
      }
    }
  }

  /** The last of m columns ends at the volume and is not empty. */
  lemma LastColumn(volume: nat, m: nat)
    requires m >= 1 && volume >= 1
    ensures InColumn(volume, m, volume - 1, m - 1)
  {
    CutEnds(volume, m);
    var a := Cut(volume, m, m - 1);
    DivBetween((m - 1) * volume, m, a);
    assert (m - 1) * volume == m * volume - volume;
    if a >= volume {
      MulStep(volume, a, m);
      assert false;
    }
  }

  /** When m parts of a volume reach its end, m divides it. */
  lemma EvenLast(volume: nat, m: nat, last: int)
    requires m >= 1 && last == Cut(volume, m, m - 1) + volume / m && last >= volume
    ensures volume % m == 0
  {
    var a, b := Cut(volume, m, m - 1), volume / m;
    DivBetween((m - 1) * volume, m, a);
    assert volume == b * m + volume % m;
    assert (m - 1) * volume == m * volume - volume;
    MulStep(volume, a + b, m);
    assert (a + b) * m == a * m + b * m;
  }

  lemma ConfiguredVolumeIsEven(m: nat, mul: nat)
    requires mul >= 1 && m >= 1 && CPU_CORE == mul * m
    ensures DATAVOLUME % m == 0
  {
    MulStep(1, mul, m);
    assert m <= 4 && (m == 3 ==> mul * 3 == 4);
  }

  /**
   With the configured volume and cores, every routed key has a bucket when there are
   as many lowers as uppers, in the same order, and their number divides the cores.
   */
  lemma ConfiguredBucketsAgree(m: nat, mul: nat, key: nat, r: nat)
    requires mul >= 1 && m >= 1 && CPU_CORE == mul * m
    requires FirstAbove(key, LowerBounds(DATAVOLUME, CPU_CORE), r)
    ensures InColumn(DATAVOLUME, m, key, r / mul) && HasBucket(DATAVOLUME, CPU_CORE, m, r / mul, key)
  {
    ConfiguredVolumeIsEven(m, mul);
    RoutesToColumn(DATAVOLUME, CPU_CORE, m, mul, key, r);
    BucketsAgree(DATAVOLUME, CPU_CORE, m, m);
  }

  /** With eight lowers and the first four of them as uppers, key 20000000 has no bucket at its upper, number 1. */
  lemma EightLowersMissAKey()
    ensures InColumn(DATAVOLUME, 4, 20000000, 1) && !HasBucket(DATAVOLUME, CPU_CORE, 8, 1, 20000000)
  {
    BucketIffBelow(DATAVOLUME, CPU_CORE, 8, 1, 20000000);
  }
}
