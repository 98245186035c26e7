/** The order statistics of cmd/benchmark/main.go. Durations are integers. */
module OrderStats {

  ghost predicate Ascending(s: seq<int>) {
    forall i, j :: 0 <= i < j < |s| ==> s[i] <= s[j]
  }

  function Insert(x: int, s: seq<int>): (r: seq<int>)
    ensures |r| == |s| + 1
  {
    if s == [] then [x] else if x <= s[0] then [x] + s else [s[0]] + Insert(x, s[1..])
  }

  /** The samples in ascending order. SortIsUnique: any correct sorting algorithm yields this. */
  function Sort(s: seq<int>): (r: seq<int>)
    ensures |r| == |s|
  {
    if s == [] then [] else Insert(s[0], Sort(s[1..]))
  }

  lemma {:induction false} InsertAscends(x: int, s: seq<int>)
    requires Ascending(s)
    ensures Ascending(Insert(x, s))
    ensures Insert(x, s)[0] == if s == [] || x <= s[0] then x else s[0]
    decreases |s|
  {
    if s != [] && x > s[0] {
      InsertAscends(x, s[1..]);
      Prepend(s[0], Insert(x, s[1..]));
    } else {
      Prepend(x, s);
    }
  }

  lemma Prepend(x: int, s: seq<int>)
    requires Ascending(s) && (s != [] ==> x <= s[0])
    ensures Ascending([x] + s)
  {
    var t := [x] + s;
    forall i, j | 0 <= i < j < |t| ensures t[i] <= t[j] {
      assert t[j] == s[j - 1] && s[0] <= s[j - 1];
    }
  }

  lemma {:induction false} InsertAdds(x: int, s: seq<int>)
    ensures multiset(Insert(x, s)) == multiset(s) + multiset{x}
    decreases |s|
  {
    if s != [] && x > s[0] {
      InsertAdds(x, s[1..]);
      assert s == [s[0]] + s[1..];
    }
  }

  lemma {:induction false} SortAscends(s: seq<int>)
    ensures Ascending(Sort(s))
    decreases |s|
  {
    if s != [] {
      SortAscends(s[1..]);
      InsertAscends(s[0], Sort(s[1..]));
    }
  }

  lemma {:induction false} SortPermutes(s: seq<int>)
    ensures multiset(Sort(s)) == multiset(s)
    decreases |s|
  {
    if s != [] {
      SortPermutes(s[1..]);
      InsertAdds(s[0], Sort(s[1..]));
      assert s == [s[0]] + s[1..];
    }
  }

  lemma LeastFirst(s: seq<int>, x: int)
    requires Ascending(s) && x in multiset(s)
    ensures s != [] && s[0] <= x
  {
    var i :| 0 <= i < |s| && s[i] == x;
  }

  lemma TailLoses(s: seq<int>)
    requires s != []
    ensures multiset(s[1..]) == multiset(s) - multiset{s[0]}
    ensures s[0] in multiset(s)
  {
    assert s == [s[0]] + s[1..];
  }

  lemma SameHead(s: seq<int>, t: seq<int>)
    requires Ascending(s) && Ascending(t) && multiset(s) == multiset(t) && s != [] && t != []
    ensures s[0] == t[0] && multiset(s[1..]) == multiset(t[1..])
  {
    TailLoses(s);
    TailLoses(t);
    LeastFirst(s, t[0]);
    LeastFirst(t, s[0]);
  }

  lemma SameCons(s: seq<int>, t: seq<int>)
    requires s != [] && t != [] && s[0] == t[0] && s[1..] == t[1..]
    ensures s == t
  {
    assert s == [s[0]] + s[1..] && t == [t[0]] + t[1..];
  }

  lemma {:induction false} AscendingUnique(s: seq<int>, t: seq<int>)
    requires Ascending(s) && Ascending(t) && multiset(s) == multiset(t)
    ensures s == t
    decreases |s|
  {
    assert |s| == |multiset(s)| == |t|;
    if s != [] {
      SameHead(s, t);
      AscendingUnique(s[1..], t[1..]);
      SameCons(s, t);
    }
  }

  /** Any ascending permutation of the samples is Sort of them, so every statistic depends on their multiset alone. */
  lemma SortIsUnique(s: seq<int>, t: seq<int>)
    requires Ascending(t) && multiset(s) == multiset(t)
    ensures t == Sort(s)
  {
    SortAscends(s);
    SortPermutes(s);
    AscendingUnique(Sort(s), t);
  }

  // ----- The statistics -----

  /** Integer division by two, truncated toward zero. */
  function Half(x: int): int {
    if x >= 0 then x / 2 else -((-x) / 2)
  }

  /** The middle of sorted samples: of two middle ones the truncated mean. */
  function Middle(sorted: seq<int>): int {
    if |sorted| == 0 then 0
    else
      var mid := |sorted| / 2;
      if |sorted| % 2 == 0 then Half(sorted[mid - 1] + sorted[mid]) else sorted[mid]
  }

  function MedianOf(s: seq<int>): int {
    Middle(Sort(s))
  }

  /** A hundredth, truncated toward zero. */
  function Hundredth(x: int): int {
    if x >= 0 then x / 100 else -((-x) / 100)
  }

  /** The index pct percent into n samples. */
  function Rank(pct: int, n: nat): int
    requires n > 0
  {
    Hundredth(pct * (n - 1))
  }

  lemma HundredthBelowIff(x: int, n: nat)
    ensures 0 <= Hundredth(x) < n <==> -100 < x < 100 * n && n > 0
  {
  }

  lemma HundredthMonotone(x: int, y: int)
    requires x <= y
    ensures Hundredth(x) <= Hundredth(y)
  {
  }

  lemma TimesMonotone(p: int, q: int, m: nat)
    requires p <= q
    ensures p * m <= q * m
  {
  }

  /** The index is in range exactly for the percentages of 0 to 100, and a little beyond on short lists. */
  lemma RankInRangeIff(pct: int, n: nat)
    requires n > 0
    ensures 0 <= Rank(pct, n) < n <==> -100 < pct * (n - 1) < 100 * n
    ensures 0 <= pct <= 100 ==> 0 <= Rank(pct, n) < n
  {
    var x := pct * (n - 1);
    HundredthBelowIff(x, n);
    assert 0 <= pct <= 100 ==> 0 <= x <= 100 * (n - 1) by {
      if 0 <= pct <= 100 {
        TimesMonotone(0, pct, n - 1);
        TimesMonotone(pct, 100, n - 1);
      }
    }
  }

  /** A statistic, or the panic on an index out of range. */
  datatype Statistic = Value(v: int) | IndexOutOfRange

  function AtRank(sorted: seq<int>, pct: int): Statistic {
    if |sorted| == 0 then Value(0)
    else if 0 <= Rank(pct, |sorted|) < |sorted| then Value(sorted[Rank(pct, |sorted|)])
    else IndexOutOfRange
  }

  function PercentileOf(s: seq<int>, pct: int): Statistic {
    AtRank(Sort(s), pct)
  }

  /** The library sort, in place. */
  method SortSlice(a: array<int>)
    modifies a
    ensures a[..] == Sort(old(a[..]))
  {
    var sorted := Sort(a[..]);
    forall i | 0 <= i < a.Length {
      a[i] := sorted[i];
    }
  }

  method SortedCopy(ds: array<int>) returns (sorted: array<int>)
    ensures fresh(sorted) && sorted[..] == Sort(ds[..])
  {
    sorted := new int[ds.Length];
    forall i | 0 <= i < ds.Length {
      sorted[i] := ds[i];
    }
    assert sorted[..] == ds[..];
    SortSlice(sorted);
  }

  method Median(ds: array<int>) returns (m: int)
    ensures m == MedianOf(ds[..])
  {
    if ds.Length == 0 {
      return 0;
    }
    var sorted := SortedCopy(ds);
    assert |sorted[..]| == |ds[..]|;
    var mid := sorted.Length / 2;
    assert sorted[mid] == sorted[..][mid];
    if sorted.Length % 2 == 0 {
      assert sorted[mid - 1] == sorted[..][mid - 1];
      return Half(sorted[mid - 1] + sorted[mid]);
    }
    return sorted[mid];
  }

  method Percentile(ds: array<int>, pct: int) returns (p: Statistic)
    ensures p == PercentileOf(ds[..], pct)
  {
    if ds.Length == 0 {
      return Value(0);
    }
    var sorted := SortedCopy(ds);
    assert |sorted[..]| == |ds[..]|;
    var idx := Rank(pct, sorted.Length);
    if idx < 0 || idx >= sorted.Length {
      return IndexOutOfRange;
    }
    assert sorted[idx] == sorted[..][idx];
    return Value(sorted[idx]);
  }

  lemma SortEnds(s: seq<int>)
    requires s != []
    ensures Sort(s)[0] in s && Sort(s)[|s| - 1] in s
    ensures forall x :: x in s ==> Sort(s)[0] <= x <= Sort(s)[|s| - 1]
  {
    SortAscends(s);
    SortPermutes(s);
    var t := Sort(s);
    assert t[0] in multiset(s) && t[|s| - 1] in multiset(s);
    forall x | x in s ensures t[0] <= x <= t[|s| - 1] {
      assert x in multiset(t);
      var i :| 0 <= i < |t| && t[i] == x;
    }
  }

  method MinD(ds: array<int>) returns (m: int)
    ensures m == if ds.Length == 0 then 0 else Sort(ds[..])[0]
    ensures ds.Length > 0 ==> m in ds[..] && forall i :: 0 <= i < ds.Length ==> m <= ds[i]
  {
    if ds.Length == 0 {
      return 0;
    }
    m := ds[0];
    for i := 1 to ds.Length
      invariant m in ds[..i] && forall j :: 0 <= j < i ==> m <= ds[j]
    {
      if ds[i] < m {
        m := ds[i];
      }
    }
    SortEnds(ds[..]);
    assert ds[..ds.Length] == ds[..];
  }

  method MaxD(ds: array<int>) returns (m: int)
    ensures m == if ds.Length == 0 then 0 else Sort(ds[..])[ds.Length - 1]
    ensures ds.Length > 0 ==> m in ds[..] && forall i :: 0 <= i < ds.Length ==> ds[i] <= m
  {
    if ds.Length == 0 {
      return 0;
    }
    m := ds[0];
    for i := 1 to ds.Length
      invariant m in ds[..i] && forall j :: 0 <= j < i ==> ds[j] <= m
    {
      if ds[i] > m {
        m := ds[i];
      }
    }
    SortEnds(ds[..]);
    assert ds[..ds.Length] == ds[..];
  }

  // ----- What the statistics mean -----

  function CountAtMost(s: seq<int>, v: int): nat {
    if s == [] then 0 else (if s[0] <= v then 1 else 0) + CountAtMost(s[1..], v)
  }

  function CountAtLeast(s: seq<int>, v: int): nat {
    if s == [] then 0 else (if s[0] >= v then 1 else 0) + CountAtLeast(s[1..], v)
  }

  lemma {:induction false} InsertCounts(x: int, s: seq<int>, v: int)
    ensures CountAtMost(Insert(x, s), v) == CountAtMost([x] + s, v)
    ensures CountAtLeast(Insert(x, s), v) == CountAtLeast([x] + s, v)
    decreases |s|
  {
    assert ([x] + s)[1..] == s;
    if s != [] && x > s[0] {
      InsertCounts(x, s[1..], v);
      assert ([x] + s[1..])[1..] == s[1..];
      assert Insert(x, s)[1..] == Insert(x, s[1..]);
    }
  }

  lemma {:induction false} SortCounts(s: seq<int>, v: int)
    ensures CountAtMost(Sort(s), v) == CountAtMost(s, v)
    ensures CountAtLeast(Sort(s), v) == CountAtLeast(s, v)
    decreases |s|
  {
    if s != [] {
      SortCounts(s[1..], v);
      InsertCounts(s[0], Sort(s[1..]), v);
      assert ([s[0]] + Sort(s[1..]))[1..] == Sort(s[1..]);
    }
  }

  lemma {:induction false} AscendingCounts(s: seq<int>, i: nat, v: int)
    requires Ascending(s) && i < |s|
    ensures s[i] <= v ==> CountAtMost(s, v) >= i + 1
    ensures s[i] >= v ==> CountAtLeast(s, v) >= |s| - i
    decreases |s|
  {
    if i > 0 {
      AscendingCounts(s[1..], i - 1, v);
    } else if |s| > 1 {
      AscendingCounts(s[1..], 0, v);
    }
  }

  /** There is a percentile, not a panic, exactly under this condition, which 0 to 100 percent always meet. */
  lemma PercentileDefinedIff(s: seq<int>, pct: int)
    ensures PercentileOf(s, pct).Value? <==> s == [] || -100 < pct * (|s| - 1) < 100 * |s|
    ensures 0 <= pct <= 100 ==> PercentileOf(s, pct).Value?
  {
    if s != [] {
      RankInRangeIff(pct, |s|);
    }
  }

  lemma SortedAt(s: seq<int>, i: nat)
    requires i < |s|
    ensures Sort(s)[i] in s && CountAtMost(s, Sort(s)[i]) >= i + 1 && CountAtLeast(s, Sort(s)[i]) >= |s| - i
  {
    var t := Sort(s);
    SortAscends(s);
    SortPermutes(s);
    assert t[i] in multiset(t);
    SortCounts(s, t[i]);
    AscendingCounts(t, i, t[i]);
  }

  lemma RankIs(x: int, i: nat)
    requires 100 * i <= x < 100 * i + 100 || (i == 0 && -100 < x < 0)
    ensures Hundredth(x) == i
  {
  }

  /** At the rank i that is pct percent into the n samples, rounded toward zero, at least i + 1 samples are at most
      the percentile, and at least n - i are at least it. */
  lemma PercentileRank(s: seq<int>, pct: int, i: nat)
    requires i < |s|
    requires 100 * i <= pct * (|s| - 1) < 100 * i + 100 || (i == 0 && -100 < pct * (|s| - 1) < 0)
    ensures var p := PercentileOf(s, pct);
            p.Value? && p.v in s && CountAtMost(s, p.v) >= i + 1 && CountAtLeast(s, p.v) >= |s| - i
  {
    RankIs(pct * (|s| - 1), i);
    SortedAt(s, i);
  }

  lemma HalfTruncates(x: int)
    ensures if x >= 0 then 2 * Half(x) <= x <= 2 * Half(x) + 1 else 2 * Half(x) - 1 <= x <= 2 * Half(x)
  {
  }

  lemma MiddleIs(t: seq<int>)
    requires t != []
    ensures var a, b := t[(|t| - 1) / 2], t[|t| / 2];
            && (|t| % 2 == 1 ==> Middle(t) == a == b)
            && (|t| % 2 == 0 ==> Middle(t) == Half(a + b))
  {
  }

  /** The median is the truncated mean of the two middle samples, which are one for an odd number of them. */
  lemma MedianRank(s: seq<int>) returns (a: int, b: int)
    requires s != []
    ensures a in s && CountAtMost(s, a) >= (|s| - 1) / 2 + 1 && CountAtLeast(s, a) >= |s| - (|s| - 1) / 2
    ensures b in s && CountAtMost(s, b) >= |s| / 2 + 1 && CountAtLeast(s, b) >= |s| - |s| / 2
    ensures |s| % 2 == 1 ==> MedianOf(s) == a == b
    ensures if a + b >= 0 then 2 * MedianOf(s) <= a + b <= 2 * MedianOf(s) + 1
            else 2 * MedianOf(s) - 1 <= a + b <= 2 * MedianOf(s)
  {
    a, b := Sort(s)[(|s| - 1) / 2], Sort(s)[|s| / 2];
    SortedAt(s, (|s| - 1) / 2);
    SortedAt(s, |s| / 2);
    MiddleIs(Sort(s));
    HalfTruncates(a + b);
  }

  lemma RankMonotone(p: int, q: int, n: nat)
    requires p <= q && n > 0
    ensures Rank(p, n) <= Rank(q, n)
  {
    TimesMonotone(p, q, n - 1);
    HundredthMonotone(p * (n - 1), q * (n - 1));
  }

  lemma AtRankMonotone(t: seq<int>, p: int, q: int)
    requires Ascending(t) && p <= q && AtRank(t, p).Value? && AtRank(t, q).Value?
    ensures AtRank(t, p).v <= AtRank(t, q).v
  {
    if t != [] {
      RankMonotone(p, q, |t|);
    }
  }

  lemma PercentileMonotone(s: seq<int>, p: int, q: int)
    requires p <= q && PercentileOf(s, p).Value? && PercentileOf(s, q).Value?
    ensures PercentileOf(s, p).v <= PercentileOf(s, q).v
  {
    SortAscends(s);
    AtRankMonotone(Sort(s), p, q);
  }

  /** The statistics depend on the multiset of samples alone. */
  lemma OrderDoesNotMatter(s: seq<int>, t: seq<int>, pct: int)
    requires multiset(s) == multiset(t)
    ensures MedianOf(s) == MedianOf(t) && PercentileOf(s, pct) == PercentileOf(t, pct)
  {
    SortAscends(t);
    SortPermutes(t);
    SortIsUnique(s, Sort(t));
  }

  lemma HalfBetween(a: int, b: int)
    requires a <= b
    ensures a <= Half(a + b) <= b
  {
  }

  lemma MiddleBetween(t: seq<int>)
    requires Ascending(t) && t != []
    ensures t[0] <= Middle(t) <= t[|t| / 2] <= t[|t| - 1]
  {
    if |t| % 2 == 0 {
      HalfBetween(t[|t| / 2 - 1], t[|t| / 2]);
    }
  }

  /** The median lies between the least and the greatest sample. */
  lemma MedianBetween(s: seq<int>)
    requires s != []
    ensures Sort(s)[0] <= MedianOf(s) <= Sort(s)[|s| - 1]
  {
    SortAscends(s);
    MiddleBetween(Sort(s));
  }

  lemma RankOfP95(n: nat)
    requires n > 0
    ensures 0 <= Rank(95, n) < n
    ensures n / 2 <= Rank(95, n) <==> n != 2
  {
  }

  lemma MiddleBelowP95Iff(t: seq<int>)
    requires Ascending(t) && t != []
    ensures AtRank(t, 95).Value?
    ensures Middle(t) <= AtRank(t, 95).v <==> (|t| == 2 ==> if t[0] + t[1] >= 0 then t[1] <= t[0] + 1 else t[1] == t[0])
  {
    RankOfP95(|t|);
    if |t| == 2 {
      assert Middle(t) == Half(t[0] + t[1]) && AtRank(t, 95) == Value(t[0]) && t[0] <= t[1];
    } else {
      MiddleBetween(t);
      assert t[|t| / 2] <= AtRank(t, 95).v;
    }
  }

  /** The median is at most the 95th percentile exactly when there are not two samples, or two so close
      that their truncated mean is the smaller one. */
  lemma MedianBelowP95Iff(s: seq<int>)
    requires s != []
    ensures PercentileOf(s, 95).Value?
    ensures MedianOf(s) <= PercentileOf(s, 95).v
       <==> (|s| == 2 ==>
               var a, b := Sort(s)[0], Sort(s)[1];
               if a + b >= 0 then b <= a + 1 else b == a)
  {
    SortAscends(s);
    MiddleBelowP95Iff(Sort(s));
  }
}
