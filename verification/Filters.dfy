/** The two trimmed means of USER/tracking/filter.c: one sorts the samples in place and drops the
    ends, the other makes one pass. */
module Filters {
  import opened CInt

  function Sum(s: seq<int>): int {
    if |s| == 0 then 0 else Sum(s[..|s| - 1]) + s[|s| - 1]
  }

  function Least(s: seq<int>): (m: int)
    requires |s| > 0
    ensures m in s && forall i | 0 <= i < |s| :: m <= s[i]
  {
    if |s| == 1 then s[0] else Min(Least(s[..|s| - 1]), s[|s| - 1])
  }

  function Greatest(s: seq<int>): (m: int)
    requires |s| > 0
    ensures m in s && forall i | 0 <= i < |s| :: s[i] <= m
  {
    if |s| == 1 then s[0] else Max(Greatest(s[..|s| - 1]), s[|s| - 1])
  }

  predicate Sorted(s: seq<int>) {
    forall i, j | 0 <= i < j < |s| :: s[i] <= s[j]
  }

  /** The sum without one least and one greatest sample. */
  function TrimmedSum(s: seq<int>): int
    requires |s| > 0
  {
    Sum(s) - Least(s) - Greatest(s)
  }

  /** The mean that `Filter` is for. */
  function TrimmedMean(s: seq<int>): int
    requires |s| != 2
  {
    if |s| < 2 then 0 else CDiv(TrimmedSum(s), |s| - 2)
  }

  /** The extremes of the one-pass filter start at 0. */
  function Highest(s: seq<int>): int {
    if |s| == 0 then 0 else Max(0, Greatest(s))
  }

  function Lowest(s: seq<int>): int {
    if |s| == 0 then 0 else Min(0, Least(s))
  }

  /** What the one-pass filter divides. */
  function OnePassSum(s: seq<int>): int {
    Sum(s) - Highest(s) - Lowest(s)
  }

  lemma OneMore(s: seq<int>, x: int)
    ensures Sum(s + [x]) == Sum(s) + x
    ensures Highest(s + [x]) == Max(Highest(s), x) && Lowest(s + [x]) == Min(Lowest(s), x)
  {
  }

  // ---------------------------------------------------------------------------------------------
  // Permutations

  lemma {:induction false} SumConcat(a: seq<int>, b: seq<int>)
    ensures Sum(a + b) == Sum(a) + Sum(b)
  {
    if |b| == 0 {
      assert a + b == a;
    } else {
      assert (a + b)[..|a + b| - 1] == a + b[..|b| - 1];
      SumConcat(a, b[..|b| - 1]);
    }
  }

  function Without(s: seq<int>, k: nat): (r: seq<int>)
    requires k < |s|
    ensures |r| == |s| - 1
  {
    s[..k] + s[k + 1..]
  }

  lemma SumWithout(s: seq<int>, k: nat)
    requires k < |s|
    ensures Sum(s) == Sum(Without(s, k)) + s[k]
  {
    var a, b := s[..k + 1], s[k + 1..];
    assert s == a + b && a[..k] == s[..k];
    SumConcat(a, b);
    SumConcat(a[..k], b);
  }

  lemma MultisetWithout(s: seq<int>, k: nat)
    requires k < |s|
    ensures multiset(Without(s, k)) == multiset(s) - multiset{s[k]}
  {
    assert s == s[..k] + [s[k]] + s[k + 1..];
  }

  lemma {:induction false} PermutationSum(s: seq<int>, t: seq<int>)
    requires multiset(s) == multiset(t)
    ensures Sum(s) == Sum(t) && |s| == |t|
  {
    assert |multiset(s)| == |s| && |multiset(t)| == |t|;
    if |s| > 0 {
      var x := s[|s| - 1];
      assert x in multiset(t);
      var k :| 0 <= k < |t| && t[k] == x;
      SumWithout(s, |s| - 1);
      SumWithout(t, k);
      MultisetWithout(s, |s| - 1);
      MultisetWithout(t, k);
      assert Without(s, |s| - 1) == s[..|s| - 1];
      PermutationSum(Without(s, |s| - 1), Without(t, k));
    }
  }

  lemma PermutationExtremes(s: seq<int>, t: seq<int>)
    requires multiset(s) == multiset(t) && |s| > 0 && |t| > 0
    ensures Least(s) == Least(t) && Greatest(s) == Greatest(t)
  {
    assert Least(s) in multiset(s) && Greatest(s) in multiset(s);
    assert Least(t) in multiset(t) && Greatest(t) in multiset(t);
    assert Least(s) in t && Greatest(s) in t && Least(t) in s && Greatest(t) in s;
  }

  /** In a sorted sequence the trimmed sum is that of the middle. */
  lemma SortedMiddle(s: seq<int>)
    requires Sorted(s) && |s| >= 2
    ensures Sum(s[1..|s| - 1]) == TrimmedSum(s)
  {
    var n := |s|;
    assert s == [s[0]] + s[1..n - 1] + [s[n - 1]];
    SumConcat([s[0]] + s[1..n - 1], [s[n - 1]]);
    SumConcat([s[0]], s[1..n - 1]);
    assert [s[0]][..0] == [] && Sum([s[0]]) == s[0] && [s[n - 1]][..0] == [] && Sum([s[n - 1]]) == s[n - 1];
  }

  // ---------------------------------------------------------------------------------------------
  // The code

  /** One round of the bubble sort: the greatest of the first k + 1 samples moves to place k. */
  method Bubble(a: array<int>, k: nat)
    requires k < a.Length
    modifies a
    ensures multiset(a[..]) == old(multiset(a[..]))
    ensures forall i | 0 <= i < k :: a[i] <= a[k]
    ensures forall i | k < i < a.Length :: a[i] == old(a[i])
    ensures multiset(a[..k + 1]) == old(multiset(a[..k + 1]))
  {
    var i := 0;
    while i < k
      invariant 0 <= i <= k
      invariant multiset(a[..k + 1]) == old(multiset(a[..k + 1]))
      invariant forall j | 0 <= j < i :: a[j] <= a[i]
      invariant forall j | k < j < a.Length :: a[j] == old(a[j])
    {
      if a[i] > a[i + 1] {
        var temp := a[i];
        a[i] := a[i + 1];
        a[i + 1] := temp;
      }
      i := i + 1;
    }
    assert a[..] == a[..k + 1] + a[k + 1..];
    assert old(a[..]) == old(a[..k + 1]) + old(a[k + 1..]);
    assert a[k + 1..] == old(a[k + 1..]);
  }

  /** The sorting loop of `Filter`. */
  method BubbleSort(a: array<int>)
    modifies a
    ensures Sorted(a[..]) && multiset(a[..]) == old(multiset(a[..]))
  {
    var n := a.Length;
    var j := 0;
    while j < n - 1
      invariant 0 <= j && (j <= n - 1 || (n == 0 && j == 0))
      invariant multiset(a[..]) == old(multiset(a[..]))
      invariant forall p, q | 0 <= p < q < n && n - j <= q :: a[p] <= a[q]
    {
      ghost var s := a[..];
      Bubble(a, n - 1 - j);
      assert s[..n - j] == s[..n - 1 - j + 1] && a[..][..n - j] == a[..n - j];
      BubbleKeepsOrder(s, a[..], n - 1 - j);
      j := j + 1;
    }
  }

  /** `Filter` sorts the samples in place and returns their trimmed mean. With two samples it
      divides by zero. */
  method Filter(filterBuf: array<int>) returns (r: int)
    requires filterBuf.Length != 2
    modifies filterBuf
    ensures Sorted(filterBuf[..]) && multiset(filterBuf[..]) == old(multiset(filterBuf[..]))
    ensures r == TrimmedMean(old(filterBuf[..]))
    ensures var s := old(filterBuf[..]);
      if |s| < 2 then r == 0 else r == CDiv(Sum(s) - Least(s) - Greatest(s), |s| - 2)
  {
    var n := filterBuf.Length;
    ghost var samples := filterBuf[..];
    BubbleSort(filterBuf);
    ghost var sorted := filterBuf[..];
    var filterSum := 0;
    var i := 1;
    while i < n - 1
      invariant 1 <= i && (i <= n - 1 || (n <= 1 && i == 1))
      invariant filterSum == if n < 2 then 0 else Sum(sorted[1..i])
    {
      assert sorted[1..i + 1][..i - 1] == sorted[1..i];
      filterSum := filterSum + filterBuf[i];
      i := i + 1;
    }
    r := CDiv(filterSum, n - 2);
    MiddleIsTrimmed(samples, sorted);
  }

  lemma MiddleIsTrimmed(samples: seq<int>, sorted: seq<int>)
    requires Sorted(sorted) && multiset(samples) == multiset(sorted) && |samples| != 2
    ensures |samples| == |sorted|
    ensures TrimmedMean(samples) == if |sorted| < 2 then 0 else CDiv(Sum(sorted[1..|sorted| - 1]), |sorted| - 2)
  {
    assert |multiset(samples)| == |samples| && |multiset(sorted)| == |sorted|;
    if |samples| > 2 {
      SortedMiddle(sorted);
      PermutationSum(samples, sorted);
      PermutationExtremes(samples, sorted);
    }
  }

  lemma BubbleKeepsOrder(s: seq<int>, t: seq<int>, k: nat)
    requires k < |s| == |t|
    requires multiset(s[..k + 1]) == multiset(t[..k + 1])
    requires forall i | k < i < |s| :: t[i] == s[i]
    requires forall p, q | 0 <= p < q < |s| && k < q :: s[p] <= s[q]
    requires forall i | 0 <= i < k :: t[i] <= t[k]
    ensures forall p, q | 0 <= p < q < |t| && k <= q :: t[p] <= t[q]
  {
    forall p, q | 0 <= p < q < |t| && k <= q
      ensures t[p] <= t[q]
    {
      if k < q && p <= k {
        assert t[p] == t[..k + 1][p] && t[p] in multiset(s[..k + 1]);
        var o :| 0 <= o < k + 1 && s[..k + 1][o] == t[p];
      }
    }
  }

  /** `AvrValueFiter`, in one pass. */
  method AvrValueFiter(buf: array<int>) returns (r: int)
    requires buf.Length != 2
    ensures r == CDiv(OnePassSum(buf[..]), buf.Length - 2)
    ensures var s := buf[..];
      if |s| == 0 then r == 0 else r == CDiv(Sum(s) - Max(0, Greatest(s)) - Min(0, Least(s)), |s| - 2)
  {
    var tmpValue, isMax, isMin := 0, 0, 0;
    var i := 0;
    while i < buf.Length
      invariant 0 <= i <= buf.Length
      invariant tmpValue == Sum(buf[..i])
      invariant isMax == Highest(buf[..i]) && isMin == Lowest(buf[..i])
    {
      assert buf[..i + 1] == buf[..i] + [buf[i]];
      OneMore(buf[..i], buf[i]);
      tmpValue := tmpValue + buf[i];
      if buf[i] > isMax {
        isMax := buf[i];
      }
      if buf[i] < isMin {
        isMin := buf[i];
      }
      i := i + 1;
    }
    assert buf[..i] == buf[..];
    r := CDiv(tmpValue - isMax - isMin, buf.Length - 2);
  }

  // ---------------------------------------------------------------------------------------------
  // What trimming is for

  lemma {:induction false} SumBounds(s: seq<int>, lo: int, hi: int)
    requires forall i | 0 <= i < |s| :: lo <= s[i] <= hi
    ensures |s| * lo <= Sum(s) <= |s| * hi
  {
    if |s| > 0 {
      SumBounds(s[..|s| - 1], lo, hi);
      Distribute(|s| - 1, 1, lo);
      Distribute(|s| - 1, 1, hi);
    }
  }

  lemma BoundsWithout(s: seq<int>, k: nat, lo: int, hi: int)
    requires k < |s| && forall i | 0 <= i < |s| :: lo <= s[i] <= hi
    ensures (|s| - 1) * lo <= Sum(s) - s[k] <= (|s| - 1) * hi
  {
    SumWithout(s, k);
    SumBounds(Without(s, k), lo, hi);
  }

  /** All but a least sample stay below the greatest, all but a greatest above the least. */
  lemma SumWithoutExtreme(s: seq<int>, lo: int, hi: int)
    requires |s| > 0 && lo == Least(s) && hi == Greatest(s)
    ensures Sum(s) - lo <= (|s| - 1) * hi
    ensures Sum(s) - hi >= (|s| - 1) * lo
  {
    var k :| 0 <= k < |s| && s[k] == lo;
    BoundsWithout(s, k, lo, hi);
    var l :| 0 <= l < |s| && s[l] == hi;
    BoundsWithout(s, l, lo, hi);
  }

  lemma CDivBounds(x: int, m: int, lo: int, hi: int)
    requires m > 0 && m * lo <= x <= m * hi
    ensures lo <= CDiv(x, m) <= hi
  {
    var q := CDiv(x, m);
    if x >= 0 {
      assert x == q * m + x % m;
    } else {
      assert -x == -q * m + -x % m;
    }
    if q > hi {
      MulAtLeast(q - hi, m);
      Distribute(q - hi, hi, m);
    }
    if q < lo {
      MulAtLeast(lo - q, m);
      Distribute(lo - q, q, m);
    }
  }

  /** Whatever value one sample has, the trimmed mean stays within the range of the others. */
  lemma TrimmedMeanRobust(s: seq<int>, k: nat)
    requires k < |s| && |s| >= 3
    ensures Least(Without(s, k)) <= TrimmedMean(s) <= Greatest(Without(s, k))
  {
    var others, x := Without(s, k), s[k];
    var lo, hi := Least(others), Greatest(others);
    SumWithout(s, k);
    SumWithoutExtreme(others, lo, hi);
    ExtremesWithout(s, k);
    assert TrimmedSum(s) == Sum(others) + x - Min(lo, x) - Max(hi, x);
    Clamped(Sum(others), x, lo, hi, (|s| - 2) * lo, (|s| - 2) * hi);
    CDivBounds(TrimmedSum(s), |s| - 2, lo, hi);
  }

  lemma Clamped(sum: int, x: int, lo: int, hi: int, low: int, high: int)
    requires lo <= hi && sum - lo <= high && sum - hi >= low
    ensures low <= sum + x - Min(lo, x) - Max(hi, x) <= high
  {
  }

  lemma ExtremesAre(s: seq<int>, lo: int, hi: int)
    requires |s| > 0 && lo in s && hi in s && forall i | 0 <= i < |s| :: lo <= s[i] <= hi
    ensures Least(s) == lo && Greatest(s) == hi
  {
  }

  lemma InWithout(s: seq<int>, k: nat, x: int)
    requires k < |s|
    ensures x in s <==> x in Without(s, k) || x == s[k]
  {
  }

  lemma ExtremesWithout(s: seq<int>, k: nat)
    requires k < |s| && |s| >= 2
    ensures Least(s) == Min(Least(Without(s, k)), s[k]) && Greatest(s) == Max(Greatest(Without(s, k)), s[k])
  {
    var others := Without(s, k);
    var lo, hi := Min(Least(others), s[k]), Max(Greatest(others), s[k]);
    InWithout(s, k, lo);
    InWithout(s, k, hi);
    forall i | 0 <= i < |s|
      ensures lo <= s[i] <= hi
    {
      InWithout(s, k, s[i]);
    }
    ExtremesAre(s, lo, hi);
  }

  /** The one pass trims the same sum exactly when the samples have both signs or touch 0. */
  lemma OnePassAgrees(s: seq<int>)
    requires |s| > 0
    ensures OnePassSum(s) == TrimmedSum(s) <==> Least(s) <= 0 <= Greatest(s)
  {
  }

  /** Then both filters return the same. */
  lemma FiltersAgree(s: seq<int>)
    requires |s| >= 3 && Least(s) <= 0 <= Greatest(s)
    ensures CDiv(OnePassSum(s), |s| - 2) == TrimmedMean(s)
  {
    OnePassAgrees(s);
  }

  /** What the one pass fails to take off: the extreme nearer to 0 when both are on one side of it. */
  function Excess(s: seq<int>): int
    requires |s| > 0
  {
    Max(0, Least(s)) + Min(0, Greatest(s))
  }

  /** In general they return the same exactly when the remainder of the division has room for it. */
  lemma FiltersAgreeExactly(s: seq<int>)
    requires |s| >= 3
    ensures CDiv(OnePassSum(s), |s| - 2) == TrimmedMean(s) <==>
              Abs(TrimmedSum(s)) % (|s| - 2) + Abs(Excess(s)) < |s| - 2
  {
    assert OnePassSum(s) == TrimmedSum(s) + Excess(s);
    TrimmedSumSign(s);
    assert Least(s) <= Greatest(s);
    TruncationStays(TrimmedSum(s), Excess(s), |s| - 2);
  }

  lemma TrimmedSumSign(s: seq<int>)
    requires |s| >= 3
    ensures Least(s) > 0 ==> TrimmedSum(s) >= 0
    ensures Greatest(s) < 0 ==> TrimmedSum(s) <= 0
  {
    var lo, hi, d := Least(s), Greatest(s), |s| - 2;
    SumWithoutExtreme(s, lo, hi);
    Distribute(d, 1, lo);
    Distribute(d, 1, hi);
    if lo > 0 {
      MulAtLeast(d, lo);
    } else if hi < 0 {
      MulAtLeast(d, -hi);
    }
  }

  lemma TruncationStays(t: int, e: int, d: nat)
    requires d > 0 && (e > 0 ==> t >= 0) && (e < 0 ==> t <= 0)
    ensures CDiv(t + e, d) == CDiv(t, d) <==> Abs(t) % d + Abs(e) < d
  {
    QuotientStays(Abs(t), Abs(e), d);
  }

  lemma QuotientStays(x: nat, e: nat, d: nat)
    requires d > 0
    ensures (x + e) / d == x / d <==> x % d + e < d
  {
    var q, r := x / d, x % d;
    if r + e < d {
      DivModUnique(x + e, q, r + e, d);
    } else {
      assert x + e == q * d + (r + e);
      Distribute(q, 1, d);
      CDivAtLeast(x + e, q + 1, d);
    }
  }

  lemma CDivAtLeast(x: nat, q: nat, d: nat)
    requires d > 0 && x >= q * d
    ensures x / d >= q
  {
    var p, r := x / d, x % d;
    if p < q {
      MulAtLeast(q - p, d);
      Distribute(q - p, p, d);
    }
  }

  /** Of three samples, where the divisor is 1, they return the same exactly then. */
  lemma FiltersAgreeOnThree(s: seq<int>)
    requires |s| == 3
    ensures CDiv(OnePassSum(s), |s| - 2) == TrimmedMean(s) <==> Least(s) <= 0 <= Greatest(s)
  {
  }

  lemma Magnitude(m: nat, n: nat, b: int)
    requires m <= n && b >= 0
    ensures m * b <= n * b && m * -b == -(m * b)
  {
  }

  /** A sum of at most n samples of magnitude at most b fits 32 bits if n b does; this covers the
      partial sums of both filters. */
  lemma PartialSumFits(s: seq<int>, b: int, n: nat)
    requires b >= 0 && |s| <= n && n * b <= INT_MAX && forall k | 0 <= k < |s| :: -b <= s[k] <= b
    ensures FitsInt32(Sum(s)) && -(n * b) <= Sum(s) <= n * b
  {
    SumBounds(s, -b, b);
    Magnitude(|s|, n, b);
  }

  /** The differences that the one pass forms at the end then fit for n + 2. */
  lemma OnePassFits(s: seq<int>, b: int)
    requires b >= 0 && |s| > 0 && (|s| + 2) * b <= INT_MAX && forall k | 0 <= k < |s| :: -b <= s[k] <= b
    ensures FitsInt32(Sum(s) - Max(0, Greatest(s))) && FitsInt32(OnePassSum(s))
  {
    Distribute(|s|, 2, b);
    PartialSumFits(s, b, |s|);
    assert -b <= Least(s) <= b && -b <= Greatest(s) <= b;
  }
}
