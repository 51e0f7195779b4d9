/** Latency statistics over a list of int64 samples. */
module Latency {
  import opened Words

  const MIN64 := -0x8000_0000_0000_0000
  const MAX64 := 0x7FFF_FFFF_FFFF_FFFF

  predicate Fits(x: int) {
    MIN64 <= x <= MAX64
  }

  /** Two's complement wrap-around. */
  function Wrap(x: int): (r: int)
    ensures Fits(r) && (x - r) % TWO64 == 0 && (Fits(x) ==> r == x)
  {
    (x - MIN64) % TWO64 + MIN64
  }

  /** Go's integer division: toward zero. */
  function Quotient(a: int, n: nat): int
    requires n > 0
  {
    if a >= 0 then a / n else -(-a / n)
  }

  function Sum(s: seq<int>): int {
    if s == [] then 0 else Sum(s[..|s| - 1]) + s[|s| - 1]
  }

  function AtMost(s: seq<int>, x: int): nat {
    if s == [] then 0 else AtMost(s[..|s| - 1], x) + (if s[|s| - 1] <= x then 1 else 0)
  }

  function Below(s: seq<int>, x: int): nat {
    if s == [] then 0 else Below(s[..|s| - 1], x) + (if s[|s| - 1] < x then 1 else 0)
  }

  ghost predicate Sorted(s: seq<int>) {
    forall i, j :: 0 <= i < j < |s| ==> s[i] <= s[j]
  }

  // ----- Sums and counts do not see the order -----

  function Without(s: seq<int>, i: nat): seq<int>
    requires i < |s|
  {
    s[..i] + s[i + 1..]
  }

  lemma {:induction false} RemovingOne(s: seq<int>, i: nat, x: int)
    requires i < |s|
    ensures Sum(s) == Sum(Without(s, i)) + s[i]
    ensures AtMost(s, x) == AtMost(Without(s, i), x) + (if s[i] <= x then 1 else 0)
    ensures Below(s, x) == Below(Without(s, i), x) + (if s[i] < x then 1 else 0)
  {
    var n := |s| - 1;
    var t := Without(s, i);
    if i == n {
      assert t == s[..n];
    } else {
      RemovingOne(s[..n], i, x);
      assert t[..|t| - 1] == Without(s[..n], i) && t[|t| - 1] == s[n];
    }
  }

  lemma LessOne(s: seq<int>, i: nat)
    requires i < |s|
    ensures multiset(Without(s, i)) == multiset(s) - multiset{s[i]}
  {
    assert s == s[..i] + [s[i]] + s[i + 1..];
  }

  lemma {:induction false} OrderDoesNotMatter(s: seq<int>, t: seq<int>, x: int)
    requires multiset(s) == multiset(t)
    ensures |s| == |t| && Sum(s) == Sum(t) && AtMost(s, x) == AtMost(t, x) && Below(s, x) == Below(t, x)
  {
    assert |s| == |multiset(s)| == |multiset(t)| == |t|;
    if s != [] {
      var n := |s| - 1;
      assert s[n] in multiset(t);
      var i :| 0 <= i < |t| && t[i] == s[n];
      LessOne(s, n);
      LessOne(t, i);
      assert Without(s, n) == s[..n];
      OrderDoesNotMatter(s[..n], Without(t, i), x);
      RemovingOne(t, i, x);
    }
  }

  /** In a sorted list the value at `k` has at least `k + 1` values at most it and at most `k` below it. */
  lemma {:induction false} RankInSorted(s: seq<int>, n: nat, k: nat)
    requires Sorted(s) && k < |s| && n <= |s|
    ensures AtMost(s[..n], s[k]) >= if n <= k then n else k + 1
    ensures Below(s[..n], s[k]) <= if n <= k then n else k
  {
    if n > 0 {
      RankInSorted(s, n - 1, k);
      assert s[..n][..n - 1] == s[..n - 1];
    }
  }

  lemma {:induction false} SumBounds(s: seq<int>, lo: int, hi: int)
    requires forall i :: 0 <= i < |s| ==> lo <= s[i] <= hi
    ensures |s| * lo <= Sum(s) <= |s| * hi
  {
    if s != [] {
      SumBounds(s[..|s| - 1], lo, hi);
      assert |s| * lo == (|s| - 1) * lo + lo && |s| * hi == (|s| - 1) * hi + hi;
    }
  }

  lemma {:induction false} NextMultiple(n: nat, a: int, b: int)
    requires a < b
    ensures n * a + n <= n * b
    decreases b - a
  {
    if a + 1 < b { NextMultiple(n, a, b - 1); }
  }

  /** The quotient times the divisor is less than one divisor away, on the side of zero. */
  lemma QuotientBounds(a: int, n: nat)
    requires n > 0
    ensures a >= 0 ==> n * Quotient(a, n) <= a < n * Quotient(a, n) + n
    ensures a < 0 ==> n * Quotient(a, n) - n < a <= n * Quotient(a, n)
  {
    if a < 0 {
      var p := -a / n;
      assert -a == n * p + -a % n;
      assert n * (-p) == -(n * p);
    } else {
      assert a == n * (a / n) + a % n;
    }
  }

  lemma MeanBetween(sum: int, n: nat, lo: int, hi: int)
    requires n > 0 && n * lo <= sum <= n * hi
    ensures lo <= Quotient(sum, n) <= hi
  {
    var q := Quotient(sum, n);
    QuotientBounds(sum, n);
    if q < lo { NextMultiple(n, q, lo); }
    if hi < q { NextMultiple(n, hi, q); }
  }

  // ----- The statistics -----

  datatype Stats = Stats(success: nat, min: int, max: int, avg: int, p50: int, p95: int)

  function Insert(s: seq<int>, x: int): (r: seq<int>)
    ensures multiset(r) == multiset(s) + multiset{x}
    ensures forall i :: 0 <= i < |r| ==> r[i] == x || r[i] in s
  {
    if s == [] || x < s[0] then [x] + s
    else
      assert s == [s[0]] + s[1..];
      [s[0]] + Insert(s[1..], x)
  }

  lemma {:induction false} InsertKeepsSorted(s: seq<int>, x: int)
    requires Sorted(s)
    ensures Sorted(Insert(s, x))
  {
    if s != [] && s[0] <= x {
      var rest := Insert(s[1..], x);
      InsertKeepsSorted(s[1..], x);
      forall i | 0 <= i < |rest| ensures s[0] <= rest[i] {
        assert rest[i] == x || exists j :: 0 <= j < |s[1..]| && rest[i] == s[1..][j];
      }
    }
  }

  /** A sorted copy; the samples themselves are left alone. */
  method SortedCopy(s: seq<int>) returns (sorted: seq<int>)
    ensures Sorted(sorted) && multiset(sorted) == multiset(s)
  {
    sorted := [];
    for i := 0 to |s|
      invariant Sorted(sorted) && multiset(sorted) == multiset(s[..i])
    {
      assert s[..i + 1] == s[..i] + [s[i]];
      InsertKeepsSorted(sorted, s[i]);
      sorted := Insert(sorted, s[i]);
    }
    assert s[..|s|] == s;
  }

  lemma WrapAbsorbs(a: int, b: int)
    ensures Wrap(Wrap(a) + b) == Wrap(a + b)
  {
  }

  method WrappedSum(s: seq<int>) returns (sum: int)
    ensures sum == Wrap(Sum(s))
  {
    sum := 0;
    for i := 0 to |s|
      invariant sum == Wrap(Sum(s[..i]))
    {
      assert s[..i + 1][..i] == s[..i];
      WrapAbsorbs(Sum(s[..i]), s[i]);
      sum := Wrap(sum + s[i]);
    }
    assert s[..|s|] == s;
  }

  /**
   * `min` and `max` bound the samples and are among them; the percentiles lie between, each with its share of samples
   * on either side.
   */
  ghost predicate Describes(samples: seq<int>, st: Stats)
    requires samples != []
  {
    && st.success == |samples|
    && st.min in samples && st.max in samples && (forall x :: x in samples ==> st.min <= x <= st.max)
    && st.p50 in samples && st.p95 in samples && st.min <= st.p50 <= st.p95 <= st.max
    && 100 * AtMost(samples, st.p50) > 50 * |samples| && 100 * Below(samples, st.p50) <= 50 * |samples|
    && 100 * AtMost(samples, st.p95) > 95 * |samples| && 100 * Below(samples, st.p95) <= 95 * |samples|
    && st.avg == Quotient(Wrap(Sum(samples)), |samples|)
  }

  lemma RankInSamples(samples: seq<int>, sorted: seq<int>, k: nat)
    requires Sorted(sorted) && multiset(sorted) == multiset(samples) && k < |sorted|
    ensures |sorted| == |samples| && sorted[k] in samples
    ensures AtMost(samples, sorted[k]) >= k + 1 && Below(samples, sorted[k]) <= k
  {
    OrderDoesNotMatter(samples, sorted, sorted[k]);
    RankInSorted(sorted, |sorted|, k);
    assert sorted[..|sorted|] == sorted;
    assert sorted[k] in multiset(sorted);
  }

  method CalculateStats(rttLats: seq<int>) returns (stats: Stats)
    ensures rttLats == [] ==> stats == Stats(0, 0, 0, 0, 0, 0)
    ensures rttLats != [] ==> Describes(rttLats, stats)
  {
    stats := Stats(|rttLats|, 0, 0, 0, 0, 0);
    if |rttLats| > 0 {
      var sorted := SortedCopy(rttLats);
      OrderDoesNotMatter(rttLats, sorted, 0);
      var n := |sorted|;
      RankInSamples(rttLats, sorted, n * 50 / 100);
      RankInSamples(rttLats, sorted, n * 95 / 100);
      var sum := WrappedSum(sorted);
      forall x | x in rttLats ensures sorted[0] <= x <= sorted[n - 1] {
        assert x in multiset(sorted);
      }
      assert sorted[0] in multiset(sorted) && sorted[n - 1] in multiset(sorted);
      stats := Stats(n, sorted[0], sorted[n - 1], Quotient(sum, n), sorted[n * 50 / 100], sorted[n * 95 / 100]);
    }
  }

  /** The average lies between the extremes whenever the true sum is an int64. */
  lemma AverageBetween(samples: seq<int>, st: Stats)
    requires samples != [] && Describes(samples, st) && Fits(Sum(samples))
    ensures st.min <= st.avg <= st.max
  {
    assert forall i :: 0 <= i < |samples| ==> samples[i] in samples;
    SumBounds(samples, st.min, st.max);
    MeanBetween(Sum(samples), |samples|, st.min, st.max);
  }

  lemma WrapsByWords(x: int)
    ensures Wrap(x) == x || Wrap(x) - x >= TWO64 || x - Wrap(x) >= TWO64
  {
    var y := x - MIN64;
    assert y == TWO64 * (y / TWO64) + y % TWO64;
    assert Wrap(x) - x == -TWO64 * (y / TWO64);
  }

  /** The average is the true mean, toward zero, exactly when the true sum is an int64. */
  lemma AverageIsMeanIff(samples: seq<int>, st: Stats)
    requires samples != [] && |samples| <= MAX64 && Describes(samples, st)
    ensures st.avg == Quotient(Sum(samples), |samples|) <==> Fits(Sum(samples))
  {
    var s, n := Sum(samples), |samples|;
    var w := Wrap(s);
    if st.avg == Quotient(s, n) {
      QuotientBounds(s, n);
      QuotientBounds(w, n);
      assert -2 * n < s - w < 2 * n;
      WrapsByWords(s);
    }
  }

  /** An overflowing sum can put the average below every sample. */
  lemma OverflowShown(st: Stats)
    requires Describes([MAX64, MAX64], st)
    ensures st.avg < st.min
  {
    assert [MAX64, MAX64][..1] == [MAX64] && [MAX64][..0] == [];
    assert Sum([MAX64]) == MAX64;
    assert Sum([MAX64, MAX64]) == 2 * MAX64;
    assert Wrap(2 * MAX64) == -2;
  }
}
