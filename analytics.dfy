/** The statistics engine: medians, linear-interpolation percentiles, burst
    grouping of press timestamps and the Metrics snapshot built from the
    recorder's buffers. Every value is a `real`; every function is total over
    possibly-empty input. */
module Analytics {
  import opened Sorting

  /** A key's hold: the time between its press and its matching release. */
  datatype HoldEvent = HoldEvent(code: int, holdMs: real)

  /** The time between one accepted event and the one before it. */
  datatype LatencyEvent = LatencyEvent(latencyMs: real)

  /** One entry of the per-key breakdown. */
  datatype KeyStats = KeyStats(code: int, count: nat, medianHold: real, p95Hold: real)

  /** The snapshot handed to the report writer and the notifiers. */
  datatype Metrics = Metrics(
    sessionId: string,
    startedAt: string,
    durationSecs: int,
    events: int,
    holdsCount: nat,
    latencyCount: nat,
    medianHoldMs: real,
    medianLatencyMs: real,
    p95LatencyMs: real,
    bursts: nat,
    avgBurstLen: real,
    perKey: seq<KeyStats>)

  /** Default gap, in milliseconds, that closes a burst. */
  const DefaultBurstThresholdMs: real := 700.0

  // ---------------------------------------------------------------------------
  // Percentile and median
  // ---------------------------------------------------------------------------

  /** Linear-interpolation percentile of `data` at fraction `p`, taken over its
      ascending sorted copy; 0.0 for an empty sample. */
  function Percentile(data: seq<real>, p: real): (r: real)
    requires 0.0 <= p <= 1.0
  {
    if |data| == 0 then 0.0 else Interpolate(Sort(data), p)
  }

  /** The interpolation step over a sorted sample `v` at p: position
      k = (n-1)p in the sample. */
  function Interpolate(v: seq<real>, p: real): (r: real)
    requires |v| > 0 && 0.0 <= p <= 1.0
  {
    ScaledWithin(|v| - 1, p);
    InterpolateAt(v, (|v| - 1) as real * p)
  }

  /** The value at position `k` of `v`: with f = floor(k) and c = min(f+1, n-1),
      the element at f when f = c, and otherwise v[f](c-k) + v[c](k-f). */
  function InterpolateAt(v: seq<real>, k: real): (r: real)
    requires 0.0 <= k <= (|v| - 1) as real
  {
    var n := |v|;
    var f := k.Floor;
    var c := if f + 1 < n - 1 then f + 1 else n - 1;
    if f == c then v[f]
    else v[f] * (c as real - k) + v[c] * (k - f as real)
  }

  /** Over a sorted sample the interpolated value lies between the first and the
      last element, is the first at p = 0 and the last at p = 1. */
  lemma InterpolateBounds(v: seq<real>, p: real)
    requires |v| > 0 && 0.0 <= p <= 1.0 && Sorted(v)
    ensures v[0] <= Interpolate(v, p) <= v[|v| - 1]
    ensures p == 0.0 ==> Interpolate(v, p) == v[0]
    ensures p == 1.0 ==> Interpolate(v, p) == v[|v| - 1]
  {
    InterpolateWithin(v, p);
    if p == 0.0 {
      InterpolateAtIndex(v, p, 0);
    } else if p == 1.0 {
      InterpolateAtIndex(v, p, |v| - 1);
    }
  }

  lemma InterpolateWithin(v: seq<real>, p: real)
    requires |v| > 0 && 0.0 <= p <= 1.0 && Sorted(v)
    ensures v[0] <= Interpolate(v, p) <= v[|v| - 1]
  {
    ScaledWithin(|v| - 1, p);
    InterpolateAtWithin(v, (|v| - 1) as real * p);
  }

  lemma InterpolateAtWithin(v: seq<real>, k: real)
    requires Sorted(v) && 0.0 <= k <= (|v| - 1) as real
    ensures v[0] <= InterpolateAt(v, k) <= v[|v| - 1]
  {
    var n := |v|;
    var f := k.Floor;
    var c := if f + 1 < n - 1 then f + 1 else n - 1;
    assert f as real <= k < f as real + 1.0;
    if f == c {
      assert v[0] <= v[f] <= v[n - 1];
    } else {
      LerpWithin(v, f, k);
    }
  }

  /** Between two neighbouring elements of a sorted sample, the linear
      interpolation stays within the sample's range. */
  lemma LerpWithin(v: seq<real>, f: int, k: real)
    requires Sorted(v) && 0 <= f && f + 1 < |v|
    requires f as real <= k < f as real + 1.0
    ensures v[0] <= v[f] * ((f + 1) as real - k) + v[f + 1] * (k - f as real) <= v[|v| - 1]
  {
    var n := |v|;
    assert v[0] <= v[f] <= v[n - 1] && v[0] <= v[f + 1] <= v[n - 1];
    ConvexWithin(v[f], v[f + 1], (f + 1) as real - k, k - f as real, v[0], v[n - 1]);
  }

  /** A fraction of `m` lies between 0 and `m`. */
  lemma ScaledWithin(m: int, p: real)
    requires m >= 0 && 0.0 <= p <= 1.0
    ensures 0.0 <= m as real * p <= m as real
  {
    assert m as real * p <= m as real * 1.0;
  }

  /** The statistical median of a non-empty sample, over its sorted copy. */
  function Median(data: seq<real>): (r: real)
    requires |data| > 0
  {
    Middle(Sort(data))
  }

  /** The middle element of a sorted sample, or the mean of the two middle
      elements when its length is even. */
  function Middle(v: seq<real>): (r: real)
    requires |v| > 0
  {
    var n := |v|;
    if n % 2 == 1 then v[n / 2] else (v[n / 2 - 1] + v[n / 2]) / 2.0
  }

  /** Median of a possibly-empty sample, 0.0 when it is empty. */
  function MedianOrZero(data: seq<real>): real {
    if |data| > 0 then Median(data) else 0.0
  }

  /** A weighted mean with non-negative weights summing to one stays in range. */
  lemma ConvexWithin(x: real, y: real, a: real, b: real, lo: real, hi: real)
    requires lo <= x <= hi && lo <= y <= hi
    requires a >= 0.0 && b >= 0.0 && a + b == 1.0
    ensures lo <= x * a + y * b <= hi
  {
    var r := x * a + y * b;
    assert r - lo == (x - lo) * a + (y - lo) * b by {
      assert lo == lo * a + lo * b;
    }
    assert hi - r == (hi - x) * a + (hi - y) * b by {
      assert hi == hi * a + hi * b;
    }
    MulNonneg(x - lo, a);
    MulNonneg(y - lo, b);
    MulNonneg(hi - x, a);
    MulNonneg(hi - y, b);
  }

  lemma MulNonneg(u: real, v: real)
    requires u >= 0.0 && v >= 0.0
    ensures u * v >= 0.0
  {
  }

  /** The percentile of an empty sample is 0.0; otherwise it lies between the
      sample's minimum and maximum, p = 0 gives the minimum, p = 1 the maximum and
      a one-element sample gives its element. */
  lemma PercentileBounds(data: seq<real>, p: real)
    requires 0.0 <= p <= 1.0
    ensures |data| == 0 ==> Percentile(data, p) == 0.0
    ensures |data| > 0 ==> Minimum(data) <= Percentile(data, p) <= Maximum(data)
    ensures |data| > 0 && p == 0.0 ==> Percentile(data, p) == Minimum(data)
    ensures |data| > 0 && p == 1.0 ==> Percentile(data, p) == Maximum(data)
    ensures |data| == 1 ==> Percentile(data, p) == data[0]
  {
    if |data| > 0 {
      SortBounds(data);
      InterpolateBounds(Sort(data), p);
      if |data| == 1 {
        assert Minimum(data) in data;
      }
    }
  }

  /** The percentile depends only on the multiset of values, not their order. */
  lemma PercentileIgnoresOrder(a: seq<real>, b: seq<real>, p: real)
    requires 0.0 <= p <= 1.0
    requires multiset(a) == multiset(b)
    ensures Percentile(a, p) == Percentile(b, p)
  {
    SortPermutationInvariant(a, b);
    assert |a| == |Sort(a)| == |Sort(b)| == |b|;
  }

  /** The middle of a sample is its interpolation at p = 0.5. */
  lemma MiddleIsHalfInterpolation(v: seq<real>)
    requires |v| > 0
    ensures Middle(v) == Interpolate(v, 0.5)
  {
    var n := |v|;
    var h := n / 2;
    var k := (n - 1) as real * 0.5;
    if n % 2 == 1 {
      assert n - 1 == 2 * h;
      InterpolateAtIndex(v, 0.5, h);
    } else {
      assert n == 2 * h;
      assert k == (h - 1) as real + 0.5;
      InterpolateBetween(v, 0.5, h - 1, 0.5);
      assert v[h - 1] * 0.5 + v[h] * 0.5 == (v[h - 1] + v[h]) / 2.0;
    }
  }

  /** When (n-1)p lies strictly between f and f + 1, the interpolation weighs the
      elements at f and f + 1 by their distance from it. */
  lemma InterpolateBetween(v: seq<real>, p: real, f: int, t: real)
    requires |v| > 0 && 0.0 <= p <= 1.0
    requires 0 <= f && f + 1 < |v| && 0.0 < t < 1.0
    requires (|v| - 1) as real * p == f as real + t
    ensures Interpolate(v, p) == v[f] * (1.0 - t) + v[f + 1] * t
  {
    var k := (|v| - 1) as real * p;
    assert Interpolate(v, p) == InterpolateAt(v, k);
    assert k.Floor == f;
    assert (f + 1) as real - k == 1.0 - t && k - f as real == t;
  }

  /** When (n-1)p is a whole number h, the interpolation is the element at h. */
  lemma InterpolateAtIndex(v: seq<real>, p: real, h: int)
    requires |v| > 0 && 0.0 <= p <= 1.0
    requires 0 <= h < |v| && (|v| - 1) as real * p == h as real
    ensures Interpolate(v, p) == v[h]
  {
    var k := (|v| - 1) as real * p;
    assert Interpolate(v, p) == InterpolateAt(v, k);
    assert k.Floor == h;
    if h + 1 < |v| {
      assert (h + 1) as real - k == 1.0 && k - h as real == 0.0;
      assert v[h] * 1.0 + v[h + 1] * 0.0 == v[h];
    }
  }

  /** The median is the 0.5 percentile, and so lies between the minimum and the
      maximum of the sample. */
  lemma MedianIsHalfPercentile(data: seq<real>)
    requires |data| > 0
    ensures Median(data) == Percentile(data, 0.5)
    ensures Minimum(data) <= Median(data) <= Maximum(data)
  {
    MiddleIsHalfInterpolation(Sort(data));
    PercentileBounds(data, 0.5);
  }

  // ---------------------------------------------------------------------------
  // Bursts
  // ---------------------------------------------------------------------------

  /** Number of consecutive pairs among the first `i` presses whose gap is at
      least `thresholdMs`. */
  function BreaksUpTo(ts: seq<real>, thresholdMs: real, i: nat): (r: nat)
    requires i <= |ts|
    ensures i > 0 ==> r < i
  {
    if i < 2 then 0
    else BreaksUpTo(ts, thresholdMs, i - 1) + (if ts[i - 1] - ts[i - 2] >= thresholdMs then 1 else 0)
  }

  /** Number of consecutive pairs of `ts` whose gap is at least `thresholdMs`. */
  function Breaks(ts: seq<real>, thresholdMs: real): (r: nat)
    ensures |ts| > 0 ==> r < |ts|
  {
    BreaksUpTo(ts, thresholdMs, |ts|)
  }

  /** Total of a sequence of naturals. */
  function Sum(s: seq<nat>): nat {
    if s == [] then 0 else Sum(s[..|s| - 1]) + s[|s| - 1]
  }

  /** Lengths of the runs among the first `i` presses, where each press of a run
      follows the previous one by less than `thresholdMs`. */
  function RunsUpTo(ts: seq<real>, thresholdMs: real, i: nat): (r: seq<nat>)
    requires i <= |ts|
    ensures |r| == if i == 0 then 0 else 1 + BreaksUpTo(ts, thresholdMs, i)
  {
    if i == 0 then []
    else if i == 1 then [1]
    else
      var b := RunsUpTo(ts, thresholdMs, i - 1);
      if ts[i - 1] - ts[i - 2] < thresholdMs then b[..|b| - 1] + [b[|b| - 1] + 1]
      else b + [1]
  }

  /** Lengths of the runs of `ts`: there is one run more than there are breaks. */
  function Bursts(ts: seq<real>, thresholdMs: real): (r: seq<nat>)
    ensures |r| == if |ts| == 0 then 0 else 1 + Breaks(ts, thresholdMs)
  {
    RunsUpTo(ts, thresholdMs, |ts|)
  }

  /** The runs among the first `i` presses are each non-empty. */
  lemma {:induction false} RunsPositive(ts: seq<real>, thresholdMs: real, i: nat)
    requires i <= |ts|
    ensures forall j :: 0 <= j < |RunsUpTo(ts, thresholdMs, i)| ==> RunsUpTo(ts, thresholdMs, i)[j] >= 1
  {
    if i >= 2 {
      RunsPositive(ts, thresholdMs, i - 1);
      var b := RunsUpTo(ts, thresholdMs, i - 1);
      var r := RunsUpTo(ts, thresholdMs, i);
      forall j | 0 <= j < |r|
        ensures r[j] >= 1
      {
        if j < |b| {
          assert r[j] >= b[j];
        }
      }
    }
  }

  /** The runs among the first `i` presses hold `i` presses in total. */
  lemma {:induction false} RunsSum(ts: seq<real>, thresholdMs: real, i: nat)
    requires i <= |ts|
    ensures Sum(RunsUpTo(ts, thresholdMs, i)) == i
  {
    if i == 1 {
      assert Sum([1]) == Sum([]) + 1;
    } else if i >= 2 {
      RunsSum(ts, thresholdMs, i - 1);
      var b := RunsUpTo(ts, thresholdMs, i - 1);
      var m := |b| - 1;
      assert b[..m] + [b[m]] == b;
      if ts[i - 1] - ts[i - 2] < thresholdMs {
        SumSnoc(b[..m], b[m]);
        SumSnoc(b[..m], b[m] + 1);
      } else {
        SumSnoc(b, 1);
      }
    }
  }

  lemma SumSnoc(s: seq<nat>, x: nat)
    ensures Sum(s + [x]) == Sum(s) + x
  {
    assert (s + [x])[..|s|] == s;
  }

  /** Every run holds at least one press and the runs together hold all of them. */
  lemma BurstsPartition(ts: seq<real>, thresholdMs: real)
    ensures forall j :: 0 <= j < |Bursts(ts, thresholdMs)| ==> Bursts(ts, thresholdMs)[j] >= 1
    ensures Sum(Bursts(ts, thresholdMs)) == |ts|
  {
    RunsPositive(ts, thresholdMs, |ts|);
    RunsSum(ts, thresholdMs, |ts|);
  }

  /** `(burst count, average burst length)` as `compute_bursts` returns them. */
  function BurstSummary(ts: seq<real>, thresholdMs: real): (nat, real) {
    var b := Bursts(ts, thresholdMs);
    (|b|, if |b| > 0 then Sum(b) as real / |b| as real else 0.0)
  }

  /** No presses give (0, 0.0); otherwise the count is one more than the number of
      gaps of at least the threshold, and the average is the number of presses per
      burst, at least 1. One press gives (1, 1.0) whatever the threshold. */
  lemma BurstSummaryProperties(ts: seq<real>, thresholdMs: real)
    ensures ts == [] ==> BurstSummary(ts, thresholdMs) == (0, 0.0)
    ensures ts != [] ==> BurstSummary(ts, thresholdMs).0 == 1 + Breaks(ts, thresholdMs)
    ensures ts != [] ==> BurstSummary(ts, thresholdMs).0 <= |ts|
    ensures ts != [] ==> BurstSummary(ts, thresholdMs).1 == |ts| as real / BurstSummary(ts, thresholdMs).0 as real
    ensures ts != [] ==> BurstSummary(ts, thresholdMs).1 >= 1.0
    ensures |ts| == 1 ==> BurstSummary(ts, thresholdMs) == (1, 1.0)
  {
    BurstsPartition(ts, thresholdMs);
    if ts != [] {
      RatioAtLeastOne(|ts|, |Bursts(ts, thresholdMs)|);
    }
  }

  lemma RatioAtLeastOne(n: nat, d: nat)
    requires 0 < d <= n
    ensures n as real / d as real >= 1.0
  {
    var q := n as real / d as real;
    assert q * d as real == n as real;
    if q < 1.0 {
      MulNonneg(1.0 - q, d as real);
      assert false;
    }
  }

  /** The loop of `compute_bursts`: walks consecutive pairs, extending the current run
      while the gap is under the threshold and closing it otherwise. */
  method ComputeBursts(ts: seq<real>, thresholdMs: real := DefaultBurstThresholdMs) returns (count: nat, avg: real)
    ensures (count, avg) == BurstSummary(ts, thresholdMs)
    ensures ts == [] ==> count == 0 && avg == 0.0
    ensures ts != [] ==> count == 1 + Breaks(ts, thresholdMs) && avg == |ts| as real / count as real
  {
    BurstSummaryProperties(ts, thresholdMs);
    if |ts| == 0 {
      return 0, 0.0;
    }
    var bursts: seq<nat> := [];
    var currentLen: nat := 1;
    for i := 1 to |ts|
      invariant bursts + [currentLen] == RunsUpTo(ts, thresholdMs, i)
    {
      ghost var b := bursts + [currentLen];
      assert b[..|b| - 1] == bursts && b[|b| - 1] == currentLen;
      if ts[i] - ts[i - 1] < thresholdMs {
        currentLen := currentLen + 1;
      } else {
        bursts := bursts + [currentLen];
        currentLen := 1;
      }
    }
    bursts := bursts + [currentLen];
    count := |bursts|;
    avg := if |bursts| > 0 then Sum(bursts) as real / |bursts| as real else 0.0;
  }

  // ---------------------------------------------------------------------------
  // Per-key breakdown
  // ---------------------------------------------------------------------------

  /** The distinct key codes among `holds`. */
  function CodeSet(holds: seq<HoldEvent>): set<int> {
    set h | h in holds :: h.code
  }

  /** The hold durations of `code`, in the order they were recorded. */
  function HoldsOf(holds: seq<HoldEvent>, code: int): (r: seq<real>)
    ensures |r| <= |holds|
  {
    if holds == [] then []
    else
      var last := holds[|holds| - 1];
      HoldsOf(holds[..|holds| - 1], code) + (if last.code == code then [last.holdMs] else [])
  }

  /** A code that occurs among the holds has at least one hold. */
  lemma {:induction false} HoldsOfNonEmpty(holds: seq<HoldEvent>, code: int)
    requires code in CodeSet(holds)
    ensures |HoldsOf(holds, code)| > 0
  {
    var last := holds[|holds| - 1];
    if last.code != code {
      var pre := holds[..|holds| - 1];
      var h :| h in holds && h.code == code;
      assert holds == pre + [last];
      assert h in pre;
      HoldsOfNonEmpty(pre, code);
    }
  }

  /** A code that does not occur among the holds has none. */
  lemma {:induction false} HoldsOfAbsent(holds: seq<HoldEvent>, code: int)
    requires code !in CodeSet(holds)
    ensures HoldsOf(holds, code) == []
  {
    if holds != [] {
      var pre := holds[..|holds| - 1];
      assert holds[|holds| - 1] in holds;
      forall h | h in pre
        ensures h.code != code
      {
        assert h in holds;
      }
      HoldsOfAbsent(pre, code);
    }
  }

  /** `cs` is strictly ascending (so has no repeated code). */
  predicate StrictlyAscending(cs: seq<int>) {
    forall i, j :: 0 <= i < j < |cs| ==> cs[i] < cs[j]
  }

  /** Adds `c` to a strictly ascending sequence of codes, keeping it so. */
  function InsertCode(c: int, cs: seq<int>): (r: seq<int>)
    requires StrictlyAscending(cs)
    ensures StrictlyAscending(r)
    ensures forall d :: d in r <==> d == c || d in cs
    ensures r != [] && r[0] == if cs == [] || c < cs[0] then c else cs[0]
  {
    if cs == [] then [c]
    else if c < cs[0] then [c] + cs
    else if c == cs[0] then cs
    else
      assert cs == [cs[0]] + cs[1..];
      [cs[0]] + InsertCode(c, cs[1..])
  }

  /** The distinct codes of `holds`, ascending (the sorted dictionary keys of `aggregate`'s per-key loop). */
  function Codes(holds: seq<HoldEvent>): (r: seq<int>)
    ensures StrictlyAscending(r)
    ensures forall c :: c in r <==> c in CodeSet(holds)
  {
    if holds == [] then []
    else
      var pre := holds[..|holds| - 1];
      assert holds == pre + [holds[|holds| - 1]];
      InsertCode(holds[|holds| - 1].code, Codes(pre))
  }

  /** Two strictly ascending sequences with the same elements are equal. */
  lemma {:induction false} AscendingUnique(a: seq<int>, b: seq<int>)
    requires StrictlyAscending(a) && StrictlyAscending(b)
    requires forall c :: c in a <==> c in b
    ensures a == b
  {
    if a != [] {
      assert a[0] in a;
    }
    if b != [] {
      assert b[0] in b;
    }
    if a != [] && b != [] {
      LeastOf(a, b);
      LeastOf(b, a);
      var a', b' := a[1..], b[1..];
      forall c
        ensures c in a' <==> c in b'
      {
        if c in a' {
          TailMember(a, b, c);
        }
        if c in b' {
          TailMember(b, a, c);
        }
      }
      AscendingUnique(a', b');
      assert a == [a[0]] + a' && b == [b[0]] + b';
    }
  }

  /** With equal heads and the same elements, a later element of `a` is a later
      element of `b`. */
  lemma TailMember(a: seq<int>, b: seq<int>, c: int)
    requires StrictlyAscending(a) && a != [] && b != [] && a[0] == b[0]
    requires forall d :: d in a <==> d in b
    requires c in a[1..]
    ensures c in b[1..]
  {
    var i :| 0 <= i < |a| - 1 && a[1..][i] == c;
    assert a[i + 1] == c && a[0] < c;
    assert c in b;
    var j :| 0 <= j < |b| && b[j] == c;
    assert j != 0;
    assert b[1..][j - 1] == c;
  }

  /** The first element of a strictly ascending sequence is at most every element
      of a sequence with the same elements. */
  lemma LeastOf(a: seq<int>, b: seq<int>)
    requires StrictlyAscending(a) && a != [] && b != []
    requires forall c :: c in a <==> c in b
    ensures a[0] <= b[0]
  {
    assert b[0] in b;
  }

  /** The breakdown entry for one code whose holds are `vals`. */
  function KeyStatsOf(code: int, vals: seq<real>): KeyStats
    requires |vals| > 0
  {
    KeyStats(code, |vals|, Median(vals), Percentile(vals, 0.95))
  }

  /** The breakdown entries for the codes `cs`, in that order. */
  function KeyStatsFor(holds: seq<HoldEvent>, cs: seq<int>): (r: seq<KeyStats>)
    requires forall c :: c in cs ==> c in CodeSet(holds)
    ensures |r| == |cs|
  {
    if cs == [] then []
    else
      var c := cs[|cs| - 1];
      HoldsOfNonEmpty(holds, c);
      KeyStatsFor(holds, cs[..|cs| - 1]) + [KeyStatsOf(c, HoldsOf(holds, c))]
  }

  /** Extending the codes by one extends the breakdown by that code's entry. */
  lemma KeyStatsForSnoc(holds: seq<HoldEvent>, cs: seq<int>, j: int)
    requires forall c :: c in cs ==> c in CodeSet(holds)
    requires 0 <= j < |cs|
    ensures |HoldsOf(holds, cs[j])| > 0
    ensures KeyStatsFor(holds, cs[..j + 1]) == KeyStatsFor(holds, cs[..j]) + [KeyStatsOf(cs[j], HoldsOf(holds, cs[j]))]
  {
    HoldsOfNonEmpty(holds, cs[j]);
    assert cs[..j + 1][..j] == cs[..j];
  }

  /** The per-key breakdown: one entry per distinct code, ascending by code. */
  function PerKey(holds: seq<HoldEvent>): seq<KeyStats> {
    KeyStatsFor(holds, Codes(holds))
  }

  /** Entry `i` of the breakdown for `cs` describes the holds of `cs[i]`. */
  lemma {:induction false} KeyStatsForAt(holds: seq<HoldEvent>, cs: seq<int>, i: int)
    requires forall c :: c in cs ==> c in CodeSet(holds)
    requires 0 <= i < |cs|
    ensures |HoldsOf(holds, cs[i])| > 0
    ensures KeyStatsFor(holds, cs)[i] == KeyStatsOf(cs[i], HoldsOf(holds, cs[i]))
  {
    HoldsOfNonEmpty(holds, cs[i]);
    if i < |cs| - 1 {
      KeyStatsForAt(holds, cs[..|cs| - 1], i);
    }
  }

  /** Sum of the counts of breakdown entries. */
  function SumCounts(ps: seq<KeyStats>): nat {
    if ps == [] then 0 else SumCounts(ps[..|ps| - 1]) + ps[|ps| - 1].count
  }

  /** Total number of holds of the codes `cs`. */
  function CountsOver(holds: seq<HoldEvent>, cs: seq<int>): nat {
    if cs == [] then 0 else CountsOver(holds, cs[..|cs| - 1]) + |HoldsOf(holds, cs[|cs| - 1])|
  }

  /** Number of times `x` occurs in `cs`. */
  function Occurrences(cs: seq<int>, x: int): nat {
    if cs == [] then 0 else Occurrences(cs[..|cs| - 1], x) + (if cs[|cs| - 1] == x then 1 else 0)
  }

  lemma {:induction false} OccursOnce(cs: seq<int>, x: int)
    requires StrictlyAscending(cs) && x in cs
    ensures Occurrences(cs, x) == 1
  {
    var pre := cs[..|cs| - 1];
    if cs[|cs| - 1] == x {
      NotOccurring(pre, x);
    } else {
      assert cs == pre + [cs[|cs| - 1]];
      OccursOnce(pre, x);
    }
  }

  lemma {:induction false} NotOccurring(cs: seq<int>, x: int)
    requires x !in cs
    ensures Occurrences(cs, x) == 0
  {
    if cs != [] {
      NotOccurring(cs[..|cs| - 1], x);
    }
  }

  /** Adding one hold adds one to the holds of each occurrence of its code. */
  lemma {:induction false} CountsOverSnoc(pre: seq<HoldEvent>, h: HoldEvent, cs: seq<int>)
    ensures CountsOver(pre + [h], cs) == CountsOver(pre, cs) + Occurrences(cs, h.code)
  {
    var holds := pre + [h];
    assert holds[..|holds| - 1] == pre;
    if cs != [] {
      CountsOverSnoc(pre, h, cs[..|cs| - 1]);
    }
  }

  /** Codes listed once each and covering every hold account for all the holds. */
  lemma {:induction false} CountsOverCovers(holds: seq<HoldEvent>, cs: seq<int>)
    requires StrictlyAscending(cs)
    requires forall c :: c in CodeSet(holds) ==> c in cs
    ensures CountsOver(holds, cs) == |holds|
  {
    if holds == [] {
      CountsOverEmpty(cs);
    } else {
      var pre := holds[..|holds| - 1];
      var h := holds[|holds| - 1];
      assert holds == pre + [h];
      assert h in holds;
      forall c | c in CodeSet(pre)
        ensures c in cs
      {
        var g :| g in pre && g.code == c;
        assert g in holds;
      }
      CountsOverCovers(pre, cs);
      CountsOverSnoc(pre, h, cs);
      OccursOnce(cs, h.code);
    }
  }

  lemma {:induction false} CountsOverEmpty(cs: seq<int>)
    ensures CountsOver([], cs) == 0
  {
    if cs != [] {
      CountsOverEmpty(cs[..|cs| - 1]);
    }
  }

  lemma {:induction false} SumCountsFor(holds: seq<HoldEvent>, cs: seq<int>)
    requires forall c :: c in cs ==> c in CodeSet(holds)
    ensures SumCounts(KeyStatsFor(holds, cs)) == CountsOver(holds, cs)
  {
    if cs != [] {
      var r := KeyStatsFor(holds, cs);
      assert r[..|r| - 1] == KeyStatsFor(holds, cs[..|cs| - 1]);
      SumCountsFor(holds, cs[..|cs| - 1]);
    }
  }

  /** The breakdown lists the codes of `cs` in the order of `cs`. */
  lemma {:induction false} KeyStatsForCodes(holds: seq<HoldEvent>, cs: seq<int>)
    requires forall c :: c in cs ==> c in CodeSet(holds)
    ensures forall i :: 0 <= i < |cs| ==> KeyStatsFor(holds, cs)[i].code == cs[i]
  {
    if cs != [] {
      KeyStatsForCodes(holds, cs[..|cs| - 1]);
    }
  }

  /** The breakdown has exactly one entry per distinct code of the holds, and the
      entries are strictly ascending by code. */
  lemma PerKeyOrder(holds: seq<HoldEvent>)
    ensures forall i, j :: 0 <= i < j < |PerKey(holds)| ==> PerKey(holds)[i].code < PerKey(holds)[j].code
    ensures forall c :: c in CodeSet(holds) <==> exists i :: 0 <= i < |PerKey(holds)| && PerKey(holds)[i].code == c
  {
    var cs := Codes(holds);
    var ps := PerKey(holds);
    KeyStatsForCodes(holds, cs);
    forall c | c in CodeSet(holds)
      ensures exists i :: 0 <= i < |ps| && ps[i].code == c
    {
      var i :| 0 <= i < |cs| && cs[i] == c;
      assert ps[i].code == c;
    }
    forall i | 0 <= i < |ps|
      ensures ps[i].code in CodeSet(holds)
    {
      assert cs[i] in cs;
    }
  }

  /** Each breakdown entry counts its code's holds, at least one, and its median
      and p95 lie between that code's shortest and longest hold. */
  lemma PerKeyEntry(holds: seq<HoldEvent>, i: int)
    requires 0 <= i < |PerKey(holds)|
    ensures var e := PerKey(holds)[i];
      var vals := HoldsOf(holds, e.code);
      |vals| > 0 && e.count == |vals| >= 1 &&
      Minimum(vals) <= e.medianHold <= Maximum(vals) &&
      Minimum(vals) <= e.p95Hold <= Maximum(vals)
  {
    var cs := Codes(holds);
    KeyStatsForAt(holds, cs, i);
    var vals := HoldsOf(holds, cs[i]);
    MedianIsHalfPercentile(vals);
    PercentileBounds(vals, 0.95);
  }

  /** The counts of the breakdown add up to the number of holds. */
  lemma PerKeyCountsSum(holds: seq<HoldEvent>)
    ensures SumCounts(PerKey(holds)) == |holds|
  {
    SumCountsFor(holds, Codes(holds));
    CountsOverCovers(holds, Codes(holds));
  }

  // ---------------------------------------------------------------------------
  // Aggregation
  // ---------------------------------------------------------------------------

  function HoldValues(holds: seq<HoldEvent>): (r: seq<real>)
    ensures |r| == |holds|
  {
    seq(|holds|, i requires 0 <= i < |holds| => holds[i].holdMs)
  }

  function LatencyValues(latencies: seq<LatencyEvent>): (r: seq<real>)
    ensures |r| == |latencies|
  {
    seq(|latencies|, i requires 0 <= i < |latencies| => latencies[i].latencyMs)
  }

  /** The Metrics snapshot of a session's buffers. */
  function MetricsOf(sessionId: string, startedAt: string, durationSecs: int, totalEvents: int,
                     holds: seq<HoldEvent>, latencies: seq<LatencyEvent>,
                     pressTimestampsMs: seq<real>): Metrics
  {
    var holdVals := HoldValues(holds);
    var latVals := LatencyValues(latencies);
    var summary := BurstSummary(pressTimestampsMs, DefaultBurstThresholdMs);
    Metrics(
      sessionId, startedAt, durationSecs, totalEvents, |holds|, |latencies|,
      MedianOrZero(holdVals), MedianOrZero(latVals),
      if |latVals| > 0 then Percentile(latVals, 0.95) else 0.0,
      summary.0, summary.1,
      PerKey(holds))
  }

  lemma HasMember(s: set<int>)
    requires s != {}
    ensures exists c :: c in s
  {
    if forall c :: c !in s {
      assert false;
    }
  }

  /** Sorts a set of codes ascending (`aggregate` sorts its dictionary's items). */
  method SortedCodes(keys: set<int>) returns (ks: seq<int>)
    ensures StrictlyAscending(ks)
    ensures forall c :: c in ks <==> c in keys
  {
    ks := [];
    var rest := keys;
    while rest != {}
      invariant StrictlyAscending(ks)
      invariant forall c :: c in keys <==> c in ks || c in rest
      invariant forall c :: c in ks ==> c !in rest
      decreases |rest|
    {
      HasMember(rest);
      var c :| c in rest;
      ks := InsertCode(c, ks);
      rest := rest - {c};
    }
  }

  /** The grouping loop of `aggregate`: appends each hold duration to its code's list. */
  method GroupByCode(holds: seq<HoldEvent>) returns (groups: map<int, seq<real>>)
    ensures groups.Keys == CodeSet(holds)
    ensures forall c :: c in groups ==> groups[c] == HoldsOf(holds, c)
  {
    groups := map[];
    for i := 0 to |holds|
      invariant groups.Keys == CodeSet(holds[..i])
      invariant forall c :: c in groups ==> groups[c] == HoldsOf(holds[..i], c)
    {
      var h := holds[i];
      var pre, next := holds[..i], holds[..i + 1];
      assert next == pre + [h] && next[..i] == pre;
      if h.code !in groups {
        HoldsOfAbsent(pre, h.code);
      }
      groups := groups[h.code := (if h.code in groups then groups[h.code] else []) + [h.holdMs]];
      forall c | c in groups
        ensures groups[c] == HoldsOf(next, c)
      {
        assert HoldsOf(next, c) == HoldsOf(pre, c) + (if h.code == c then [h.holdMs] else []);
      }
    }
    assert holds[..|holds|] == holds;
  }

  /** The per-key loop of `aggregate`: one entry per code of `groups`, ascending. */
  method BreakdownOf(holds: seq<HoldEvent>, groups: map<int, seq<real>>) returns (perKey: seq<KeyStats>)
    requires groups.Keys == CodeSet(holds)
    requires forall c :: c in groups ==> groups[c] == HoldsOf(holds, c)
    ensures perKey == PerKey(holds)
  {
    var codes := SortedCodes(groups.Keys);
    AscendingUnique(codes, Codes(holds));
    perKey := [];
    for j := 0 to |codes|
      invariant perKey == KeyStatsFor(holds, codes[..j])
    {
      var c := codes[j];
      var vals := groups[c];
      HoldsOfNonEmpty(holds, c);
      KeyStatsForSnoc(holds, codes, j);
      perKey := perKey + [KeyStats(c, |vals|, Median(vals), Percentile(vals, 0.95))];
    }
    assert codes[..|codes|] == codes;
  }

  /** Builds the Metrics snapshot the way `aggregate` does: the statistics of the
      whole buffers, the per-key breakdown and the burst loop. */
  method Aggregate(sessionId: string, startedAt: string, durationSecs: int, totalEvents: int,
                   holds: seq<HoldEvent>, latencies: seq<LatencyEvent>,
                   pressTimestampsMs: seq<real>) returns (m: Metrics)
    ensures m == MetricsOf(sessionId, startedAt, durationSecs, totalEvents, holds, latencies, pressTimestampsMs)
  {
    var holdVals := HoldValues(holds);
    var latVals := LatencyValues(latencies);
    var medianHold := if |holdVals| > 0 then Median(holdVals) else 0.0;
    var medianLatency := if |latVals| > 0 then Median(latVals) else 0.0;
    var p95Latency := if |latVals| > 0 then Percentile(latVals, 0.95) else 0.0;
    var groups := GroupByCode(holds);
    var perKey := BreakdownOf(holds, groups);
    var bursts, avgBurstLen := ComputeBursts(pressTimestampsMs);
    m := Metrics(
      sessionId, startedAt, durationSecs, totalEvents, |holds|, |latencies|,
      medianHold, medianLatency, p95Latency, bursts, avgBurstLen, perKey);
  }

  /** Counts and session fields pass through; a statistic of an empty buffer is
      0.0; the burst fields and the breakdown are those of the buffers. */
  lemma AggregateProperties(sessionId: string, startedAt: string, durationSecs: int, totalEvents: int,
                            holds: seq<HoldEvent>, latencies: seq<LatencyEvent>,
                            pressTimestampsMs: seq<real>)
    ensures var m := MetricsOf(sessionId, startedAt, durationSecs, totalEvents, holds, latencies, pressTimestampsMs);
      m.sessionId == sessionId && m.startedAt == startedAt &&
      m.durationSecs == durationSecs && m.events == totalEvents &&
      m.holdsCount == |holds| && m.latencyCount == |latencies| &&
      (holds == [] ==> m.medianHoldMs == 0.0) &&
      (holds != [] ==> Minimum(HoldValues(holds)) <= m.medianHoldMs <= Maximum(HoldValues(holds))) &&
      (latencies == [] ==> m.medianLatencyMs == 0.0 && m.p95LatencyMs == 0.0) &&
      (latencies != [] ==> Minimum(LatencyValues(latencies)) <= m.medianLatencyMs <= Maximum(LatencyValues(latencies)) &&
                           Minimum(LatencyValues(latencies)) <= m.p95LatencyMs <= Maximum(LatencyValues(latencies))) &&
      (pressTimestampsMs == [] ==> m.bursts == 0 && m.avgBurstLen == 0.0) &&
      (pressTimestampsMs != [] ==> m.bursts == 1 + Breaks(pressTimestampsMs, DefaultBurstThresholdMs) &&
                                   m.avgBurstLen >= 1.0) &&
      SumCounts(m.perKey) == |holds|
  {
    BurstSummaryProperties(pressTimestampsMs, DefaultBurstThresholdMs);
    PerKeyCountsSum(holds);
    if holds != [] {
      MedianIsHalfPercentile(HoldValues(holds));
    }
    if latencies != [] {
      MedianIsHalfPercentile(LatencyValues(latencies));
      PercentileBounds(LatencyValues(latencies), 0.95);
    }
  }

  // ---------------------------------------------------------------------------
  // The sample session of the analytics test
  // ---------------------------------------------------------------------------

  /** Five holds of key 65 and six latencies, as in tests/test_analytics.py. */
  const SampleHolds: seq<HoldEvent> :=
    [HoldEvent(65, 100.0), HoldEvent(65, 90.0), HoldEvent(65, 110.0), HoldEvent(65, 95.0), HoldEvent(65, 105.0)]
  const SampleLatencies: seq<LatencyEvent> :=
    [LatencyEvent(50.0), LatencyEvent(60.0), LatencyEvent(70.0), LatencyEvent(80.0), LatencyEvent(90.0), LatencyEvent(100.0)]
  const SamplePresses: seq<real> := [0.0, 100.0, 200.0, 800.0, 1000.0, 1600.0]

  /** When every gap is under the threshold there is no break. */
  lemma NoBreaks(ts: seq<real>, thresholdMs: real)
    requires forall i :: 1 <= i < |ts| ==> ts[i] - ts[i - 1] < thresholdMs
    ensures Breaks(ts, thresholdMs) == 0
  {
    NoBreaksUpTo(ts, thresholdMs, |ts|);
  }

  lemma {:induction false} NoBreaksUpTo(ts: seq<real>, thresholdMs: real, i: nat)
    requires i <= |ts|
    requires forall k :: 1 <= k < |ts| ==> ts[k] - ts[k - 1] < thresholdMs
    ensures BreaksUpTo(ts, thresholdMs, i) == 0
  {
    if i >= 2 {
      NoBreaksUpTo(ts, thresholdMs, i - 1);
    }
  }

  /** Every gap of the sample presses is under 700 ms, so they form one burst of
      six presses. */
  lemma SampleBursts()
    ensures BurstSummary(SamplePresses, DefaultBurstThresholdMs) == (1, 6.0)
  {
    NoBreaks(SamplePresses, DefaultBurstThresholdMs);
    BurstSummaryProperties(SamplePresses, DefaultBurstThresholdMs);
  }

  /** The sample holds have median 100 and p95 109. */
  lemma SampleHoldStats()
    ensures Median(HoldValues(SampleHolds)) == 100.0
    ensures Percentile(HoldValues(SampleHolds), 0.95) == 109.0
  {
    SampleHoldValuesStats(HoldValues(SampleHolds));
  }

  lemma SampleHoldValuesStats(hv: seq<real>)
    requires hv == [100.0, 90.0, 110.0, 95.0, 105.0]
    ensures Median(hv) == 100.0 && Percentile(hv, 0.95) == 109.0
  {
    SampleHoldsSorted(hv);
    var v := Sort(hv);
    assert Median(hv) == Middle(v);
    assert Percentile(hv, 0.95) == Interpolate(v, 0.95);
    SampleHoldsStatsSorted(v);
  }

  lemma SampleHoldsSorted(hv: seq<real>)
    requires hv == [100.0, 90.0, 110.0, 95.0, 105.0]
    ensures Sort(hv) == [90.0, 95.0, 100.0, 105.0, 110.0]
  {
    var v := [90.0, 95.0, 100.0, 105.0, 110.0];
    SampleHoldsPermuted(hv, v);
    assert Sorted(v);
    SortIsSortedPermutation(hv, v);
  }

  lemma SampleHoldsPermuted(hv: seq<real>, v: seq<real>)
    requires hv == [100.0, 90.0, 110.0, 95.0, 105.0]
    requires v == [90.0, 95.0, 100.0, 105.0, 110.0]
    ensures multiset(hv) == multiset(v)
  {
  }

  lemma SampleHoldsStatsSorted(v: seq<real>)
    requires v == [90.0, 95.0, 100.0, 105.0, 110.0]
    ensures Middle(v) == 100.0 && Interpolate(v, 0.95) == 109.0
  {
    assert (4 as real * 0.95).Floor == 3;
  }

  /** The sample latencies have median 75 and p95 97.5. */
  lemma SampleLatencyStats()
    ensures Median(LatencyValues(SampleLatencies)) == 75.0
    ensures Percentile(LatencyValues(SampleLatencies), 0.95) == 97.5
  {
    SampleLatencyValuesStats(LatencyValues(SampleLatencies));
  }

  lemma SampleLatencyValuesStats(lv: seq<real>)
    requires lv == [50.0, 60.0, 70.0, 80.0, 90.0, 100.0]
    ensures Median(lv) == 75.0 && Percentile(lv, 0.95) == 97.5
  {
    SampleLatenciesSorted(lv);
    var v := Sort(lv);
    assert Median(lv) == Middle(v);
    assert Percentile(lv, 0.95) == Interpolate(v, 0.95);
    SampleLatencyStatsSorted(v);
  }

  lemma SampleLatenciesSorted(lv: seq<real>)
    requires lv == [50.0, 60.0, 70.0, 80.0, 90.0, 100.0]
    ensures Sort(lv) == lv
  {
    SortIsSortedPermutation(lv, lv);
  }

  lemma SampleLatencyStatsSorted(v: seq<real>)
    requires v == [50.0, 60.0, 70.0, 80.0, 90.0, 100.0]
    ensures Middle(v) == 75.0 && Interpolate(v, 0.95) == 97.5
  {
    assert (5 as real * 0.95).Floor == 4;
  }

  /** When every hold is of one code, that code's holds are all of them. */
  lemma {:induction false} HoldsOfSingleCode(holds: seq<HoldEvent>, code: int)
    requires forall i :: 0 <= i < |holds| ==> holds[i].code == code
    ensures HoldsOf(holds, code) == HoldValues(holds)
  {
    if holds != [] {
      var pre := holds[..|holds| - 1];
      HoldsOfSingleCode(pre, code);
      assert HoldValues(holds) == HoldValues(pre) + [holds[|holds| - 1].holdMs];
    }
  }

  /** All sample holds are of key 65, in their recorded order. */
  lemma SampleGroups()
    ensures Codes(SampleHolds) == [65]
    ensures HoldsOf(SampleHolds, 65) == HoldValues(SampleHolds)
  {
    assert CodeSet(SampleHolds) == {65};
    AscendingUnique(Codes(SampleHolds), [65]);
    HoldsOfSingleCode(SampleHolds, 65);
  }

  /** The sample session's metrics: median hold 100, median latency 75, p95
      latency 97.5, one burst of six, and one breakdown entry for key 65 with five
      holds, median 100 and p95 109. */
  lemma SampleMetrics()
    ensures var m := MetricsOf("sess", "2025-01-01T00:00:00Z", 10, 100, SampleHolds, SampleLatencies, SamplePresses);
      m.medianHoldMs == 100.0 && m.medianLatencyMs == 75.0 &&
      0.0 < m.p95LatencyMs <= 100.0 && m.p95LatencyMs == 97.5 &&
      m.bursts == 1 && m.avgBurstLen == 6.0 &&
      m.perKey == [KeyStats(65, 5, 100.0, 109.0)]
  {
    SampleBursts();
    SampleHoldStats();
    SampleLatencyStats();
    SampleGroups();
    var cs := Codes(SampleHolds);
    assert cs[..0] == [];
    assert KeyStatsFor(SampleHolds, cs) == [KeyStatsOf(65, HoldsOf(SampleHolds, 65))];
  }
}
