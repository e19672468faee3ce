/** `AnalyticsService` of app.py: the daily series of article counts, the
    baseline volume label, and the least-squares trend statistics.

    Dates are day numbers (days since 1970-01-01, UTC) and instants are
    seconds since the epoch, so the service's `datetime` arithmetic becomes
    integer arithmetic. Ratios are exact reals. */
module Analytics {
  import opened Results

  // ---------------------------------------------------------------------------
  // Day window
  // ---------------------------------------------------------------------------

  /** The `dias` value as received: an integer, or something `int()` rejects. */
  datatype DaysArg = Whole(n: int) | NotInteger

  const DefaultDays := 7
  const MinDays := 1
  const MaxDays := 180
  const SecondsPerDay := 86400

  /** `int(dias)` falling back to 7, then clamped to [1, 180]. */
  function ClampDays(arg: DaysArg): (n: int)
    ensures MinDays <= n <= MaxDays
    ensures arg.NotInteger? ==> n == DefaultDays
    ensures arg.Whole? && MinDays <= arg.n <= MaxDays ==> n == arg.n
    ensures arg.Whole? && arg.n < MinDays ==> n == MinDays
    ensures arg.Whole? && arg.n > MaxDays ==> n == MaxDays
  {
    var d := if arg.Whole? then arg.n else DefaultDays;
    if d < MinDays then MinDays else if d > MaxDays then MaxDays else d
  }

  /** The UTC calendar day of an instant (floor division, also before 1970). */
  function DayOf(at: int): int {
    at / SecondsPerDay
  }

  // ---------------------------------------------------------------------------
  // build_series
  // ---------------------------------------------------------------------------

  datatype Point = Point(date: int, count: nat)

  /** Whether an article instant falls on `day`; `None` stands for an article
      whose `dt` is missing or unusable, which never counts. */
  predicate OnDay(stamp: Option<int>, day: int) {
    stamp.Some? && DayOf(stamp.value) == day
  }

  /** Reference count: how many of the articles fall on `day`. */
  function CountOnDay(stamps: seq<Option<int>>, day: int): nat {
    if stamps == [] then 0
    else CountOnDay(stamps[..|stamps| - 1], day) + (if OnDay(stamps[|stamps| - 1], day) then 1 else 0)
  }

  lemma CountOnDayStep(stamps: seq<Option<int>>, j: nat, day: int)
    requires j < |stamps|
    ensures CountOnDay(stamps[..j + 1], day) == CountOnDay(stamps[..j], day) + (if OnDay(stamps[j], day) then 1 else 0)
  {
    assert stamps[..j + 1][..j] == stamps[..j];
  }

  /** `build_series(articles, dias)`: one point per day from
      `today - (n - 1)` to `today` in ascending order, where `n` is the
      clamped day count, each holding the number of articles published that
      UTC day. Articles outside the window or without a usable instant are
      skipped. */
  method BuildSeries(stamps: seq<Option<int>>, dias: DaysArg, today: int) returns (series: seq<Point>)
    ensures |series| == ClampDays(dias)
    ensures forall i :: 0 <= i < |series| ==> series[i].date == today - |series| + 1 + i
    ensures forall i :: 0 <= i < |series| ==> series[i].count == CountOnDay(stamps, series[i].date)
  {
    var n := ClampDays(dias);
    var first := today - (n - 1);
    var counts: seq<nat> := seq(n, _ => 0);
    var j := 0;
    while j < |stamps|
      invariant j <= |stamps|
      invariant |counts| == n
      invariant forall i :: 0 <= i < n ==> counts[i] == CountOnDay(stamps[..j], first + i)
    {
      forall day | first <= day <= today
        ensures CountOnDay(stamps[..j + 1], day) == CountOnDay(stamps[..j], day) + (if OnDay(stamps[j], day) then 1 else 0)
      {
        CountOnDayStep(stamps, j, day);
      }
      if stamps[j].Some? {
        var d := DayOf(stamps[j].value);
        if first <= d <= today {
          counts := counts[d - first := counts[d - first] + 1];
        }
      }
      j := j + 1;
    }
    assert stamps[..j] == stamps;
    series := seq(n, i requires 0 <= i < n => Point(first + i, counts[i]));
  }

  /** Total count of a series. */
  function SeriesTotal(series: seq<Point>): nat {
    if series == [] then 0 else SeriesTotal(series[..|series| - 1]) + series[|series| - 1].count
  }

  /** Articles whose day lies in `[lo, hi]`. */
  function CountInWindow(stamps: seq<Option<int>>, lo: int, hi: int): nat {
    if stamps == [] then 0
    else
      var s := stamps[|stamps| - 1];
      CountInWindow(stamps[..|stamps| - 1], lo, hi) + (if s.Some? && lo <= DayOf(s.value) <= hi then 1 else 0)
  }

  /** `sum_{i < n} CountOnDay(stamps, lo + i)`. */
  function SumOverDays(stamps: seq<Option<int>>, lo: int, n: nat): nat {
    if n == 0 then 0 else SumOverDays(stamps, lo, n - 1) + CountOnDay(stamps, lo + n - 1)
  }

  lemma {:induction false} SumOverDaysAppend(stamps: seq<Option<int>>, x: Option<int>, lo: int, n: nat)
    ensures SumOverDays(stamps + [x], lo, n)
         == SumOverDays(stamps, lo, n) + (if x.Some? && lo <= DayOf(x.value) <= lo + n - 1 then 1 else 0)
  {
    var t := stamps + [x];
    assert t[..|t| - 1] == stamps;
    if n > 0 {
      SumOverDaysAppend(stamps, x, lo, n - 1);
    }
  }

  /** Summing the per-day counts over a window counts every article in the
      window exactly once. */
  lemma {:induction false} SumOverDaysIsWindowCount(stamps: seq<Option<int>>, lo: int, n: nat)
    ensures SumOverDays(stamps, lo, n) == CountInWindow(stamps, lo, lo + n - 1)
  {
    if stamps == [] {
      SumOverDaysOfNothing(lo, n);
    } else {
      var init, x := stamps[..|stamps| - 1], stamps[|stamps| - 1];
      assert stamps == init + [x];
      SumOverDaysIsWindowCount(init, lo, n);
      SumOverDaysAppend(init, x, lo, n);
    }
  }

  lemma {:induction false} SumOverDaysOfNothing(lo: int, n: nat)
    ensures SumOverDays([], lo, n) == 0
  {
    if n > 0 {
      SumOverDaysOfNothing(lo, n - 1);
    }
  }

  lemma CountInWindowBound(stamps: seq<Option<int>>, lo: int, hi: int)
    ensures CountInWindow(stamps, lo, hi) <= |stamps|
  {
  }

  lemma {:induction false} SeriesTotalIsSum(series: seq<Point>, stamps: seq<Option<int>>, lo: int, k: nat)
    requires k <= |series|
    requires forall i :: 0 <= i < |series| ==> series[i].date == lo + i
    requires forall i :: 0 <= i < |series| ==> series[i].count == CountOnDay(stamps, series[i].date)
    ensures SeriesTotal(series[..k]) == SumOverDays(stamps, lo, k)
  {
    if k > 0 {
      assert series[..k][..k - 1] == series[..k - 1];
      SeriesTotalIsSum(series, stamps, lo, k - 1);
    }
  }

  /** The counts of a built series add up to the number of articles that fall
      inside its window, hence never to more than the number of articles. */
  lemma SeriesCountsEveryArticleOnce(series: seq<Point>, stamps: seq<Option<int>>, today: int)
    requires |series| > 0
    requires forall i :: 0 <= i < |series| ==> series[i].date == today - |series| + 1 + i
    requires forall i :: 0 <= i < |series| ==> series[i].count == CountOnDay(stamps, series[i].date)
    ensures SeriesTotal(series) == CountInWindow(stamps, today - |series| + 1, today)
    ensures SeriesTotal(series) <= |stamps|
  {
    var lo := today - |series| + 1;
    SeriesTotalIsSum(series, stamps, lo, |series|);
    assert series[..|series|] == series;
    SumOverDaysIsWindowCount(stamps, lo, |series|);
    CountInWindowBound(stamps, lo, today);
  }

  // ---------------------------------------------------------------------------
  // _basic_analyze
  // ---------------------------------------------------------------------------

  datatype Volume =
    | Quiet     // "sem variação (baixa cobertura)"
    | Rising    // "em alta"
    | Falling   // "em baixa"
    | Steady    // "estável"

  datatype Baseline = Baseline(vals: seq<int>, last: int, meanPrev: real, change: int, momentum: int, volume: Volume)

  function Sum(s: seq<int>): int {
    if s == [] then 0 else Sum(s[..|s| - 1]) + s[|s| - 1]
  }

  /** The four-way volume label: quiet when both the previous mean and the
      last value are zero, rising above 125% of the previous mean, falling
      below 75% of it, steady otherwise. */
  function VolumeLabel(last: int, meanPrev: real): (v: Volume)
    ensures v == Quiet <==> meanPrev == 0.0 && last == 0
    ensures v == Rising <==> !(meanPrev == 0.0 && last == 0) && last as real > meanPrev * 1.25
    ensures v == Falling <==> !(meanPrev == 0.0 && last == 0) && last as real <= meanPrev * 1.25 && last as real < meanPrev * 0.75
    ensures v == Steady <==> !(meanPrev == 0.0 && last == 0) && meanPrev * 0.75 <= last as real <= meanPrev * 1.25
  {
    if meanPrev == 0.0 && last == 0 then Quiet
    else if last as real > meanPrev * 1.25 then Rising
    else if last as real < meanPrev * 0.75 then Falling
    else Steady
  }

  /** `sum(prev) / max(1, len(prev))`: the mean of every value but the last,
      0 when there is at most one value. */
  function MeanPrev(counts: seq<int>): (m: real)
    ensures |counts| >= 2 ==> m * (|counts| - 1) as real == Sum(counts[..|counts| - 1]) as real
    ensures |counts| < 2 ==> m == 0.0
  {
    if |counts| >= 2 then Sum(counts[..|counts| - 1]) as real / (|counts| - 1) as real else 0.0
  }

  /** `_basic_analyze(series)` on the counts of the series. An empty series
      reads as `[0]` and a missing predecessor as 0. */
  function BasicAnalyze(counts: seq<int>): (b: Baseline)
    ensures b.vals == if counts == [] then [0] else counts
    ensures b.last == b.vals[|b.vals| - 1]
    ensures b.change == b.last - (if |counts| >= 2 then counts[|counts| - 2] else 0)
    ensures |counts| >= 2 ==> b.meanPrev * (|counts| - 1) as real == Sum(counts[..|counts| - 1]) as real
    ensures |counts| < 2 ==> b.meanPrev == 0.0
    ensures b.meanPrev == MeanPrev(counts)
    ensures b.momentum == b.change - (if |counts| >= 3 then counts[|counts| - 2] - counts[|counts| - 3] else 0)
    ensures b.volume == VolumeLabel(b.last, b.meanPrev)
  {
    var vals := if counts == [] then [0] else counts;
    var last := vals[|vals| - 1];
    var prev := if |vals| > 1 then vals[..|vals| - 1] else [0];
    var meanPrev := MeanPrev(counts);
    var change := last - prev[|prev| - 1];
    var momentum := change - (if |prev| > 1 then prev[|prev| - 1] - prev[|prev| - 2] else 0);
    Baseline(vals, last, meanPrev, change, momentum, VolumeLabel(last, meanPrev))
  }

  lemma CastMul(a: int, b: int)
    ensures (a * b) as real == a as real * b as real
  {
  }

  lemma CancelFactor(x: real, y: real, m: real)
    requires m > 0.0 && x * m == y * m
    ensures x == y
  {
    assert (x - y) * m == 0.0;
  }

  lemma {:induction false} SumConstant(s: seq<int>, c: int)
    requires forall i :: 0 <= i < |s| ==> s[i] == c
    ensures Sum(s) == |s| * c
  {
    if s != [] {
      SumConstant(s[..|s| - 1], c);
    }
  }

  /** A flat non-zero series is "estável": its last value equals the mean
      of the earlier ones, and neither the change nor the momentum moves. */
  lemma FlatSeriesIsSteady(counts: seq<int>, c: int)
    requires |counts| >= 2 && c > 0
    requires forall i :: 0 <= i < |counts| ==> counts[i] == c
    ensures MeanPrev(counts) == c as real
    ensures BasicAnalyze(counts).volume == Steady
    ensures BasicAnalyze(counts).change == 0 && BasicAnalyze(counts).momentum == 0
  {
    var m := |counts| - 1;
    SumConstant(counts[..m], c);
    CastMul(m, c);
    assert MeanPrev(counts) * m as real == c as real * m as real;
    CancelFactor(MeanPrev(counts), c as real, m as real);
  }

  // ---------------------------------------------------------------------------
  // _trend_confidence
  // ---------------------------------------------------------------------------

  datatype Confidence = Low | Medium | High  // "Baixa", "Média", "Alta"

  /** "Alta" above 0.66, "Baixa" below 0.33, "Média" otherwise. */
  function ConfidenceLabel(score: real): (c: Confidence)
    ensures c == High <==> score > 0.66
    ensures c == Low <==> score < 0.33
    ensures c == Medium <==> 0.33 <= score <= 0.66
  {
    if score > 0.66 then High else if score < 0.33 then Low else Medium
  }

  /** `0 + 1 + ... + (n - 1)`. */
  function SumIdx(n: nat): nat {
    if n == 0 then 0 else SumIdx(n - 1) + (n - 1)
  }

  /** `sum((x[i] - mx) * (vals[i] - my) for i < k)`. */
  function CoSum(vals: seq<int>, mx: real, my: real, k: nat): real
    requires k <= |vals|
  {
    if k == 0 then 0.0
    else CoSum(vals, mx, my, k - 1) + ((k - 1) as real - mx) * (vals[k - 1] as real - my)
  }

  /** `sum((x[i] - mx) ** 2 for i < k)`. */
  function SqSum(mx: real, k: nat): real {
    if k == 0 then 0.0 else SqSum(mx, k - 1) + ((k - 1) as real - mx) * ((k - 1) as real - mx)
  }

  function MeanX(n: nat): real
    requires n > 0
  {
    SumIdx(n) as real / n as real
  }

  function MeanY(vals: seq<int>): real
    requires |vals| > 0
  {
    Sum(vals) as real / |vals| as real
  }

  /** The denominator as written, `sum(...) or 1`. */
  function Denominator(n: nat): real
    requires n > 0
  {
    var d := SqSum(MeanX(n), n);
    if d == 0.0 then 1.0 else d
  }

  /** The ordinary-least-squares slope of `vals` against `0 .. n-1`. */
  function Slope(vals: seq<int>): (b: real)
    requires |vals| >= 2
    ensures b * SqSum(MeanX(|vals|), |vals|) == CoSum(vals, MeanX(|vals|), MeanY(vals), |vals|)
  {
    DenominatorIsPositive(|vals|);
    CoSum(vals, MeanX(|vals|), MeanY(vals), |vals|) / Denominator(|vals|)
  }

  lemma {:induction false} SqSumGrows(mx: real, k: nat)
    requires k >= 1
    ensures SqSum(mx, k) >= mx * mx
  {
    var x := (k - 1) as real - mx;
    assert x * x >= 0.0;
    if k > 1 {
      SqSumGrows(mx, k - 1);
    } else {
      assert x * x == mx * mx;
    }
  }

  lemma {:induction false} SumIdxAtLeast(n: nat)
    requires n >= 2
    ensures SumIdx(n) >= 1
  {
    if n > 2 {
      SumIdxAtLeast(n - 1);
    }
  }

  /** With two or more points the squared deviations of the indices sum to a
      positive number, so the `or 1` fallback is never taken. */
  lemma DenominatorIsPositive(n: nat)
    requires n >= 2
    ensures SqSum(MeanX(n), n) > 0.0
    ensures Denominator(n) == SqSum(MeanX(n), n)
  {
    SumIdxAtLeast(n);
    var mx := MeanX(n);
    assert mx > 0.0;
    SqSumGrows(mx, n);
  }

  datatype Trend = Trend(slope: real, pct: real, lastDelta: int, score: real, level: Confidence)

  /** The percent change from the first value to the last; 0 when the first
      value is 0. */
  function PercentChange(first: int, last: int): (pct: real)
    ensures first == 0 ==> pct == 0.0
    ensures first != 0 ==> pct * first as real == (last - first) as real * 100.0
  {
    if first != 0 then (last - first) as real / first as real * 100.0 else 0.0
  }

  /** `_trend_confidence(vals)`. `score` is the sigmoid of the slope over the
      population standard deviation, computed in floating point by the source
      and taken here as given. Fewer than two values give the neutral
      answer (0, 0, 0, 0.5, "Média"). */
  function TrendConfidence(vals: seq<int>, score: real): (t: Trend)
    ensures |vals| < 2 ==> t == Trend(0.0, 0.0, 0, 0.5, Medium)
    ensures |vals| >= 2 ==>
      && t.slope * SqSum(MeanX(|vals|), |vals|) == CoSum(vals, MeanX(|vals|), MeanY(vals), |vals|)
      && (vals[0] == 0 ==> t.pct == 0.0)
      && (vals[0] > 0 ==> (t.pct > 0.0 <==> vals[|vals| - 1] > vals[0]))
      && t.pct == PercentChange(vals[0], vals[|vals| - 1])
      && t.lastDelta == vals[|vals| - 1] - vals[|vals| - 2]
      && t.score == score
      && t.level == ConfidenceLabel(score)
  {
    if |vals| < 2 then Trend(0.0, 0.0, 0, 0.5, Medium)
    else
      DenominatorIsPositive(|vals|);
      var first, last := vals[0], vals[|vals| - 1];
      Trend(Slope(vals), PercentChange(first, last), last - vals[|vals| - 2], score, ConfidenceLabel(score))
  }

  /** The sum of an arithmetic progression `a + d*i`, i < k. */
  lemma {:induction false} SumOfProgression(vals: seq<int>, a: int, d: int, k: nat)
    requires k <= |vals|
    requires forall i :: 0 <= i < |vals| ==> vals[i] == a + d * i
    ensures Sum(vals[..k]) == k * a + d * SumIdx(k)
  {
    if k > 0 {
      assert vals[..k][..k - 1] == vals[..k - 1];
      SumOfProgression(vals, a, d, k - 1);
      assert d * SumIdx(k) == d * SumIdx(k - 1) + d * (k - 1);
    }
  }

  lemma {:induction false} CoSumOfProgression(vals: seq<int>, a: int, d: int, mx: real, my: real, k: nat)
    requires k <= |vals|
    requires forall i :: 0 <= i < |vals| ==> vals[i] == a + d * i
    requires my == a as real + d as real * mx
    ensures CoSum(vals, mx, my, k) == d as real * SqSum(mx, k)
  {
    if k > 0 {
      CoSumOfProgression(vals, a, d, mx, my, k - 1);
      var x, dr := (k - 1) as real - mx, d as real;
      assert vals[k - 1] == a + d * (k - 1);
      CastMul(d, k - 1);
      AffineDiff(a as real, dr, (k - 1) as real, mx);
      ProgressionStep(CoSum(vals, mx, my, k - 1), SqSum(mx, k - 1), x, dr);
    }
  }

  lemma AffineDiff(ar: real, dr: real, t: real, mx: real)
    ensures (ar + dr * t) - (ar + dr * mx) == dr * (t - mx)
  {
  }

  lemma ProgressionStep(co: real, sq: real, x: real, dr: real)
    requires co == dr * sq
    ensures co + x * (dr * x) == dr * (sq + x * x)
  {
  }

  lemma MeanOfAffine(nr: real, ar: real, dr: real, sr: real)
    requires nr > 0.0
    ensures (nr * ar + dr * sr) / nr == ar + dr * (sr / nr)
  {
  }

  lemma MeanYOfProgression(vals: seq<int>, a: int, d: int)
    requires |vals| >= 1
    requires forall i :: 0 <= i < |vals| ==> vals[i] == a + d * i
    ensures MeanY(vals) == a as real + d as real * MeanX(|vals|)
  {
    var n := |vals|;
    SumOfProgression(vals, a, d, n);
    assert vals[..n] == vals;
    CastMul(n, a);
    CastMul(d, SumIdx(n));
    assert Sum(vals) as real == n as real * a as real + d as real * SumIdx(n) as real;
    MeanOfAffine(n as real, a as real, d as real, SumIdx(n) as real);
  }

  lemma Quotient(co: real, sq: real, d: real)
    requires sq != 0.0 && co == d * sq
    ensures co / sq == d
  {
  }

  /** The slope of an arithmetic progression is its common difference; in
      particular a constant series has slope 0. */
  lemma SlopeOfProgression(vals: seq<int>, a: int, d: int)
    requires |vals| >= 2
    requires forall i :: 0 <= i < |vals| ==> vals[i] == a + d * i
    ensures Slope(vals) == d as real
  {
    var n := |vals|;
    MeanYOfProgression(vals, a, d);
    CoSumOfProgression(vals, a, d, MeanX(n), MeanY(vals), n);
    SlopeFromCoSum(vals, d as real);
  }

  lemma SlopeFromCoSum(vals: seq<int>, d: real)
    requires |vals| >= 2
    requires CoSum(vals, MeanX(|vals|), MeanY(vals), |vals|) == d * SqSum(MeanX(|vals|), |vals|)
    ensures Slope(vals) == d
  {
    var n := |vals|;
    var mx := MeanX(n);
    var sq, co := SqSum(mx, n), CoSum(vals, mx, MeanY(vals), n);
    assert Slope(vals) == co / sq by {
      DenominatorIsPositive(n);
    }
    Quotient(co, sq, d);
  }

  /** A constant series has slope 0. */
  lemma SlopeOfConstant(vals: seq<int>, c: int)
    requires |vals| >= 2
    requires forall i :: 0 <= i < |vals| ==> vals[i] == c
    ensures Slope(vals) == 0.0
  {
    SlopeOfProgression(vals, c, 0);
  }
}
