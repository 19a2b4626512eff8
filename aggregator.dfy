/** The Exercise Aggregator: the computation inside `plot_metric_over_time`,
    without the figure it draws. It groups the table by exercise, keeps the
    exercises logged often enough, optionally keeps only each exercise's
    recent rows, applies the metric and reduces to one maximum per date. */
module Aggregator {
  import opened Common
  import opened Records
  import opened Metrics

  // ---------------------------------------------------------------------
  // Per-date maximum of the metric, missing values skipped
  // ---------------------------------------------------------------------

  /** The larger of two cells; a missing cell is skipped, as `max` skips NaN. */
  function MaxCell(a: Option<real>, b: Option<real>): Option<real>
  {
    if a.None? then b
    else if b.None? then a
    else Some(if a.value >= b.value then a.value else b.value)
  }

  /** The largest present value among the rows dated `d`; missing when there is none. */
  function MaxOn(dates: seq<Date>, vals: seq<Option<real>>, d: Date): (m: Option<real>)
    requires |dates| == |vals|
    ensures m.None? <==> forall i :: 0 <= i < |dates| && dates[i] == d ==> vals[i].None?
    ensures m.Some? ==> exists i :: 0 <= i < |dates| && dates[i] == d && vals[i] == m
    ensures forall i :: 0 <= i < |dates| && dates[i] == d && vals[i].Some? ==>
      m.Some? && vals[i].value <= m.value
    decreases |dates|
  {
    if dates == [] then None
    else
      var rest := MaxOn(dates[1..], vals[1..], d);
      assert forall i :: 1 <= i < |dates| ==> dates[i] == dates[1..][i - 1] && vals[i] == vals[1..][i - 1];
      assert rest.Some? ==> exists i :: 1 <= i < |dates| && dates[i] == d && vals[i] == rest;
      if dates[0] == d then MaxCell(vals[0], rest) else rest
  }

  function InsertDistinct(x: int, s: seq<int>): (r: seq<int>)
    requires StrictlyIncreasing(s)
    ensures StrictlyIncreasing(r)
    ensures forall y :: y in r <==> y in s || y == x
    ensures r != [] && r[0] == if s == [] || x <= s[0] then x else s[0]
    decreases |s|
  {
    if s == [] || x < s[0] then [x] + s
    else if x == s[0] then s
    else
      assert s == [s[0]] + s[1..];
      var t := InsertDistinct(x, s[1..]);
      assert forall k :: 0 < k < |t| ==> t[0] < t[k];
      [s[0]] + t
  }

  /** The distinct values of `s` in ascending order (the sorted group keys). */
  function DistinctSorted(s: seq<int>): (r: seq<int>)
    ensures StrictlyIncreasing(r)
    ensures forall y :: y in r <==> y in s
    decreases |s|
  {
    if s == [] then []
    else
      assert s == s[..|s| - 1] + [s[|s| - 1]];
      InsertDistinct(s[|s| - 1], DistinctSorted(s[..|s| - 1]))
  }

  /** One point of a metric series. */
  datatype Point = Point(date: Date, value: Option<real>)

  /** The dates of a series, in order. */
  function SeriesDates(series: seq<Point>): (ds: seq<Date>)
    ensures |ds| == |series|
    ensures forall k :: 0 <= k < |series| ==> ds[k] == series[k].date
  {
    seq(|series|, k requires 0 <= k < |series| => series[k].date)
  }

  /** Grouping by date and taking the maximum: one point per distinct date, in
      ascending date order, carrying that date's largest metric value. */
  function MaxPerDate(dates: seq<Date>, vals: seq<Option<real>>): (series: seq<Point>)
    requires |dates| == |vals|
    ensures forall k, l :: 0 <= k < l < |series| ==> series[k].date < series[l].date
    ensures forall d :: d in dates <==> d in SeriesDates(series)
    ensures forall k :: 0 <= k < |series| ==> series[k].value == MaxOn(dates, vals, series[k].date)
  {
    var keys := DistinctSorted(dates);
    var series := seq(|keys|, k requires 0 <= k < |keys| => Point(keys[k], MaxOn(dates, vals, keys[k])));
    assert SeriesDates(series) == keys;
    series
  }

  /** Each point's value is at least every value logged on its date and is
      one of them; it is missing only when every value on that date is.
      This adds no proof of its own: it puts in one statement, about the
      series' points, what the contracts of `MaxPerDate` and `MaxOn` give
      separately, and it is the statement the per-date maximum is cited by. */
  lemma MaxPerDateIsMaximum(dates: seq<Date>, vals: seq<Option<real>>, k: int)
    requires |dates| == |vals|
    requires 0 <= k < |MaxPerDate(dates, vals)|
    ensures var p := MaxPerDate(dates, vals)[k];
      && (forall i :: 0 <= i < |dates| && dates[i] == p.date && vals[i].Some? ==>
            p.value.Some? && vals[i].value <= p.value.value)
      && (p.value.Some? ==> exists i :: 0 <= i < |dates| && dates[i] == p.date && vals[i] == p.value)
      && (p.value.None? ==> forall i :: 0 <= i < |dates| && dates[i] == p.date ==> vals[i].None?)
  {
  }

  // ---------------------------------------------------------------------
  // Grouping and filtering
  // ---------------------------------------------------------------------

  /** The rows of one exercise, in table order. */
  function ExerciseGroup(df: seq<Record>, name: string): (g: seq<Record>)
    ensures |g| <= |df|
    ensures forall i :: 0 <= i < |g| ==> g[i].exerciseName == name
  {
    FilterPasses(df, Named(name));
    Filter(df, Named(name))
  }

  /** The mask selecting the rows of one exercise. */
  function Named(name: string): Record -> bool
  {
    (r: Record) => r.exerciseName == name
  }

  /** The group keys. */
  function ExerciseNames(df: seq<Record>): set<string>
  {
    set r | r in df :: r.exerciseName
  }

  /** The number of rows of one exercise in the whole table. */
  function GroupSize(df: seq<Record>, name: string): nat
  {
    |ExerciseGroup(df, name)|
  }

  /** The exercises logged at least `minExercises` times. */
  function PopularExercises(df: seq<Record>, minExercises: int): (popular: set<string>)
    ensures popular <= ExerciseNames(df)
    ensures forall name :: name in popular ==> GroupSize(df, name) >= minExercises
  {
    set name | name in ExerciseNames(df) && GroupSize(df, name) >= minExercises
  }

  /** An exercise is kept exactly when it occurs in the table at least
      `minExercises` times, counted before any other filtering; with a
      threshold of at most 1 (the default is 0) every exercise is kept. */
  lemma PopularExercisesCounted(df: seq<Record>, minExercises: int, name: string)
    ensures name in PopularExercises(df, minExercises) <==>
      (exists r :: r in df && r.exerciseName == name) && GroupSize(df, name) >= minExercises
    ensures minExercises <= 1 ==> PopularExercises(df, minExercises) == ExerciseNames(df)
  {
    if minExercises <= 1 {
      forall n | n in ExerciseNames(df) ensures n in PopularExercises(df, minExercises) {
        var r :| r in df && r.exerciseName == n;
        FilterMembership(df, Named(n), r);
      }
    }
  }

  /** The rows that have both a Weight and a Reps value. */
  function DropMissing(g: seq<Record>): (clean: seq<Record>)
    ensures |clean| <= |g|
    ensures forall i :: 0 <= i < |clean| ==> clean[i].weight.Some? && clean[i].reps.Some?
  {
    FilterPasses(g, Measured());
    Filter(g, Measured())
  }

  /** The mask selecting rows with both a Weight and a Reps value. */
  function Measured(): Record -> bool
  {
    (r: Record) => r.weight.Some? && r.reps.Some?
  }

  /** The day window applies only when `last_x_days` is given and non-zero:
      a missing value and 0 both count as false in the source's test. */
  predicate FiltersByDays(lastXDays: Option<int>)
  {
    lastXDays.Some? && lastXDays.value != 0
  }

  /** The mask selecting rows dated on or after the cutoff. */
  function OnOrAfter(cutoff: Date): Record -> bool
  {
    (r: Record) => r.date >= cutoff
  }

  /** The rows dated on or after the cutoff, in order. */
  function KeepFrom(g: seq<Record>, cutoff: Date): (kept: seq<Record>)
    ensures |kept| <= |g|
    ensures forall i :: 0 <= i < |kept| ==> kept[i].date >= cutoff
  {
    FilterPasses(g, OnOrAfter(cutoff));
    Filter(g, OnOrAfter(cutoff))
  }

  /** A row is kept exactly when it is in the group and dated on or after the cutoff. */
  lemma {:induction false} KeepFromMember(g: seq<Record>, cutoff: Date, r: Record)
    ensures r in KeepFrom(g, cutoff) <==> r in g && r.date >= cutoff
  {
    FilterMembership(g, OnOrAfter(cutoff), r);
  }

  /** A cutoff after the latest date keeps nothing. */
  lemma {:induction false} NothingAfterLatest(g: seq<Record>, cutoff: Date)
    requires g != [] && cutoff > MaxDate(g)
    ensures KeepFrom(g, cutoff) == []
  {
    FilterNone(g, OnOrAfter(cutoff));
  }

  /** A cutoff no later than the latest date keeps a row of the latest date. */
  lemma {:induction false} LatestRowKept(g: seq<Record>, cutoff: Date)
    requires g != [] && cutoff <= MaxDate(g)
    ensures exists r :: r in KeepFrom(g, cutoff) && r.date == MaxDate(g)
  {
    var i :| 0 <= i < |g| && g[i].date == MaxDate(g);
    KeepFromMember(g, cutoff, g[i]);
  }

  /** The optional day window: rows no older than `last_x_days` before the group's latest
      date. (On an empty group the latest date is NaT and nothing is kept.) */
  function RecentRows(g: seq<Record>, lastXDays: Option<int>): (recent: seq<Record>)
    ensures |recent| <= |g|
    ensures FiltersByDays(lastXDays) && g != [] ==>
      forall i :: 0 <= i < |recent| ==> recent[i].date >= MaxDate(g) - lastXDays.value
  {
    if FiltersByDays(lastXDays) && g != [] then KeepFrom(g, MaxDate(g) - lastXDays.value)
    else g
  }

  /** Without a day filter nothing is dropped; with one, every kept row is
      within `d` days of the latest date and every such row is kept; a
      positive window always keeps the latest row, a negative one keeps none. */
  lemma {:induction false} RecentRowsWindow(g: seq<Record>, lastXDays: Option<int>)
    ensures !FiltersByDays(lastXDays) ==> RecentRows(g, lastXDays) == g
    ensures FiltersByDays(lastXDays) && g != [] ==>
      forall r :: r in RecentRows(g, lastXDays) <==> r in g && r.date >= MaxDate(g) - lastXDays.value
    ensures FiltersByDays(lastXDays) && g != [] && lastXDays.value > 0 ==>
      exists r :: r in RecentRows(g, lastXDays) && r.date == MaxDate(g)
    ensures FiltersByDays(lastXDays) && lastXDays.value < 0 ==> RecentRows(g, lastXDays) == []
  {
    if FiltersByDays(lastXDays) && g != [] {
      RecentRowsKept(g, lastXDays);
      if lastXDays.value > 0 {
        LatestRowKept(g, MaxDate(g) - lastXDays.value);
      } else {
        NothingAfterLatest(g, MaxDate(g) - lastXDays.value);
      }
    }
  }

  lemma {:induction false} RecentRowsKept(g: seq<Record>, lastXDays: Option<int>)
    requires FiltersByDays(lastXDays) && g != []
    ensures forall r :: r in RecentRows(g, lastXDays) <==> r in g && r.date >= MaxDate(g) - lastXDays.value
  {
    forall r ensures r in RecentRows(g, lastXDays) <==> r in g && r.date >= MaxDate(g) - lastXDays.value {
      KeepFromMember(g, MaxDate(g) - lastXDays.value, r);
    }
  }

  /** The rows of one exercise that reach `metric_func`. */
  function PreparedGroup(df: seq<Record>, name: string, lastXDays: Option<int>): (g: seq<Record>)
    ensures |g| <= |df|
    ensures forall i :: 0 <= i < |g| ==>
      g[i].exerciseName == name && g[i].weight.Some? && g[i].reps.Some?
  {
    var clean := DropMissing(ExerciseGroup(df, name));
    FilterKeeps(ExerciseGroup(df, name), Measured(), Named(name));
    if FiltersByDays(lastXDays) && clean != [] then
      FilterKeeps(clean, OnOrAfter(MaxDate(clean) - lastXDays.value), Plottable(name));
      RecentRows(clean, lastXDays)
    else
      RecentRows(clean, lastXDays)
  }

  /** The rows of exercise `name` with both a Weight and a Reps value. */
  function Plottable(name: string): Record -> bool
  {
    (r: Record) => r.exerciseName == name && r.weight.Some? && r.reps.Some?
  }

  /** The MetricSeries of one exercise. */
  function ExerciseSeries(df: seq<Record>, name: string, metric: Metric, lastXDays: Option<int>): (series: seq<Point>)
    ensures forall k, l :: 0 <= k < l < |series| ==> series[k].date < series[l].date
  {
    var g := PreparedGroup(df, name, lastXDays);
    MaxPerDate(Dates(g), Apply(metric, g))
  }

  /** The series of an exercise has each date of its prepared rows exactly
      once, in ascending order, and no other; with a day filter every date
      is within the window. */
  lemma ExerciseSeriesDates(df: seq<Record>, name: string, metric: Metric, lastXDays: Option<int>)
    ensures var s := ExerciseSeries(df, name, metric, lastXDays);
      var g := PreparedGroup(df, name, lastXDays);
      && (forall k, l :: 0 <= k < l < |s| ==> s[k].date < s[l].date)
      && (forall r :: r in g ==> r.date in SeriesDates(s))
      && (forall k :: 0 <= k < |s| ==> exists r :: r in g && r.date == s[k].date)
  {
    var g := PreparedGroup(df, name, lastXDays);
    var s := ExerciseSeries(df, name, metric, lastXDays);
    forall r | r in g ensures r.date in SeriesDates(s) {
      var i :| 0 <= i < |g| && g[i] == r;
      assert Dates(g)[i] == r.date;
    }
    forall k | 0 <= k < |s| ensures exists r :: r in g && r.date == s[k].date {
      assert SeriesDates(s)[k] == s[k].date;
      assert s[k].date in Dates(g);
      var i :| 0 <= i < |g| && Dates(g)[i] == s[k].date;
      assert g[i] in g;
    }
  }

  /** After the loader has imputed Weight and Reps, dropping the rows that
      lack either removes nothing. */
  lemma DropMissingNoOpOnCleanTable(df: seq<Record>, name: string)
    requires forall r :: r in df ==> r.weight.Some? && r.reps.Some?
    ensures DropMissing(ExerciseGroup(df, name)) == ExerciseGroup(df, name)
  {
    var g := ExerciseGroup(df, name);
    forall i | 0 <= i < |g| ensures g[i].weight.Some? && g[i].reps.Some? {
      FilterMembership(df, Named(name), g[i]);
    }
    FilterAll(g, Measured());
  }

  /** The label of each figure reads the first row of the prepared group
      (its first row), which raises on an empty group. */
  datatype PlotError = EmptyGroup

  /** No kept exercise ends up with an empty group. */
  predicate AllGroupsPlottable(df: seq<Record>, minExercises: int, lastXDays: Option<int>)
  {
    forall name :: name in PopularExercises(df, minExercises) ==> PreparedGroup(df, name, lastXDays) != []
  }

  /** A kept group is empty exactly when no row of the exercise has both
      Weight and Reps, or when a negative day window is given. */
  lemma PlottableExactly(df: seq<Record>, name: string, lastXDays: Option<int>)
    ensures PreparedGroup(df, name, lastXDays) != [] <==>
      DropMissing(ExerciseGroup(df, name)) != [] && !(FiltersByDays(lastXDays) && lastXDays.value < 0)
  {
    RecentRowsWindow(DropMissing(ExerciseGroup(df, name)), lastXDays);
  }

  /** The body of the loop over the kept exercises: `group` is
      reassigned step by step (rows missing Weight or Reps dropped, then the day window), then the metric is
      applied and reduced to its per-date maxima. */
  method GroupMaxMetric(df: seq<Record>, name: string, metric: Metric, lastXDays: Option<int>)
    returns (group: seq<Record>, maxMetric: seq<Point>)
    ensures group == PreparedGroup(df, name, lastXDays)
    ensures maxMetric == ExerciseSeries(df, name, metric, lastXDays)
  {
    group := ExerciseGroup(df, name);
    group := DropMissing(group);
    ghost var complete := group;
    if FiltersByDays(lastXDays) && group != [] {
      var maxDate := MaxDate(group);
      group := KeepFrom(group, maxDate - lastXDays.value);
    }
    assert group == RecentRows(complete, lastXDays);
    var values := Apply(metric, group);
    maxMetric := MaxPerDate(Dates(group), values);
  }

  /** `plot_metric_over_time` without its figures: the series of every kept
      exercise, keyed by exercise name. */
  method MetricOverTime(df: seq<Record>, metric: Metric, minExercises: int, lastXDays: Option<int>)
    returns (result: Result<map<string, seq<Point>>, PlotError>)
    ensures result.Success? <==> AllGroupsPlottable(df, minExercises, lastXDays)
    ensures result.Success? ==> result.value.Keys == PopularExercises(df, minExercises)
    ensures result.Success? ==> forall name :: name in result.value ==>
      result.value[name] == ExerciseSeries(df, name, metric, lastXDays)
  {
    var popular := PopularExercises(df, minExercises);
    var remaining := popular;
    var series: map<string, seq<Point>> := map[];
    while remaining != {}
      invariant remaining <= popular
      invariant series.Keys == popular - remaining
      invariant forall name :: name in series ==> series[name] == ExerciseSeries(df, name, metric, lastXDays)
      invariant forall name :: name in series ==> PreparedGroup(df, name, lastXDays) != []
      decreases remaining
    {
      var name :| name in remaining;
      var group, maxMetric := GroupMaxMetric(df, name, metric, lastXDays);
      if group == [] {
        assert !AllGroupsPlottable(df, minExercises, lastXDays) by {
          assert name in PopularExercises(df, minExercises);
        }
        return Failure(EmptyGroup);
      }
      series := series[name := maxMetric];
      remaining := remaining - {name};
    }
    return Success(series);
  }
}
