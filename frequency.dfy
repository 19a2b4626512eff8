/** The Frequency Reporter: the computation inside `plot_workouts_per_week`,
    without the bar chart. It keeps the rows of the trailing window of
    `last_x_weeks` weeks, buckets them into weeks that end on a Sunday and
    counts the distinct workout names of each week. */
module Frequency {
  import opened Common
  import opened Records

  /** Day 0, and every seventh day from it, is a Sunday. */
  predicate IsSunday(d: Date)
  {
    d % 7 == 0
  }

  /** The number of the Sunday-ending week that holds day `d`: week `x`
      ends on day `7 * x`, a Sunday. */
  function WeekIndex(d: Date): int
  {
    (d + 6) / 7
  }

  /** The Sunday that closes the week of day `d`: the weekly bins end on
      Sundays, are closed on the right and are labelled by their right edge,
      so a Sunday belongs to the week it ends. */
  function WeekEnd(d: Date): (w: Date)
    ensures d <= w < d + 7
    ensures IsSunday(w)
  {
    7 * WeekIndex(d)
  }

  /** A Sunday ends its own week; and the week index of 7 * x is x. */
  lemma SundayEndsItsWeek(x: int)
    ensures WeekIndex(7 * x) == x && WeekEnd(7 * x) == 7 * x
  {
  }

  lemma WeekIndexMonotone(a: Date, b: Date)
    requires a <= b
    ensures WeekIndex(a) <= WeekIndex(b)
  {
  }

  /** Shifting a day by whole weeks shifts its week by the same number. */
  lemma WeekIndexShift(d: Date, k: int)
    ensures WeekIndex(d + 7 * k) == WeekIndex(d) + k
  {
  }

  /** The mask selecting rows dated from `start` to `end`, both included. */
  function InWindow(start: Date, end: Date): Record -> bool
  {
    (r: Record) => start <= r.date <= end
  }

  /** The trailing window: the rows from `last_x_weeks` weeks before the latest date
      up to the latest date, both ends included. An empty table has no
      latest date and gives no rows. */
  function Window(df: seq<Record>, lastXWeeks: int): (window: seq<Record>)
    ensures |window| <= |df|
    ensures df != [] ==> forall i :: 0 <= i < |window| ==>
      MaxDate(df) - 7 * lastXWeeks <= window[i].date <= MaxDate(df)
  {
    if df == [] then []
    else
      FilterPasses(df, InWindow(MaxDate(df) - 7 * lastXWeeks, MaxDate(df)));
      Filter(df, InWindow(MaxDate(df) - 7 * lastXWeeks, MaxDate(df)))
  }

  /** The mask's lower edge: a row is kept exactly when it is a row of the
      table dated no earlier than `last_x_weeks` weeks before the latest date. */
  lemma WindowStart(df: seq<Record>, lastXWeeks: int, r: Record)
    requires df != []
    ensures r in Window(df, lastXWeeks) <==> r in df && MaxDate(df) - 7 * lastXWeeks <= r.date
  {
    FilterMembership(df, InWindow(MaxDate(df) - 7 * lastXWeeks, MaxDate(df)), r);
  }

  /** A row is in the window exactly when it is a row of the table dated
      from `last_x_weeks` weeks before the latest date up to the latest date. */
  lemma WindowSound(df: seq<Record>, lastXWeeks: int, r: Record)
    requires df != []
    ensures r in Window(df, lastXWeeks) <==>
      r in df && MaxDate(df) - 7 * lastXWeeks <= r.date <= MaxDate(df)
  {
    WindowStart(df, lastXWeeks, r);
    if r in df {
      var i :| 0 <= i < |df| && df[i] == r;
      assert r.date <= MaxDate(df);
    }
  }

  /** Distinct workout names among the rows of the week ending on `w`: never
      more than there are rows. */
  function NamesInWeek(rows: seq<Record>, w: Date): (names: set<string>)
    ensures |names| <= |rows|
  {
    DistinctNamesBound(rows, w);
    set r | r in rows && WeekEnd(r.date) == w :: r.workoutName
  }

  lemma {:induction false} DistinctNamesBound(rows: seq<Record>, w: Date)
    ensures |set r | r in rows && WeekEnd(r.date) == w :: r.workoutName| <= |rows|
    decreases |rows|
  {
    var all := set r | r in rows && WeekEnd(r.date) == w :: r.workoutName;
    if rows == [] {
      assert all == {};
    } else {
      var rest := set r | r in rows[1..] && WeekEnd(r.date) == w :: r.workoutName;
      DistinctNamesBound(rows[1..], w);
      assert rows == [rows[0]] + rows[1..];
      forall x | x in all
        ensures x in rest + {rows[0].workoutName}
      {
        var r :| r in rows && WeekEnd(r.date) == w && r.workoutName == x;
        if r != rows[0] {
          assert r in rows[1..];
        }
      }
      SubsetSize(all, rest + {rows[0].workoutName});
    }
  }

  lemma {:induction false} SubsetSize<T>(a: set<T>, b: set<T>)
    requires a <= b
    ensures |a| <= |b|
    decreases b
  {
    if a != {} {
      var x :| x in a;
      SubsetSize(a - {x}, b - {x});
    }
  }

  /** One bar: the Sunday that ends the week and its number of distinct workouts. */
  datatype WeekCount = WeekCount(weekEnd: Date, workouts: nat)

  /** Weekly counts over the window, in date order: one entry for every
      Sunday-ending week from the week of the earliest window row to the week
      of the latest one, so a week inside that span without rows is reported
      with 0. */
  function WorkoutsPerWeek(df: seq<Record>, lastXWeeks: int): (weeks: seq<WeekCount>)
    ensures forall k :: 0 <= k < |weeks| ==> IsSunday(weeks[k].weekEnd)
    ensures forall k, l :: 0 <= k < l < |weeks| ==> weeks[k].weekEnd < weeks[l].weekEnd
  {
    var window := Window(df, lastXWeeks);
    if window == [] then []
    else
      var first := WeekIndex(MinDate(window));
      var last := WeekIndex(MaxDate(window));
      WeekIndexMonotone(MinDate(window), MaxDate(window));
      WeeksFrom(window, first, last - first + 1)
  }

  /** The counts of `n` consecutive weeks, the first one numbered `first`. */
  function WeeksFrom(rows: seq<Record>, first: int, n: nat): (weeks: seq<WeekCount>)
    ensures |weeks| == n
    ensures forall k :: 0 <= k < n ==> weeks[k].weekEnd == 7 * (first + k)
    ensures forall k :: 0 <= k < n ==> IsSunday(weeks[k].weekEnd)
    ensures forall k, l :: 0 <= k < l < n ==> weeks[k].weekEnd < weeks[l].weekEnd
  {
    seq(n, k requires 0 <= k < n => WeekCount(7 * (first + k), |NamesInWeek(rows, 7 * (first + k))|))
  }

  /** The reported weeks are exactly the consecutive Sunday-ending weeks from
      the week of the earliest window row to the week of the latest one. */
  lemma {:induction false} WeekSpan(df: seq<Record>, lastXWeeks: int, k: int)
    requires 0 <= k < |WorkoutsPerWeek(df, lastXWeeks)|
    ensures Window(df, lastXWeeks) != []
    ensures WorkoutsPerWeek(df, lastXWeeks)[k].weekEnd == WeekEnd(MinDate(Window(df, lastXWeeks))) + 7 * k
    ensures var weeks := WorkoutsPerWeek(df, lastXWeeks);
      weeks[|weeks| - 1].weekEnd == WeekEnd(MaxDate(Window(df, lastXWeeks)))
  {
    var window := Window(df, lastXWeeks);
    var weeks := WorkoutsPerWeek(df, lastXWeeks);
    assert window != [];
    var first := WeekIndex(MinDate(window));
    var last := WeekIndex(MaxDate(window));
    assert weeks[k].weekEnd == 7 * (first + k);
    assert weeks[|weeks| - 1].weekEnd == 7 * (first + (last - first));
  }

  /** Every row of the window is counted: its week is one of the reported
      weeks and its workout name is among that week's distinct names. */
  lemma EveryWindowRowCounted(df: seq<Record>, lastXWeeks: int, r: Record)
    requires r in Window(df, lastXWeeks)
    ensures exists k ::
      && 0 <= k < |WorkoutsPerWeek(df, lastXWeeks)|
      && WorkoutsPerWeek(df, lastXWeeks)[k].weekEnd == WeekEnd(r.date)
      && r.workoutName in NamesInWeek(Window(df, lastXWeeks), WeekEnd(r.date))
  {
    var window := Window(df, lastXWeeks);
    var weeks := WorkoutsPerWeek(df, lastXWeeks);
    var first := WeekIndex(MinDate(window));
    var last := WeekIndex(MaxDate(window));
    var i :| 0 <= i < |window| && window[i] == r;
    WeekIndexMonotone(MinDate(window), r.date);
    WeekIndexMonotone(r.date, MaxDate(window));
    var k := WeekIndex(r.date) - first;
    assert 0 <= k < |weeks|;
    assert weeks[k].weekEnd == WeekEnd(r.date);
  }

  /** A week's count is the number of distinct workout names in it, and it
      is positive exactly when some row of the window falls in that week. */
  lemma WeekCountIsDistinctNames(df: seq<Record>, lastXWeeks: int, k: int)
    requires 0 <= k < |WorkoutsPerWeek(df, lastXWeeks)|
    ensures var wc := WorkoutsPerWeek(df, lastXWeeks)[k];
      var window := Window(df, lastXWeeks);
      && wc.workouts == |NamesInWeek(window, wc.weekEnd)|
      && (wc.workouts > 0 <==> exists r :: r in window && WeekEnd(r.date) == wc.weekEnd)
  {
    var wc := WorkoutsPerWeek(df, lastXWeeks)[k];
    var window := Window(df, lastXWeeks);
    var names := NamesInWeek(window, wc.weekEnd);
    if exists r :: r in window && WeekEnd(r.date) == wc.weekEnd {
      var r :| r in window && WeekEnd(r.date) == wc.weekEnd;
      assert r.workoutName in names;
    }
    if |names| > 0 {
      var nm :| nm in names;
    }
  }

  /** The window spans at most `last_x_weeks` + 1 Sunday-ending weeks (a
      window that starts and ends mid-week touches one week more than its
      length), and a negative `last_x_weeks` gives no week at all. */
  lemma WeekCountBound(df: seq<Record>, lastXWeeks: int)
    ensures lastXWeeks >= 0 ==> |WorkoutsPerWeek(df, lastXWeeks)| <= lastXWeeks + 1
    ensures lastXWeeks < 0 ==> WorkoutsPerWeek(df, lastXWeeks) == []
  {
    var window := Window(df, lastXWeeks);
    if df != [] {
      var end := MaxDate(df);
      var start := end - 7 * lastXWeeks;
      if lastXWeeks < 0 {
        FilterNone(df, InWindow(start, end));
      } else if window != [] {
        var i :| 0 <= i < |window| && window[i].date == MinDate(window);
        WindowSound(df, lastXWeeks, window[i]);
        var j :| 0 <= j < |window| && window[j].date == MaxDate(window);
        WindowSound(df, lastXWeeks, window[j]);
        WeekIndexMonotone(start, MinDate(window));
        WeekIndexShift(end, -lastXWeeks);
        WeekIndexMonotone(MaxDate(window), end);
      }
    }
  }

  /** With `last_x_weeks` = 1, a log with one Monday and the next Monday
      reports two weeks, so the bound above is reached; and the last week is
      labelled by the Sunday after the latest date, outside the window. */
  lemma WindowCanTouchExtraWeek()
    ensures
      var df := [Record(1, "A", "Squat", Some(100.0), Some(5.0), Some(3.0), None),
                 Record(8, "A", "Squat", Some(100.0), Some(5.0), Some(3.0), None)];
      var weeks := WorkoutsPerWeek(df, 1);
      && |weeks| == 2
      && weeks[0].weekEnd == 7 && weeks[1].weekEnd == 14
      && weeks[1].weekEnd > MaxDate(df)
  {
    var df := [Record(1, "A", "Squat", Some(100.0), Some(5.0), Some(3.0), None),
               Record(8, "A", "Squat", Some(100.0), Some(5.0), Some(3.0), None)];
    assert MaxDate(df) == 8;
    FilterAll(df, InWindow(1, 8));
    var window := Window(df, 1);
    assert window == df;
    assert MinDate(window) == 1;
    assert WeekIndex(1) == 1 && WeekIndex(8) == 2;
  }
}
