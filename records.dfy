/** One row of the workout log, after the seven-column projection of `read_data`. */
module Records {
  import opened Common

  /** A calendar date as a proleptic Gregorian day ordinal: day 1 is Monday
      0001-01-01, so day 0 and every multiple of 7 is a Sunday. */
  type Date = int

  /** One logged set. Weight, Reps and Sets may be missing in the raw log;
      Notes may be missing and is carried along unused. */
  datatype Record = Record(
    date: Date,
    workoutName: string,
    exerciseName: string,
    weight: Option<real>,
    reps: Option<real>,
    sets: Option<real>,
    notes: Option<string>)

  /** The three numeric columns that `read_data` imputes. */
  datatype Column = Weight | Reps | Sets

  /** The cell of column `c`. */
  function Get(r: Record, c: Column): Option<real>
  {
    match c
    case Weight => r.weight
    case Reps => r.reps
    case Sets => r.sets
  }

  /** The row with cell `c` replaced by `v`; every other field is kept. */
  function Put(r: Record, c: Column, v: Option<real>): (r': Record)
    ensures Get(r', c) == v
    ensures forall c' :: c' != c ==> Get(r', c') == Get(r, c')
    ensures r'.date == r.date && r'.workoutName == r.workoutName
    ensures r'.exerciseName == r.exerciseName && r'.notes == r.notes
  {
    match c
    case Weight => r.(weight := v)
    case Reps => r.(reps := v)
    case Sets => r.(sets := v)
  }

  /** Ordered by date, earliest first. */
  predicate DateSorted(rows: seq<Record>)
  {
    forall i, j :: 0 <= i < j < |rows| ==> rows[i].date <= rows[j].date
  }

  /** The Date column. */
  function Dates(rows: seq<Record>): (ds: seq<Date>)
    ensures |ds| == |rows|
    ensures forall i :: 0 <= i < |rows| ==> ds[i] == rows[i].date
  {
    seq(|rows|, i requires 0 <= i < |rows| => rows[i].date)
  }

  /** The latest date of a non-empty table. */
  function MaxDate(rows: seq<Record>): (m: Date)
    requires rows != []
    ensures exists i :: 0 <= i < |rows| && rows[i].date == m
    ensures forall i :: 0 <= i < |rows| ==> rows[i].date <= m
    decreases |rows|
  {
    if |rows| == 1 then rows[0].date
    else
      var rest := MaxDate(rows[1..]);
      assert forall i :: 1 <= i < |rows| ==> rows[i] == rows[1..][i - 1];
      if rows[0].date >= rest then rows[0].date else rest
  }

  /** The earliest date of a non-empty table. */
  function MinDate(rows: seq<Record>): (m: Date)
    requires rows != []
    ensures exists i :: 0 <= i < |rows| && rows[i].date == m
    ensures forall i :: 0 <= i < |rows| ==> m <= rows[i].date
    decreases |rows|
  {
    if |rows| == 1 then rows[0].date
    else
      var rest := MinDate(rows[1..]);
      assert forall i :: 1 <= i < |rows| ==> rows[i] == rows[1..][i - 1];
      if rows[0].date <= rest then rows[0].date else rest
  }
}
