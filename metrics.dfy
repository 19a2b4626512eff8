/** The Metric Functions: `calc_best_set`, `calc_total_volume`,
    `calc_max_consecutive_reps` and `calc_one_rep_max`. Each maps the rows of
    one exercise group to one value per row. Arithmetic is exact (`real`);
    a missing operand makes the product missing, as NaN does. */
module Metrics {
  import opened Common
  import opened Records

  /** Product of two cells; missing if either is missing. */
  function Times(a: Option<real>, b: Option<real>): (p: Option<real>)
    ensures p.Some? <==> a.Some? && b.Some?
    ensures p.Some? ==> p.value == a.value * b.value
  {
    if a.Some? && b.Some? then Some(a.value * b.value) else None
  }

  /** `calc_best_set`: Weight * Reps per row. */
  function BestSet(rows: seq<Record>): (r: seq<Option<real>>)
    ensures |r| == |rows|
  {
    seq(|rows|, i requires 0 <= i < |rows| => Times(rows[i].weight, rows[i].reps))
  }

  /** `calc_total_volume`: Weight * Reps * Sets per row. */
  function TotalVolume(rows: seq<Record>): (r: seq<Option<real>>)
    ensures |r| == |rows|
  {
    seq(|rows|, i requires 0 <= i < |rows| => Times(Times(rows[i].weight, rows[i].reps), rows[i].sets))
  }

  /** The Epley-style factor `1 + 0.0333 * reps`. */
  function EpleyFactor(reps: Option<real>): Option<real>
  {
    if reps.Some? then Some(1.0 + 0.0333 * reps.value) else None
  }

  /** `calc_one_rep_max`: Weight * (1 + 0.0333 * Reps) per row. */
  function OneRepMax(rows: seq<Record>): (r: seq<Option<real>>)
    ensures |r| == |rows|
  {
    seq(|rows|, i requires 0 <= i < |rows| => Times(rows[i].weight, EpleyFactor(rows[i].reps)))
  }

  /** The best set is the load of one set: weight times reps, present exactly
      when both are present. */
  lemma BestSetIsLoad(rows: seq<Record>, i: int)
    requires 0 <= i < |rows|
    ensures BestSet(rows)[i].Some? <==> rows[i].weight.Some? && rows[i].reps.Some?
    ensures BestSet(rows)[i].Some? ==>
      BestSet(rows)[i].value == rows[i].weight.value * rows[i].reps.value
  {
  }

  /** Total volume is the best set scaled by the number of sets; with one set
      the two metrics agree. */
  lemma TotalVolumeScalesBestSet(rows: seq<Record>, i: int)
    requires 0 <= i < |rows|
    ensures TotalVolume(rows)[i] == Times(BestSet(rows)[i], rows[i].sets)
    ensures rows[i].sets == Some(1.0) ==> TotalVolume(rows)[i] == BestSet(rows)[i]
  {
  }

  /** The one-rep-max estimate is present exactly when weight and reps are;
      with zero reps it is the weight itself, and for non-negative inputs it
      never falls below the weight and grows with the reps. */
  lemma OneRepMaxEstimate(rows: seq<Record>, i: int)
    requires 0 <= i < |rows|
    ensures OneRepMax(rows)[i].Some? <==> rows[i].weight.Some? && rows[i].reps.Some?
    ensures rows[i].weight.Some? && rows[i].reps == Some(0.0) ==>
      OneRepMax(rows)[i] == rows[i].weight
    ensures OneRepMax(rows)[i].Some? && rows[i].weight.value >= 0.0 && rows[i].reps.value >= 0.0 ==>
      OneRepMax(rows)[i].value >= rows[i].weight.value
  {
    if OneRepMax(rows)[i].Some? {
      var w, n := rows[i].weight.value, rows[i].reps.value;
      assert OneRepMax(rows)[i].value == w * (1.0 + 0.0333 * n) == w + w * 0.0333 * n;
      if w >= 0.0 && n >= 0.0 {
        assert w * 0.0333 * n >= 0.0;
      }
    }
  }

  /** Of two rows, the one with no less weight and no fewer reps has no lower
      one-rep-max estimate (for non-negative weights and reps). */
  lemma OneRepMaxMonotone(rows: seq<Record>, i: int, j: int)
    requires 0 <= i < |rows| && 0 <= j < |rows|
    requires rows[i].weight.Some? && rows[i].reps.Some?
    requires rows[j].weight.Some? && rows[j].reps.Some?
    requires 0.0 <= rows[i].weight.value <= rows[j].weight.value
    requires 0.0 <= rows[i].reps.value <= rows[j].reps.value
    ensures OneRepMax(rows)[i].value <= OneRepMax(rows)[j].value
  {
    var wi, wj := rows[i].weight.value, rows[j].weight.value;
    var fi, fj := 1.0 + 0.0333 * rows[i].reps.value, 1.0 + 0.0333 * rows[j].reps.value;
    assert 1.0 <= fi <= fj;
    assert wi * fi <= wj * fi;
    assert wj * fi <= wj * fj;
  }

  // ---------------------------------------------------------------------
  // `calc_max_consecutive_reps`: the running count of streak openings,
  // kept on rows whose Reps is 1 and zeroed elsewhere
  // ---------------------------------------------------------------------

  /** The Reps column in row order. */
  function RepsColumn(rows: seq<Record>): (reps: seq<Option<real>>)
    ensures |reps| == |rows|
    ensures forall i :: 0 <= i < |rows| ==> reps[i] == rows[i].reps
  {
    seq(|rows|, i requires 0 <= i < |rows| => rows[i].reps)
  }

  /** Whether row j opens a streak: the first row (whose difference is
      NaN), a row whose Reps is not exactly one more than the previous row's,
      or a row where either value is missing. */
  predicate OpensStreak(reps: seq<Option<real>>, j: int)
    requires 0 <= j < |reps|
  {
    j == 0 || !(reps[j].Some? && reps[j - 1].Some? && reps[j].value - reps[j - 1].value == 1.0)
  }

  /** The running sum (`cumsum`) of OpensStreak up to position i. */
  function StreakId(reps: seq<Option<real>>, i: int): (id: int)
    requires 0 <= i < |reps|
    ensures 1 <= id <= i + 1
    decreases i
  {
    (if i == 0 then 0 else StreakId(reps, i - 1)) + (if OpensStreak(reps, i) then 1 else 0)
  }

  /** The positions up to i that open a streak. */
  function Openings(reps: seq<Option<real>>, i: int): set<int>
    requires 0 <= i < |reps|
  {
    set j | 0 <= j <= i && OpensStreak(reps, j)
  }

  /** The running sum counts the openings: StreakId is the number of
      positions j <= i with j == 0 or reps[j] != reps[j - 1] + 1. */
  lemma {:induction false} StreakIdCountsOpenings(reps: seq<Option<real>>, i: int)
    requires 0 <= i < |reps|
    ensures StreakId(reps, i) == |Openings(reps, i)|
    decreases i
  {
    if i == 0 {
      assert Openings(reps, 0) == {0};
    } else {
      StreakIdCountsOpenings(reps, i - 1);
      if OpensStreak(reps, i) {
        assert Openings(reps, i) == Openings(reps, i - 1) + {i};
        assert i !in Openings(reps, i - 1);
      } else {
        assert Openings(reps, i) == Openings(reps, i - 1);
      }
    }
  }

  /** `calc_max_consecutive_reps`: the streak id where Reps is exactly 1, and 0
      elsewhere (a missing Reps is not equal to 1). */
  function MaxConsecutiveReps(rows: seq<Record>): (r: seq<Option<real>>)
    ensures |r| == |rows|
    ensures forall i :: 0 <= i < |rows| ==> r[i].Some? && 0.0 <= r[i].value <= (i + 1) as real
    ensures forall i :: 0 <= i < |rows| ==> (r[i].value == 0.0 <==> rows[i].reps != Some(1.0))
    ensures |rows| > 0 ==> (r[0] == Some(1.0) <==> rows[0].reps == Some(1.0))
  {
    var reps := RepsColumn(rows);
    seq(|rows|, i requires 0 <= i < |rows| =>
      Some(if reps[i] == Some(1.0) then StreakId(reps, i) as real else 0.0))
  }

  /** Each value of `calc_max_consecutive_reps` is the number of streak
      openings so far on a row whose Reps is 1, and 0 on any other row. */
  lemma MaxConsecutiveRepsCountsOpenings(rows: seq<Record>, i: int)
    requires 0 <= i < |rows|
    ensures MaxConsecutiveReps(rows)[i] ==
      Some(if rows[i].reps == Some(1.0) then |Openings(RepsColumn(rows), i)| as real else 0.0)
  {
    StreakIdCountsOpenings(RepsColumn(rows), i);
  }

  /** The metric a caller passes as `metric_func`. */
  datatype Metric = BestSetMetric | TotalVolumeMetric | ConsecutiveRepsMetric | OneRepMaxMetric

  /** The chosen metric applied to a group. */
  function Apply(m: Metric, rows: seq<Record>): (r: seq<Option<real>>)
    ensures |r| == |rows|
  {
    match m
    case BestSetMetric => BestSet(rows)
    case TotalVolumeMetric => TotalVolume(rows)
    case ConsecutiveRepsMetric => MaxConsecutiveReps(rows)
    case OneRepMaxMetric => OneRepMax(rows)
  }
}
