/** The Record Loader: `read_data` after the CSV has been parsed. It fills
    missing Weight, Reps and Sets with the column median of the whole input,
    drops exact-duplicate rows and sorts by date, mutating one table in place. */
module Loader {
  import opened Common
  import opened Records

  // ---------------------------------------------------------------------
  // Median of a column, missing cells skipped
  // ---------------------------------------------------------------------

  predicate Ascending(s: seq<real>)
  {
    forall i, j :: 0 <= i < j < |s| ==> s[i] <= s[j]
  }

  function InsertReal(x: real, s: seq<real>): (r: seq<real>)
    requires Ascending(s)
    ensures Ascending(r)
    ensures multiset(r) == multiset(s) + multiset{x}
    ensures r != [] && r[0] == if s == [] || x <= s[0] then x else s[0]
    decreases |s|
  {
    if s == [] || x <= s[0] then
      PrependAscending(x, s);
      [x] + s
    else
      AscendingTail(s);
      var t := InsertReal(x, s[1..]);
      assert s == [s[0]] + s[1..];
      PrependAscending(s[0], t);
      [s[0]] + t
  }

  /** A value no larger than the head of an ascending sequence can go in front. */
  lemma PrependAscending(h: real, t: seq<real>)
    requires Ascending(t)
    requires t != [] ==> h <= t[0]
    ensures Ascending([h] + t)
  {
    forall i, j | 0 <= i < j < |t| + 1 ensures ([h] + t)[i] <= ([h] + t)[j] {
      if i > 0 {
        assert ([h] + t)[i] == t[i - 1];
      }
      assert ([h] + t)[j] == t[j - 1];
      assert t[0] <= t[j - 1];
    }
  }

  /** The values in ascending order (insertion sort). */
  function SortReals(xs: seq<real>): (r: seq<real>)
    ensures Ascending(r)
    ensures multiset(r) == multiset(xs)
    decreases |xs|
  {
    if xs == [] then []
    else
      assert xs == xs[..|xs| - 1] + [xs[|xs| - 1]];
      InsertReal(xs[|xs| - 1], SortReals(xs[..|xs| - 1]))
  }

  /** Two ascending arrangements of the same values are the same sequence. */
  lemma {:induction false} AscendingUnique(a: seq<real>, b: seq<real>)
    requires Ascending(a) && Ascending(b)
    requires multiset(a) == multiset(b)
    ensures a == b
    decreases |a|
  {
    if a == [] {
      assert |b| == |multiset(b)| == 0;
    } else {
      HeadsAgree(a, b);
      AscendingTail(a);
      AscendingTail(b);
      AscendingUnique(a[1..], b[1..]);
      assert a == [a[0]] + a[1..] && b == [b[0]] + b[1..];
    }
  }

  /** Two ascending arrangements of the same values start with the same
      value, and what follows holds the same values. */
  lemma HeadsAgree(a: seq<real>, b: seq<real>)
    requires Ascending(a) && Ascending(b)
    requires multiset(a) == multiset(b) && a != []
    ensures b != [] && a[0] == b[0]
    ensures multiset(a[1..]) == multiset(b[1..])
  {
    assert |a| == |multiset(a)| == |multiset(b)| == |b|;
    assert a[0] in multiset(b) && b[0] in multiset(a) by {
      assert a[0] in a && b[0] in b;
    }
    HeadIsLeast(b, a[0]);
    HeadIsLeast(a, b[0]);
    TailMultiset(a);
    TailMultiset(b);
  }

  lemma HeadIsLeast(s: seq<real>, x: real)
    requires Ascending(s) && x in multiset(s)
    ensures s[0] <= x
  {
    var k :| 0 <= k < |s| && s[k] == x;
  }

  /** Dropping the head removes one copy of it from the multiset. */
  lemma TailMultiset(s: seq<real>)
    requires s != []
    ensures multiset(s[1..]) == multiset(s) - multiset{s[0]}
  {
    assert s == [s[0]] + s[1..];
  }

  lemma AscendingTail(s: seq<real>)
    requires Ascending(s) && s != []
    ensures Ascending(s[1..])
  {
    forall i, j | 0 <= i < j < |s| - 1 ensures s[1..][i] <= s[1..][j] {
      assert s[1..][i] == s[i + 1] && s[1..][j] == s[j + 1];
    }
  }

  /** The middle value of an ascending sequence; for an even count the mean
      of the two middle values. */
  function MiddleOf(s: seq<real>): real
    requires s != []
  {
    var n := |s|;
    if n % 2 == 1 then s[n / 2] else (s[n / 2 - 1] + s[n / 2]) / 2.0
  }

  /** The median of the present values: None when there are none. */
  function Median(xs: seq<real>): (m: Option<real>)
    ensures m.Some? <==> xs != []
  {
    if xs == [] then None
    else
      var s := SortReals(xs);
      assert |s| == |multiset(s)| == |multiset(xs)| == |xs|;
      Some(MiddleOf(s))
  }

  /** The median lies between two of the values (the two middle ones). */
  lemma MedianWithinValues(xs: seq<real>)
    requires xs != []
    ensures exists i :: 0 <= i < |xs| && xs[i] <= Median(xs).value
    ensures exists i :: 0 <= i < |xs| && Median(xs).value <= xs[i]
  {
    var s := SortReals(xs);
    assert |s| == |multiset(s)| == |multiset(xs)| == |xs|;
    assert Median(xs).value == MiddleOf(s);
    var lo, hi := MiddleBetween(s);
    var i := SameValuesIndex(s, xs, lo);
    var j := SameValuesIndex(s, xs, hi);
    assert xs[i] <= Median(xs).value <= xs[j];
  }

  /** The two middle values of an ascending sequence bound its middle. */
  lemma MiddleBetween(s: seq<real>) returns (lo: int, hi: int)
    requires Ascending(s) && s != []
    ensures 0 <= lo <= hi < |s|
    ensures s[lo] <= MiddleOf(s) <= s[hi]
  {
    lo, hi := (|s| - 1) / 2, |s| / 2;
    assert s[lo] <= s[hi];
  }

  /** A position of `s` holds a value that `t`, with the same values, also holds. */
  lemma SameValuesIndex(s: seq<real>, t: seq<real>, k: int) returns (i: int)
    requires multiset(s) == multiset(t) && 0 <= k < |s|
    ensures 0 <= i < |t| && t[i] == s[k]
  {
    assert s[k] in multiset(t) by {
      assert s[k] in s;
    }
    i :| 0 <= i < |t| && t[i] == s[k];
  }

  /** The median is the middle of ANY ascending arrangement of the values,
      so it does not depend on the order of the rows. */
  lemma MedianIsMiddle(xs: seq<real>, s: seq<real>)
    requires Ascending(s) && multiset(s) == multiset(xs) && xs != []
    ensures s != [] && Median(xs) == Some(MiddleOf(s))
  {
    assert |s| == |multiset(s)| == |multiset(xs)| == |xs|;
    AscendingUnique(SortReals(xs), s);
  }

  lemma MedianOrderIndependent(xs: seq<real>, ys: seq<real>)
    requires multiset(xs) == multiset(ys)
    ensures Median(xs) == Median(ys)
  {
    if xs != [] {
      assert |xs| == |multiset(xs)| == |multiset(ys)| == |ys|;
      MedianIsMiddle(xs, SortReals(ys));
      MedianIsMiddle(ys, SortReals(ys));
    }
  }

  /** Some row has a value in column `c`. */
  predicate HasValue(rows: seq<Record>, c: Column)
  {
    exists i :: 0 <= i < |rows| && Get(rows[i], c).Some?
  }

  /** The present values of column `c`, in row order. */
  function ColumnValues(rows: seq<Record>, c: Column): (vs: seq<real>)
    ensures vs == [] <==> !HasValue(rows, c)
    ensures |vs| <= |rows|
    decreases |rows|
  {
    if rows == [] then []
    else
      var rest := ColumnValues(rows[1..], c);
      assert forall i :: 1 <= i < |rows| ==> rows[i] == rows[1..][i - 1];
      assert HasValue(rows[1..], c) ==> HasValue(rows, c);
      match Get(rows[0], c)
      case Some(v) => [v] + rest
      case None => rest
  }

  /** The values of column `c` are exactly its present cells. */
  lemma {:induction false} ColumnValuesPresent(rows: seq<Record>, c: Column, v: real)
    ensures v in ColumnValues(rows, c) <==> exists i :: 0 <= i < |rows| && Get(rows[i], c) == Some(v)
    decreases |rows|
  {
    if rows != [] {
      ColumnValuesPresent(rows[1..], c, v);
      if exists i :: 0 <= i < |rows| && Get(rows[i], c) == Some(v) {
        var i :| 0 <= i < |rows| && Get(rows[i], c) == Some(v);
        if i > 0 {
          assert Get(rows[1..][i - 1], c) == Some(v);
        }
      }
      if exists i :: 0 <= i < |rows[1..]| && Get(rows[1..][i], c) == Some(v) {
        var i :| 0 <= i < |rows[1..]| && Get(rows[1..][i], c) == Some(v);
        assert Get(rows[i + 1], c) == Some(v);
      }
    }
  }

  /** The median of column `c`, missing cells skipped. */
  function ColumnMedian(rows: seq<Record>, c: Column): (m: Option<real>)
    ensures m.Some? <==> HasValue(rows, c)
  {
    Median(ColumnValues(rows, c))
  }

  // ---------------------------------------------------------------------
  // Imputation: missing cells take the column median
  // ---------------------------------------------------------------------

  /** A missing cell takes `m`; a present cell, or a missing median, leaves the row alone. */
  function FillCell(r: Record, c: Column, m: Option<real>): Record
  {
    if Get(r, c).None? && m.Some? then Put(r, c, m) else r
  }

  function FillColumn(rows: seq<Record>, c: Column, m: Option<real>): (r: seq<Record>)
    ensures |r| == |rows|
  {
    seq(|rows|, i requires 0 <= i < |rows| => FillCell(rows[i], c, m))
  }

  /** Filling one column does not change the values of another. */
  lemma {:induction false} FillKeepsOtherColumn(rows: seq<Record>, c: Column, m: Option<real>, c': Column)
    requires c != c'
    ensures ColumnValues(FillColumn(rows, c, m), c') == ColumnValues(rows, c')
    decreases |rows|
  {
    if rows != [] {
      assert FillColumn(rows, c, m)[1..] == FillColumn(rows[1..], c, m);
      FillKeepsOtherColumn(rows[1..], c, m, c');
    }
  }

  /** The three fills (Weight, Reps, Sets), each with its median over the whole input. */
  function Imputed(raw: seq<Record>): (r: seq<Record>)
    ensures |r| == |raw|
  {
    var byWeight := FillColumn(raw, Weight, ColumnMedian(raw, Weight));
    var byReps := FillColumn(byWeight, Reps, ColumnMedian(raw, Reps));
    FillColumn(byReps, Sets, ColumnMedian(raw, Sets))
  }

  /** Each imputed row is its input row with every missing numeric cell set
      to that column's median over all input rows; nothing else changes. */
  lemma ImputedRow(raw: seq<Record>, i: int, c: Column)
    requires 0 <= i < |raw|
    ensures Get(Imputed(raw)[i], c) ==
      if Get(raw[i], c).Some? then Get(raw[i], c) else ColumnMedian(raw, c)
    ensures Imputed(raw)[i].date == raw[i].date
    ensures Imputed(raw)[i].workoutName == raw[i].workoutName
    ensures Imputed(raw)[i].exerciseName == raw[i].exerciseName
    ensures Imputed(raw)[i].notes == raw[i].notes
  {
    var byWeight := FillColumn(raw, Weight, ColumnMedian(raw, Weight));
    var byReps := FillColumn(byWeight, Reps, ColumnMedian(raw, Reps));
    var w := FillCell(raw[i], Weight, ColumnMedian(raw, Weight));
    var p := FillCell(w, Reps, ColumnMedian(raw, Reps));
    var q := FillCell(p, Sets, ColumnMedian(raw, Sets));
    assert byWeight[i] == w && byReps[i] == p;
    assert Imputed(raw)[i] == q;
    FillCellEffect(raw[i], Weight, ColumnMedian(raw, Weight), c);
    FillCellEffect(w, Reps, ColumnMedian(raw, Reps), c);
    FillCellEffect(p, Sets, ColumnMedian(raw, Sets), c);
  }

  /** Filling cell `c` of a row sets that cell to `m` if it was missing and
      leaves every other cell and field as it was. */
  lemma FillCellEffect(r: Record, c: Column, m: Option<real>, c': Column)
    ensures Get(FillCell(r, c, m), c') == if c' == c && Get(r, c).None? then m else Get(r, c')
    ensures FillCell(r, c, m).date == r.date && FillCell(r, c, m).notes == r.notes
    ensures FillCell(r, c, m).workoutName == r.workoutName
    ensures FillCell(r, c, m).exerciseName == r.exerciseName
  {
  }

  /** After imputation no cell of a column is missing, unless the column had
      no value at all (its median is then missing too). */
  lemma ImputedHasNoGaps(raw: seq<Record>, c: Column)
    requires HasValue(raw, c)
    ensures forall r :: r in Imputed(raw) ==> Get(r, c).Some?
  {
    var imputed := Imputed(raw);
    forall i | 0 <= i < |imputed| ensures Get(imputed[i], c).Some? {
      ImputedRow(raw, i, c);
    }
  }

  // ---------------------------------------------------------------------
  // Duplicate removal, keeping the first copy
  // ---------------------------------------------------------------------

  /** The first occurrence of every distinct row, in order of first occurrence. */
  function Dedup(s: seq<Record>): (r: seq<Record>)
    ensures NoDuplicates(r)
    ensures forall x :: x in r <==> x in s
    decreases |s|
  {
    if s == [] then []
    else
      var p := Dedup(s[..|s| - 1]);
      assert s == s[..|s| - 1] + [s[|s| - 1]];
      if s[|s| - 1] in p then p else p + [s[|s| - 1]]
  }

  // ---------------------------------------------------------------------
  // Sorting by date
  // ---------------------------------------------------------------------

  function InsertByDate(x: Record, s: seq<Record>): (r: seq<Record>)
    requires DateSorted(s)
    ensures DateSorted(r)
    ensures multiset(r) == multiset(s) + multiset{x}
    ensures r != [] && r[0] == if s == [] || x.date <= s[0].date then x else s[0]
    decreases |s|
  {
    if s == [] || x.date <= s[0].date then
      PrependSorted(x, s);
      [x] + s
    else
      DateSortedTail(s);
      var t := InsertByDate(x, s[1..]);
      assert s == [s[0]] + s[1..];
      PrependSorted(s[0], t);
      [s[0]] + t
  }

  /** A row no later than the first row of a date-sorted table can go in front. */
  lemma PrependSorted(h: Record, t: seq<Record>)
    requires DateSorted(t)
    requires t != [] ==> h.date <= t[0].date
    ensures DateSorted([h] + t)
  {
    forall i, j | 0 <= i < j < |t| + 1 ensures ([h] + t)[i].date <= ([h] + t)[j].date {
      if i > 0 {
        assert ([h] + t)[i] == t[i - 1];
      }
      assert ([h] + t)[j] == t[j - 1];
      assert t[0].date <= t[j - 1].date;
    }
  }

  /** Dropping the first row keeps a table date-sorted. */
  lemma DateSortedTail(s: seq<Record>)
    requires DateSorted(s) && s != []
    ensures DateSorted(s[1..])
  {
    forall i, j | 0 <= i < j < |s| - 1 ensures s[1..][i].date <= s[1..][j].date {
      assert s[1..][i] == s[i + 1] && s[1..][j] == s[j + 1];
    }
  }

  // ---------------------------------------------------------------------
  // The table that `read_data` mutates
  // ---------------------------------------------------------------------

  /** The DataFrame of `read_data`: its rows are replaced step by step. */
  class WorkoutTable {
    var rows: seq<Record>

    constructor (raw: seq<Record>)
      ensures rows == raw
    {
      rows := raw;
    }

    /** Fills the missing cells of column `c` with its median, in place. */
    method FillMissingWithMedian(c: Column)
      modifies this
      ensures rows == FillColumn(old(rows), c, ColumnMedian(old(rows), c))
    {
      var m := ColumnMedian(rows, c);
      ghost var before := rows;
      var i := 0;
      while i < |rows|
        invariant 0 <= i <= |rows| == |before|
        invariant forall k :: 0 <= k < i ==> rows[k] == FillCell(before[k], c, m)
        invariant forall k :: i <= k < |rows| ==> rows[k] == before[k]
      {
        rows := rows[i := FillCell(rows[i], c, m)];
        i := i + 1;
      }
    }

    /** Drops every row equal to an earlier one, in place. */
    method DropDuplicates()
      modifies this
      ensures rows == Dedup(old(rows))
    {
      var kept: seq<Record> := [];
      var i := 0;
      while i < |rows|
        invariant 0 <= i <= |rows|
        invariant kept == Dedup(rows[..i])
      {
        assert rows[..i + 1][..i] == rows[..i];
        if rows[i] !in kept {
          kept := kept + [rows[i]];
        }
        i := i + 1;
      }
      assert rows[..i] == rows;
      rows := kept;
    }

    /** Sorts the rows by date, in place. The default sort kind is
        not stable, so only the order of dates and the multiset of rows are
        promised. */
    method SortByDate()
      modifies this
      ensures DateSorted(rows)
      ensures multiset(rows) == multiset(old(rows))
    {
      var sorted: seq<Record> := [];
      var i := 0;
      while i < |rows|
        invariant 0 <= i <= |rows|
        invariant DateSorted(sorted)
        invariant multiset(sorted) == multiset(rows[..i])
      {
        assert rows[..i + 1] == rows[..i] + [rows[i]];
        sorted := InsertByDate(rows[i], sorted);
        i := i + 1;
      }
      assert rows[..i] == rows;
      rows := sorted;
    }
  }

  /** `read_data` after parsing: impute, de-duplicate, sort. */
  method ReadData(raw: seq<Record>) returns (df: seq<Record>)
    ensures DateSorted(df)
    ensures NoDuplicates(df)
    ensures multiset(df) == multiset(Dedup(Imputed(raw)))
    ensures forall r :: r in df <==> r in Imputed(raw)
    ensures forall r, c :: r in df && HasValue(raw, c) ==> Get(r, c).Some?
  {
    var table := new WorkoutTable(raw);
    table.FillMissingWithMedian(Weight);
    table.FillMissingWithMedian(Reps);
    table.FillMissingWithMedian(Sets);
    ImputedStepByStep(raw);
    table.DropDuplicates();
    ghost var unique := table.rows;
    table.SortByDate();
    df := table.rows;
    PermutationOfDistinct(unique, df);
    forall r, c | r in df && HasValue(raw, c) ensures Get(r, c).Some? {
      ImputedHasNoGaps(raw, c);
    }
  }

  /** Filling the columns one after another, each with the median of the
      table as it then is, gives the medians of the input: a fill never
      touches another column. */
  lemma ImputedStepByStep(raw: seq<Record>)
    ensures
      var byWeight := FillColumn(raw, Weight, ColumnMedian(raw, Weight));
      var byReps := FillColumn(byWeight, Reps, ColumnMedian(byWeight, Reps));
      FillColumn(byReps, Sets, ColumnMedian(byReps, Sets)) == Imputed(raw)
  {
    var byWeight := FillColumn(raw, Weight, ColumnMedian(raw, Weight));
    FillKeepsOtherColumn(raw, Weight, ColumnMedian(raw, Weight), Reps);
    FillKeepsOtherColumn(raw, Weight, ColumnMedian(raw, Weight), Sets);
    FillKeepsOtherColumn(byWeight, Reps, ColumnMedian(raw, Reps), Sets);
  }

  /** A reordering of a duplicate-free sequence is duplicate-free and has the same rows. */
  lemma PermutationOfDistinct(s: seq<Record>, t: seq<Record>)
    requires NoDuplicates(s) && multiset(t) == multiset(s)
    ensures NoDuplicates(t)
    ensures forall r :: r in t <==> r in s
  {
    forall r ensures r in t <==> r in s {
      assert r in t <==> r in multiset(t);
      assert r in s <==> r in multiset(s);
    }
    forall i, j | 0 <= i < j < |t| ensures t[i] != t[j] {
      if t[i] == t[j] {
        assert multiset(t)[t[i]] >= 2 by {
          assert t == t[..i] + [t[i]] + t[i + 1..j] + [t[j]] + t[j + 1..];
        }
        CountInNoDuplicates(s, t[i]);
        assert false;
      }
    }
  }

  /** A row occurs at most once in a sequence without duplicates. */
  lemma {:induction false} CountInNoDuplicates(s: seq<Record>, x: Record)
    requires NoDuplicates(s)
    ensures multiset(s)[x] <= 1
    decreases |s|
  {
    if s != [] {
      assert s == [s[0]] + s[1..];
      assert NoDuplicates(s[1..]);
      CountInNoDuplicates(s[1..], x);
      if s[0] == x {
        assert x !in s[1..];
      }
    }
  }
}
