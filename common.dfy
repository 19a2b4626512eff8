/** Small shared vocabulary: missing values, error results and order-preserving filtering. */
module Common {

  /** A cell that may be missing (pandas NaN / None). */
  datatype Option<+T> = None | Some(value: T)

  /** The outcome of an operation that the source can abort with an exception. */
  datatype Result<+T, +E> = Success(value: T) | Failure(error: E)

  /** Keeps the elements of `s` that satisfy `p`, in their original order
      (selecting the rows of a table with a boolean mask). */
  function Filter<T(==)>(s: seq<T>, p: T -> bool): (r: seq<T>)
    ensures |r| <= |s|
    decreases |s|
  {
    if s == [] then []
    else (if p(s[0]) then [s[0]] else []) + Filter(s[1..], p)
  }

  /** An element is kept exactly when it is in `s` and passes the mask. */
  lemma {:induction false} FilterMembership<T>(s: seq<T>, p: T -> bool, x: T)
    ensures x in Filter(s, p) <==> x in s && p(x)
    decreases |s|
  {
    if s != [] {
      FilterMembership(s[1..], p, x);
      assert s == [s[0]] + s[1..];
    }
  }

  /** Every kept element passes the mask. */
  lemma {:induction false} FilterPasses<T>(s: seq<T>, p: T -> bool)
    ensures forall i :: 0 <= i < |Filter(s, p)| ==> p(Filter(s, p)[i])
    decreases |s|
  {
    if s != [] {
      FilterPasses(s[1..], p);
      var head := if p(s[0]) then [s[0]] else [];
      var rest := Filter(s[1..], p);
      assert Filter(s, p) == head + rest;
      assert forall i :: |head| <= i < |head| + |rest| ==> (head + rest)[i] == rest[i - |head|];
    }
  }

  /** A property every element has, every kept element has. */
  lemma {:induction false} FilterKeeps<T>(s: seq<T>, p: T -> bool, q: T -> bool)
    requires forall i :: 0 <= i < |s| ==> q(s[i])
    ensures forall i :: 0 <= i < |Filter(s, p)| ==> q(Filter(s, p)[i])
    decreases |s|
  {
    if s != [] {
      FilterKeeps(s[1..], p, q);
      var head := if p(s[0]) then [s[0]] else [];
      var rest := Filter(s[1..], p);
      assert Filter(s, p) == head + rest;
      assert forall i :: |head| <= i < |head| + |rest| ==> (head + rest)[i] == rest[i - |head|];
    }
  }

  /** A mask every element passes keeps the whole sequence. */
  lemma {:induction false} FilterAll<T>(s: seq<T>, p: T -> bool)
    requires forall i :: 0 <= i < |s| ==> p(s[i])
    ensures Filter(s, p) == s
    decreases |s|
  {
    if s != [] {
      FilterAll(s[1..], p);
      assert s == [s[0]] + s[1..];
    }
  }

  /** A mask no element passes keeps nothing. */
  lemma {:induction false} FilterNone<T>(s: seq<T>, p: T -> bool)
    requires forall i :: 0 <= i < |s| ==> !p(s[i])
    ensures Filter(s, p) == []
    decreases |s|
  {
    if s != [] {
      FilterNone(s[1..], p);
    }
  }

  /** No element occurs twice. */
  predicate NoDuplicates<T(==)>(s: seq<T>)
  {
    forall i, j :: 0 <= i < j < |s| ==> s[i] != s[j]
  }

  /** Strictly increasing integers: every value occurs once, in ascending order. */
  predicate StrictlyIncreasing(s: seq<int>)
  {
    forall i, j :: 0 <= i < j < |s| ==> s[i] < s[j]
  }
}
