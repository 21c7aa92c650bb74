/** Counting the elements of a sequence that satisfy a predicate.

    Every counter in the analysis scripts is a loop over the events that
    adds one when a condition holds. `Count` is that loop, written as a
    left fold, so that the lemmas below (bounds, monotonicity, partitions,
    filtering) are proved once and reused by every selector.
 */
module Counting {

  /** No element occurs twice. */
  predicate Distinct<T(==)>(s: seq<T>) {
    forall i, j :: 0 <= i < j < |s| ==> s[i] != s[j]
  }

  /** The position of `x` in `s`; with `Distinct(s)` it is the only one. */
  function IndexOf<T(==)>(s: seq<T>, x: T): (i: nat)
    requires x in s
    ensures i < |s| && s[i] == x
    ensures Distinct(s) ==> forall j :: 0 <= j < |s| && s[j] == x ==> j == i
  {
    if s[0] == x then 0 else 1 + IndexOf(s[1..], x)
  }

  /** Number of elements of `s` for which `P` holds, counted in order. */
  function Count<T>(s: seq<T>, P: T -> bool): (n: nat)
    ensures n <= |s|
    decreases |s|
  {
    if |s| == 0 then 0
    else Count(s[..|s| - 1], P) + (if P(s[|s| - 1]) then 1 else 0)
  }

  /** The subsequence of `s` whose elements satisfy `P`, in order. */
  function Filter<T>(s: seq<T>, P: T -> bool): (r: seq<T>)
    ensures |r| == Count(s, P)
    ensures forall i :: 0 <= i < |r| ==> P(r[i])
    decreases |s|
  {
    if |s| == 0 then []
    else if P(s[|s| - 1]) then Filter(s[..|s| - 1], P) + [s[|s| - 1]]
    else Filter(s[..|s| - 1], P)
  }

  /** Processing one more element adds one exactly when it satisfies `P`. */
  lemma CountAppend<T>(s: seq<T>, x: T, P: T -> bool)
    ensures Count(s + [x], P) == Count(s, P) + (if P(x) then 1 else 0)
  {
    assert (s + [x])[..|s|] == s;
  }

  /** Counting an implied condition never yields less. */
  lemma {:induction false} CountMonotone<T>(s: seq<T>, P: T -> bool, Q: T -> bool)
    requires forall i :: 0 <= i < |s| ==> P(s[i]) ==> Q(s[i])
    ensures Count(s, P) <= Count(s, Q)
    decreases |s|
  {
    if |s| > 0 {
      CountMonotone(s[..|s| - 1], P, Q);
    }
  }

  /** If `R` holds exactly when one of two exclusive conditions holds,
      its count is the sum of theirs. */
  lemma {:induction false} CountPartition<T>(s: seq<T>, P: T -> bool, Q: T -> bool, R: T -> bool)
    requires forall i :: 0 <= i < |s| ==> !(P(s[i]) && Q(s[i]))
    requires forall i :: 0 <= i < |s| ==> R(s[i]) == (P(s[i]) || Q(s[i]))
    ensures Count(s, P) + Count(s, Q) == Count(s, R)
    decreases |s|
  {
    if |s| > 0 {
      CountPartition(s[..|s| - 1], P, Q, R);
    }
  }

  /** Two exclusive conditions that each imply `R` count at most as many
      elements together as `R` does. */
  lemma {:induction false} CountDisjointBound<T>(s: seq<T>, P: T -> bool, Q: T -> bool, R: T -> bool)
    requires forall i :: 0 <= i < |s| ==> !(P(s[i]) && Q(s[i]))
    requires forall i :: 0 <= i < |s| ==> P(s[i]) ==> R(s[i])
    requires forall i :: 0 <= i < |s| ==> Q(s[i]) ==> R(s[i])
    ensures Count(s, P) + Count(s, Q) <= Count(s, R)
    decreases |s|
  {
    if |s| > 0 {
      CountDisjointBound(s[..|s| - 1], P, Q, R);
    }
  }

  /** When `Q` implies `P`, dropping the elements that fail `P` beforehand
      changes no `Q` count: such elements are skipped entirely. */
  lemma {:induction false} CountFilter<T>(s: seq<T>, P: T -> bool, Q: T -> bool)
    requires forall i :: 0 <= i < |s| ==> Q(s[i]) ==> P(s[i])
    ensures Count(Filter(s, P), Q) == Count(s, Q)
    decreases |s|
  {
    if |s| > 0 {
      var init, x := s[..|s| - 1], s[|s| - 1];
      CountFilter(init, P, Q);
      if P(x) {
        CountAppend(Filter(init, P), x, Q);
      }
    }
  }
}
