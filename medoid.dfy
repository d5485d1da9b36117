/**
 * The distance between sequences and the "average string" of a list (its
 * medoid).  The distance is a call into a foreign Damerau-Levenshtein
 * library, so it is a parameter here: any total function into the naturals,
 * with the properties the callers need stated as separate predicates.
 */
module Medoid {
  import opened Results

  /** A distance between two sequences, as the edit-distance library returns it. */
  type Metric = (string, string) -> nat

  /** Every sequence is at distance 0 from itself (the identical-sequence test asserts this). */
  ghost predicate ZeroOnSelf(d: Metric) {
    forall a :: d(a, a) == 0
  }

  /** Distinct sequences are at a positive distance. */
  ghost predicate Separating(d: Metric) {
    forall a, b :: d(a, b) == 0 ==> a == b
  }

  ghost predicate Symmetric(d: Metric) {
    forall a, b :: d(a, b) == d(b, a)
  }

  /**
   * The position Python's min(..., key=...) picks: it keeps the running
   * minimum and replaces it only on a strictly smaller key, so ties go to
   * the first position.
   */
  function FirstMin(keys: seq<nat>): (m: nat)
    requires |keys| > 0
    ensures m < |keys|
    ensures forall i :: 0 <= i < |keys| ==> keys[m] <= keys[i]
    ensures forall i :: 0 <= i < m ==> keys[m] < keys[i]
  {
    if |keys| == 1 then 0
    else
      var m := FirstMin(keys[..|keys| - 1]);
      if keys[|keys| - 1] < keys[m] then |keys| - 1 else m
  }

  /** The summed distance from y to every member of strings (the numerator of avg). */
  function TotalDistance(d: Metric, y: string, strings: seq<string>): nat {
    if strings == [] then 0
    else TotalDistance(d, y, strings[..|strings| - 1]) + d(y, strings[|strings| - 1])
  }

  /**
   * The position min() keeps while scanning the first n members by their
   * total distance: it moves only to a strictly smaller total.
   */
  function BestIndex(d: Metric, strings: seq<string>, n: nat): (m: nat)
    requires 0 < n <= |strings|
    ensures m < n
  {
    if n == 1 then 0
    else
      var m := BestIndex(d, strings, n - 1);
      if TotalDistance(d, strings[n - 1], strings) < TotalDistance(d, strings[m], strings) then n - 1 else m
  }

  /** The kept position has the least total of the first n, and every earlier one is strictly larger. */
  lemma {:induction false} BestIndexFirstMin(d: Metric, strings: seq<string>, n: nat)
    requires 0 < n <= |strings|
    ensures forall i :: 0 <= i < n ==>
      TotalDistance(d, strings[BestIndex(d, strings, n)], strings) <= TotalDistance(d, strings[i], strings)
    ensures forall i :: 0 <= i < BestIndex(d, strings, n) ==>
      TotalDistance(d, strings[BestIndex(d, strings, n)], strings) < TotalDistance(d, strings[i], strings)
  {
    if n > 1 {
      BestIndexFirstMin(d, strings, n - 1);
    }
  }

  /** a is a member of strings with the least total distance to the list. */
  ghost predicate IsMedoid(d: Metric, a: string, strings: seq<string>) {
    a in strings && forall y :: y in strings ==> TotalDistance(d, a, strings) <= TotalDistance(d, y, strings)
  }

  /**
   * avg_string: the member with the least average distance to the list.
   * Every candidate's average divides by the same length, so the least
   * average is the least total.  An empty list makes min() raise.
   */
  function AvgString(d: Metric, strings: seq<string>): (r: Result<string>)
    ensures r.Ok? <==> |strings| > 0
    ensures r.Err? ==> r.error == EmptyMin
    ensures r.Ok? ==> r.value in strings
    ensures |strings| == 1 ==> r == Ok(strings[0])
  {
    if |strings| == 0 then Err(EmptyMin)
    else Ok(strings[BestIndex(d, strings, |strings|)])
  }

  /**
   * The average string is a medoid, and the first one in list order: every
   * earlier member has a strictly larger total distance.
   */
  lemma AvgStringFirstMedoid(d: Metric, strings: seq<string>)
    requires |strings| > 0
    ensures IsMedoid(d, AvgString(d, strings).value, strings)
    ensures exists m :: 0 <= m < |strings| && strings[m] == AvgString(d, strings).value &&
                        forall i :: 0 <= i < m ==> TotalDistance(d, strings[m], strings) < TotalDistance(d, strings[i], strings)
  {
    var m := BestIndex(d, strings, |strings|);
    BestIndexFirstMin(d, strings, |strings|);
    assert forall y :: y in strings ==> exists i :: 0 <= i < |strings| && strings[i] == y;
  }
}
