/**
 * Measurement-range attributes of the on-chip temperature sensor and the
 * algorithms the driver runs over them: ordering the ranges by accuracy,
 * picking the most accurate range that covers a requested interval, and
 * finding a range by the register code that selects it.
 */
module Attributes {

  datatype Option<T> = None | Some(value: T)

  /** One entry of the per-chip range table: the register code `regVal`
      selects the measurable interval [rangeMin, rangeMax] (degrees Celsius)
      with worst-case error `errorMax`; `offset` feeds the threshold
      conversions. Register codes are small non-negative field values. */
  datatype Attribute = Attribute(offset: int, regVal: nat, rangeMin: int, rangeMax: int, errorMax: int)

  // ---------------------------------------------------------------------
  // Comparators handed to qsort
  // ---------------------------------------------------------------------

  /** The comparator as the driver writes it: -1 when `p1` is strictly more
      accurate than `p2`, and 1 otherwise, so it never reports a tie. */
  function AccuracyCompare(p1: Attribute, p2: Attribute): (r: int)
    ensures r != 0
    ensures r < 0 <==> p1.errorMax < p2.errorMax
  {
    if p1.errorMax < p2.errorMax then -1 else 1
  }

  /** Two entries with the same `errorMax` each compare greater than the
      other: the comparator is not consistent with any ordering, which a
      qsort comparator must be. */
  lemma AccuracyCompareInconsistentOnTies(p1: Attribute, p2: Attribute)
    requires p1.errorMax == p2.errorMax
    ensures AccuracyCompare(p1, p2) > 0 && AccuracyCompare(p2, p1) > 0
  {
  }

  /** A three-way comparator on `errorMax` that reports ties as 0. */
  function AccuracyOrder(p1: Attribute, p2: Attribute): (r: int)
    ensures -1 <= r <= 1
    ensures r < 0 <==> p1.errorMax < p2.errorMax
    ensures r == 0 <==> p1.errorMax == p2.errorMax
  {
    if p1.errorMax < p2.errorMax then -1
    else if p1.errorMax == p2.errorMax then 0
    else 1
  }

  /** `AccuracyOrder` is consistent: swapping the arguments negates the
      answer, and "not greater than" is transitive. */
  lemma AccuracyOrderConsistent(p1: Attribute, p2: Attribute, p3: Attribute)
    ensures AccuracyOrder(p1, p2) == -AccuracyOrder(p2, p1)
    ensures AccuracyOrder(p1, p2) <= 0 && AccuracyOrder(p2, p3) <= 0 ==> AccuracyOrder(p1, p3) <= 0
  {
  }

  /** On every pair of entries whose accuracies differ, the driver's
      comparator and the three-way comparator agree. */
  lemma AccuracyComparatorsAgree(p1: Attribute, p2: Attribute)
    requires p1.errorMax != p2.errorMax
    ensures AccuracyCompare(p1, p2) == AccuracyOrder(p1, p2)
  {
  }

  // ---------------------------------------------------------------------
  // Sorting by accuracy
  // ---------------------------------------------------------------------

  /** Ordered by non-decreasing worst-case error. */
  predicate SortedByAccuracy(s: seq<Attribute>)
  {
    forall i, j :: 0 <= i < j < |s| ==> s[i].errorMax <= s[j].errorMax
  }

  /** `s` is the table `table` reordered by accuracy. */
  predicate IsAccuracySorted(s: seq<Attribute>, table: seq<Attribute>)
  {
    SortedByAccuracy(s) && multiset(s) == multiset(table)
  }

  method Swap(a: array<Attribute>, i: int, j: int)
    requires 0 <= i < a.Length && 0 <= j < a.Length
    modifies a
    ensures a[i] == old(a[j]) && a[j] == old(a[i])
    ensures forall k :: 0 <= k < a.Length && k != i && k != j ==> a[k] == old(a[k])
    ensures multiset(a[..]) == old(multiset(a[..]))
  {
    a[i], a[j] := a[j], a[i];
  }

  /** Sorts `a` in place by accuracy, asking the driver's comparator only
      whether one entry is strictly more accurate than another. The model
      assumes that the library sort the driver calls also returns a
      permutation ordered by `errorMax` when given the driver's comparator;
      the C standard does not guarantee this for a comparator that is
      inconsistent on ties. The order among entries of equal accuracy is
      left open. */
  method SortByAccuracy(a: array<Attribute>)
    modifies a
    ensures SortedByAccuracy(a[..])
    ensures multiset(a[..]) == old(multiset(a[..]))
  {
    var i := 0;
    while i < a.Length
      invariant 0 <= i <= a.Length
      invariant forall m, n :: 0 <= m < n < i ==> a[m].errorMax <= a[n].errorMax
      invariant multiset(a[..]) == old(multiset(a[..]))
    {
      var j := i;
      while 0 < j && AccuracyCompare(a[j], a[j - 1]) < 0
        invariant 0 <= j <= i
        invariant forall m, n :: 0 <= m < n <= i && m != j && n != j ==> a[m].errorMax <= a[n].errorMax
        invariant forall n :: j < n <= i ==> a[j].errorMax < a[n].errorMax
        invariant multiset(a[..]) == old(multiset(a[..]))
      {
        Swap(a, j - 1, j);
        j := j - 1;
      }
      i := i + 1;
    }
  }

  // ---------------------------------------------------------------------
  // Choosing a range
  // ---------------------------------------------------------------------

  /** The entry can measure every temperature in [lo, hi]. */
  predicate Covers(a: Attribute, lo: int, hi: int)
  {
    lo >= a.rangeMin && hi <= a.rangeMax
  }

  /** Index of the first entry of `s` that covers [lo, hi], if any. */
  function FirstCovering(s: seq<Attribute>, lo: int, hi: int): (r: Option<nat>)
    ensures r.Some? ==> r.value < |s| && Covers(s[r.value], lo, hi)
    ensures r.Some? ==> forall k :: 0 <= k < r.value ==> !Covers(s[k], lo, hi)
    ensures r.None? ==> forall k :: 0 <= k < |s| ==> !Covers(s[k], lo, hi)
  {
    if |s| == 0 then None
    else if Covers(s[0], lo, hi) then Some(0)
    else match FirstCovering(s[1..], lo, hi)
      case None => None
      case Some(i) => Some(i + 1)
  }

  /** Scanning the accuracy-sorted copy of `table` and taking the first
      covering entry yields an entry of `table` that covers the request and
      whose error is the smallest among all covering entries of `table`; when
      the scan finds nothing, no entry of `table` covers the request. */
  lemma BestRangeIsMostAccurate(table: seq<Attribute>, s: seq<Attribute>, lo: int, hi: int)
    requires IsAccuracySorted(s, table)
    ensures FirstCovering(s, lo, hi).Some? ==>
      var best := s[FirstCovering(s, lo, hi).value];
      && best in table
      && Covers(best, lo, hi)
      && forall a :: a in table && Covers(a, lo, hi) ==> best.errorMax <= a.errorMax
    ensures FirstCovering(s, lo, hi).None? ==> forall a :: a in table ==> !Covers(a, lo, hi)
  {
    match FirstCovering(s, lo, hi)
    case Some(i) =>
      assert s[i] in multiset(s);
      forall a | a in table && Covers(a, lo, hi)
        ensures s[i].errorMax <= a.errorMax
      {
        assert a in multiset(s);
        var k :| 0 <= k < |s| && s[k] == a;
      }
    case None =>
      forall a | a in table
        ensures !Covers(a, lo, hi)
      {
        assert a in multiset(s);
        var k :| 0 <= k < |s| && s[k] == a;
      }
  }

  /** Whatever order the sort leaves entries of equal accuracy in, the
      chosen range has the same worst-case error, and a request is accepted
      under one order exactly when it is accepted under any other. */
  lemma BestErrorIndependentOfTieOrder(table: seq<Attribute>, s1: seq<Attribute>, s2: seq<Attribute>, lo: int, hi: int)
    requires IsAccuracySorted(s1, table) && IsAccuracySorted(s2, table)
    ensures FirstCovering(s1, lo, hi).Some? <==> FirstCovering(s2, lo, hi).Some?
    ensures FirstCovering(s1, lo, hi).Some? ==>
      s1[FirstCovering(s1, lo, hi).value].errorMax == s2[FirstCovering(s2, lo, hi).value].errorMax
  {
    BestRangeIsMostAccurate(table, s1, lo, hi);
    BestRangeIsMostAccurate(table, s2, lo, hi);
  }

  // ---------------------------------------------------------------------
  // Finding an entry by register code
  // ---------------------------------------------------------------------

  /** `k` is the first position of `s` holding register code `code`. */
  predicate IsFirstWithRegVal(s: seq<Attribute>, code: nat, k: int)
  {
    && 0 <= k < |s|
    && s[k].regVal == code
    && forall j :: 0 <= j < k ==> s[j].regVal != code
  }

  /** Linear search for the first entry with register code `code`; -1 when
      no entry has it. */
  method IndexOfRegVal(s: seq<Attribute>, code: nat) returns (k: int)
    ensures k == -1 <==> forall j :: 0 <= j < |s| ==> s[j].regVal != code
    ensures k != -1 ==> IsFirstWithRegVal(s, code, k)
  {
    k := -1;
    var j := 0;
    while j < |s|
      invariant 0 <= j <= |s|
      invariant forall m :: 0 <= m < j ==> s[m].regVal != code
    {
      if s[j].regVal == code {
        k := j;
        break;
      }
      j := j + 1;
    }
  }

  /** An entry taken from a reordering of `table` has its register code
      somewhere in `table`. */
  lemma RegValSurvivesReordering(table: seq<Attribute>, s: seq<Attribute>, i: int)
    requires multiset(s) == multiset(table) && 0 <= i < |s|
    ensures exists j :: 0 <= j < |table| && table[j].regVal == s[i].regVal
  {
    assert s[i] in multiset(s);
    var j :| 0 <= j < |table| && table[j] == s[i];
  }
}
