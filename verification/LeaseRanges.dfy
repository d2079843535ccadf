/** Date ranges of leases: the overlap test of the service, the overlap test of the
    database's EXCLUDE constraint, and what each of them says about instants. */
module LeaseRanges {
  import opened Common
  import opened Calendar

  // A half-open range [start, end); no end means unbounded.
  datatype Range = Range(start: Instant, end: Option<Instant>)

  // The last nanosecond of the year 9999, the service's stand-in for "no end".
  const FAR_FUTURE: Instant := MonthStart(12 * 10_000) - 1

  // It is the last instant of December 9999: a nanosecond later the year 10000 begins.
  lemma SentinelDate()
    ensures MonthOf(FAR_FUTURE) == 12 * 9999 + 11 && MonthOf(FAR_FUTURE + 1) == 12 * 10_000
  {
    hide MonthStart, MonthOf;
    var m := 12 * 10_000;
    MonthsIncrease(m - 1, m);
    MonthsIncrease(m, m + 1);
    MonthOfUnique(m - 1, FAR_FUTURE);
    MonthOfUnique(m, FAR_FUTURE + 1);
  }

  function EndExclusiveUpper(end: Option<Instant>): Instant {
    match end
    case None => FAR_FUTURE
    case Some(t) => t
  }

  predicate RangesOverlap(a: Range, b: Range) {
    a.start < EndExclusiveUpper(b.end) && b.start < EndExclusiveUpper(a.end)
  }

  // ValidateLeaseDateOrder, and the CHECK constraint of the leases table.
  predicate WellOrdered(r: Range) {
    r.end.Some? ==> r.start < r.end.value
  }

  // tstzrange(a, '[)') && tstzrange(b, '[)'): an empty range meets nothing, infinity is infinite.
  predicate Meets(a: Range, b: Range) {
    && WellOrdered(a) && WellOrdered(b)
    && (b.end.Some? ==> a.start < b.end.value)
    && (a.end.Some? ==> b.start < a.end.value)
  }

  ghost predicate Covers(r: Range, t: Instant) {
    r.start <= t && (r.end.Some? ==> t < r.end.value)
  }

  // The ranges the service's stand-in misjudges: an unbounded one and one that starts at or after it.
  predicate PastSentinel(a: Range, b: Range) {
    || (a.end.None? && FAR_FUTURE <= b.start)
    || (b.end.None? && FAR_FUTURE <= a.start)
  }

  // The database's test is true exactly when some instant lies in both ranges.
  lemma MeetsIffSharedInstant(a: Range, b: Range)
    ensures Meets(a, b) <==> exists t :: Covers(a, t) && Covers(b, t)
  {
    if Meets(a, b) {
      var t := if a.start < b.start then b.start else a.start;
      assert Covers(a, t) && Covers(b, t);
    }
  }

  // On ranges of any kind: the service's test, together with the date-order check that goes before
  // it, says that the ranges share an instant and none is misjudged by the stand-in.
  lemma RangesOverlapExact(a: Range, b: Range)
    ensures RangesOverlap(a, b) && WellOrdered(a) && WellOrdered(b) <==>
            (exists t :: Covers(a, t) && Covers(b, t)) && !PastSentinel(a, b)
  {
    MeetsIffSharedInstant(a, b);
  }

  // The active_on filter of the lease list.
  predicate ActiveOnDay(r: Range, day: Instant) {
    r.start < day + DAY && (r.end.None? || day < r.end.value)
  }

  // The filter selects exactly the leases that cover some instant of the day.
  lemma ActiveOnDayExact(r: Range, day: Instant)
    requires WellOrdered(r)
    ensures ActiveOnDay(r, day) <==> exists t :: day <= t < day + 86_400_000_000_000 && Covers(r, t)
    ensures day < FAR_FUTURE ==> ActiveOnDay(r, day) == RangesOverlap(r, Range(day, Some(day + 86_400_000_000_000)))
  {
    var today := Range(day, Some(day + DAY));
    MeetsIffSharedInstant(r, today);
    assert forall t :: Covers(today, t) <==> day <= t < day + DAY;
  }
}
