/** The proleptic Gregorian calendar in UTC, as far as the queries use it:
    months as indices (12 * year + month - 1), the first instant of a month,
    date_trunc('month', t), EXTRACT(DAY FROM t), make_timestamptz and Go's AddDate. */
module Calendar {
  import opened Common

  const SECOND: int := 1_000_000_000
  const DAY: int := 86_400_000_000_000

  predicate IsLeap(year: int) {
    year % 4 == 0 && (year % 100 != 0 || year % 400 == 0)
  }

  // Days from 0000-01-01 to the first of January of a year.
  function DaysBeforeYear(year: int): int {
    365 * year + (year + 3) / 4 - (year + 99) / 100 + (year + 399) / 400
  }

  function DaysBeforeMonth(month: int, leap: bool): int
    requires 0 <= month < 12
  {
    [0, 31, 59, 90, 120, 151, 181, 212, 243, 273, 304, 334][month] + if leap && month >= 2 then 1 else 0
  }

  function DaysInMonth(m: int): (days: int)
    ensures 28 <= days <= 31
  {
    var month := m % 12;
    if month == 1 then (if IsLeap(m / 12) then 29 else 28)
    else if month in {3, 5, 8, 10} then 30
    else 31
  }

  function FirstDay(m: int): int {
    DaysBeforeYear(m / 12) + DaysBeforeMonth(m % 12, IsLeap(m / 12))
  }

  // The first instant of month m.
  function MonthStart(m: int): Instant {
    FirstDay(m) * DAY
  }

  // Consecutive years are 365 days apart, and one more after a leap year.
  lemma YearLength(year: int)
    ensures DaysBeforeYear(year + 1) == DaysBeforeYear(year) + if IsLeap(year) then 366 else 365
  {
    FourthYears(year);
    HundredthYears(year);
    FourHundredthYears(year);
    CenturiesNest(year);
  }

  lemma FourthYears(year: int)
    ensures (year + 4) / 4 - (year + 3) / 4 == if year % 4 == 0 then 1 else 0
  {
  }

  lemma HundredthYears(year: int)
    ensures (year + 100) / 100 - (year + 99) / 100 == if year % 100 == 0 then 1 else 0
  {
  }

  lemma FourHundredthYears(year: int)
    ensures (year + 400) / 400 - (year + 399) / 400 == if year % 400 == 0 then 1 else 0
  {
  }

  lemma CenturiesNest(year: int)
    ensures year % 400 == 0 ==> year % 100 == 0
    ensures year % 100 == 0 ==> year % 4 == 0
  {
    assert year == 400 * (year / 400) + year % 400;
    if year % 400 == 0 {
      assert year == 100 * (4 * (year / 400));
    }
    assert year == 100 * (year / 100) + year % 100;
    if year % 100 == 0 {
      assert year == 4 * (25 * (year / 100));
    }
  }

  // The closed form for the first day of a month agrees with the table of month lengths.
  lemma MonthLength(m: int)
    ensures FirstDay(m + 1) == FirstDay(m) + DaysInMonth(m)
    ensures MonthStart(m + 1) == MonthStart(m) + DaysInMonth(m) * DAY
  {
    if m % 12 == 11 {
      YearLength(m / 12);
      assert (m + 1) / 12 == m / 12 + 1 && (m + 1) % 12 == 0;
    } else {
      assert (m + 1) / 12 == m / 12 && (m + 1) % 12 == m % 12 + 1;
    }
  }

  lemma {:induction false} MonthsIncrease(m: int, n: int)
    requires m < n
    ensures MonthStart(m) + 28 * DAY <= MonthStart(n)
    decreases n - m
  {
    hide MonthStart, DaysInMonth;
    MonthLength(n - 1);
    if m < n - 1 {
      MonthsIncrease(m, n - 1);
    }
  }

  // Searches forwards for the month of an instant.
  function MonthFrom(m: int, t: Instant): (r: int)
    requires MonthStart(m) <= t
    ensures MonthStart(r) <= t < MonthStart(r + 1)
    decreases t - MonthStart(m)
  {
    hide DaysInMonth, FirstDay;
    MonthLength(m);
    if t < MonthStart(m + 1) then m else MonthFrom(m + 1, t)
  }

  // Searches backwards for the month of an instant.
  function MonthBefore(m: int, t: Instant): (r: int)
    requires t < MonthStart(m + 1)
    ensures MonthStart(r) <= t < MonthStart(r + 1)
    decreases MonthStart(m + 1) - t
  {
    hide DaysInMonth, FirstDay;
    MonthLength(m);
    if MonthStart(m) <= t then m else MonthBefore(m - 1, t)
  }

  // The month an instant lies in: date_trunc('month', t) is MonthStart(MonthOf(t)).
  function MonthOf(t: Instant): (m: int)
    ensures MonthStart(m) <= t < MonthStart(m + 1)
  {
    hide MonthStart;
    assert MonthStart(0) == MonthStart(-1 + 1);
    if MonthStart(0) <= t then MonthFrom(0, t) else MonthBefore(-1, t)
  }

  // Only one month contains an instant.
  lemma MonthOfUnique(m: int, t: Instant)
    requires MonthStart(m) <= t < MonthStart(m + 1)
    ensures MonthOf(t) == m
  {
    hide MonthStart;
    var r := MonthOf(t);
    if r < m {
      MonthsIncreaseWeakly(r + 1, m);
    } else if m < r {
      MonthsIncreaseWeakly(m + 1, r);
    }
  }

  lemma MonthsIncreaseWeakly(m: int, n: int)
    requires m <= n
    ensures MonthStart(m) <= MonthStart(n)
  {
    if m < n {
      MonthsIncrease(m, n);
    }
  }

  lemma WholeDays(x: int, days: int)
    requires 0 <= x
    ensures x / DAY < days <==> x < days * DAY
    ensures x / DAY >= 0
  {
  }

  lemma MoreDays(a: int, b: int)
    requires a <= b
    ensures a * DAY <= b * DAY
  {
  }

  lemma DaysAdd(a: int, b: int)
    ensures (a + b) * DAY == a * DAY + b * DAY
  {
  }

  // EXTRACT(DAY FROM t)
  function DayOfMonth(t: Instant): (day: int)
    ensures 1 <= day <= DaysInMonth(MonthOf(t))
  {
    hide MonthStart, DaysInMonth;
    MonthLength(MonthOf(t));
    WholeDays(t - MonthStart(MonthOf(t)), DaysInMonth(MonthOf(t)));
    (t - MonthStart(MonthOf(t))) / DAY + 1
  }

  // make_timestamptz(year, month, day, 0, 0, 0): the database refuses a day the month does not have.
  function MakeTimestamp(year: int, month: int, day: int): Option<Instant> {
    if 1 <= month <= 12 && 1 <= day <= DaysInMonth(12 * year + month - 1)
    then Some(MonthStart(12 * year + month - 1) + (day - 1) * DAY)
    else None
  }

  // A day that the month has, at any time of that day, lies in the month.
  lemma DayLiesInMonth(m: int, day: int, clock: int)
    requires 1 <= day <= DaysInMonth(m) && 0 <= clock < DAY
    ensures MonthOf(MonthStart(m) + (day - 1) * DAY + clock) == m
    ensures DayOfMonth(MonthStart(m) + (day - 1) * DAY + clock) == day
  {
    hide MonthStart, DaysInMonth;
    MonthLength(m);
    MonthOfUnique(m, MonthStart(m) + (day - 1) * DAY + clock);
  }

  // Go's t.AddDate(0, months, 0): the month moves, the day number is kept, and a day
  // that the new month does not have overflows into the month after it.
  function AddMonths(t: Instant, months: int): Instant {
    MonthStart(MonthOf(t) + months) + (t - MonthStart(MonthOf(t)))
  }

  // AddDate reaches the intended month exactly when that month has the day; otherwise
  // it lands in the month after, never further.
  lemma AddMonthsLands(t: Instant, months: int)
    ensures MonthOf(AddMonths(t, months)) ==
            MonthOf(t) + months + if DayOfMonth(t) <= DaysInMonth(MonthOf(t) + months) then 0 else 1
  {
    hide MonthStart, DaysInMonth, MonthOf;
    var m := MonthOf(t);
    MonthLength(m);
    MoreDays(DaysInMonth(m), 31);
    Overflow(m + months, t - MonthStart(m), DayOfMonth(t));
  }

  lemma Overflow(target: int, offset: int, day: int)
    requires 0 <= offset < 31 * DAY && day == offset / DAY + 1
    ensures MonthOf(MonthStart(target) + offset) == target + if day <= DaysInMonth(target) then 0 else 1
  {
    hide MonthStart, DaysInMonth, MonthOf;
    var a, b := DaysInMonth(target), DaysInMonth(target + 1);
    var length, next := a * DAY, b * DAY;
    assert offset < length <==> day <= a by { WholeDays(offset, a); }
    assert offset < length + next by {
      DaysAdd(a, b);
      MoreDays(31, a + b);
    }
    assert MonthStart(target + 1) == MonthStart(target) + length by { MonthLength(target); }
    assert MonthStart(target + 2) == MonthStart(target + 1) + next by { MonthLength(target + 1); }
    TwoMonths(target, MonthStart(target) + offset);
  }

  // An instant within two months lies in the second exactly when it is not before its start.
  lemma TwoMonths(m: int, t: Instant)
    requires MonthStart(m) <= t < MonthStart(m + 2)
    ensures MonthOf(t) == m + if t < MonthStart(m + 1) then 0 else 1
  {
    hide MonthStart, MonthOf;
    if t < MonthStart(m + 1) {
      MonthOfUnique(m, t);
    } else {
      MonthOfUnique(m + 1, t);
    }
  }
}
