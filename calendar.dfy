/**
  Proleptic Gregorian calendar on whole days.

  A day is an integer: the number of days since 1970-01-01 (day 0, a Thursday).
  A time value is an integer number of milliseconds since the same instant.
  Months are numbered 0..11 and days of the month 1..31, as JavaScript's
  `getMonth` and `getDate` number them; weekdays are 0..6 with Sunday = 0, as
  `getDay` numbers them.
 */
module Calendar {

  const MsPerDay: int := 86_400_000
  /** Days from 0000-01-01 to 1970-01-01. */
  const EpochOffset: int := 719_528
  /** Days in one 400-year cycle of the Gregorian calendar. */
  const DaysPerEra: int := 146_097

  datatype CivilDate = CivilDate(year: int, month: int, day: int)

  predicate IsLeapYear(y: int) {
    y % 4 == 0 && (y % 100 != 0 || y % 400 == 0)
  }

  function DaysInYear(y: int): int {
    if IsLeapYear(y) then 366 else 365
  }

  function DaysInMonth(y: int, m: int): int
    requires 0 <= m < 12
  {
    if m == 1 then (if IsLeapYear(y) then 29 else 28)
    else if m == 3 || m == 5 || m == 8 || m == 10 then 30
    else 31
  }

  /** Days of year `y` that come before the first of month `m`. */
  function DaysBeforeMonth(y: int, m: int): int
    requires 0 <= m <= 12
  {
    if m == 0 then 0 else DaysBeforeMonth(y, m - 1) + DaysInMonth(y, m - 1)
  }

  /** Number of leap years in [0, y) (negative when y < 0), by floor division. */
  function LeapYearsBefore(y: int): int {
    (y + 3) / 4 - (y + 99) / 100 + (y + 399) / 400
  }

  /** Days from 0000-01-01 to y-01-01. */
  function DaysBeforeYear(y: int): int {
    365 * y + LeapYearsBefore(y)
  }

  predicate ValidDate(c: CivilDate) {
    0 <= c.month < 12 && 1 <= c.day <= DaysInMonth(c.year, c.month)
  }

  /**
    The day number of a civil date. A day of the month beyond the month's
    length runs on into the following month, as JavaScript's MakeDay does.
   */
  function DaysFromCivil(c: CivilDate): int
    requires 0 <= c.month < 12
  {
    DaysBeforeYear(c.year) + DaysBeforeMonth(c.year, c.month) + c.day - 1 - EpochOffset
  }

  lemma EpochIsJanuaryFirst1970()
    ensures DaysFromCivil(CivilDate(1970, 0, 1)) == 0
  {
  }

  lemma {:induction false} MonthsFillYear(y: int)
    ensures DaysBeforeMonth(y, 12) == DaysInYear(y)
  {
    assert DaysBeforeMonth(y, 1) == 31;
    assert DaysBeforeMonth(y, 2) == 31 + DaysInMonth(y, 1);
    assert DaysBeforeMonth(y, 3) == 62 + DaysInMonth(y, 1);
    assert DaysBeforeMonth(y, 4) == 92 + DaysInMonth(y, 1);
    assert DaysBeforeMonth(y, 5) == 123 + DaysInMonth(y, 1);
    assert DaysBeforeMonth(y, 6) == 153 + DaysInMonth(y, 1);
    assert DaysBeforeMonth(y, 7) == 184 + DaysInMonth(y, 1);
    assert DaysBeforeMonth(y, 8) == 215 + DaysInMonth(y, 1);
    assert DaysBeforeMonth(y, 9) == 245 + DaysInMonth(y, 1);
    assert DaysBeforeMonth(y, 10) == 276 + DaysInMonth(y, 1);
    assert DaysBeforeMonth(y, 11) == 306 + DaysInMonth(y, 1);
  }

  /** Stepping `y` up by one raises `(y + k - 1) / k` exactly when `k` divides `y`, for k = 4. */
  lemma Step4(y: int)
    ensures (y + 4) / 4 - (y + 3) / 4 == if y % 4 == 0 then 1 else 0
  {
    var q, r := y / 4, y % 4;
    assert y == 4 * q + r && 0 <= r < 4;
    assert (y + 4) / 4 == q + 1;
    assert (y + 3) / 4 == if r == 0 then q else q + 1;
  }

  lemma Step100(y: int)
    ensures (y + 100) / 100 - (y + 99) / 100 == if y % 100 == 0 then 1 else 0
    ensures y % 100 == 0 ==> y % 4 == 0
  {
    var q, r := y / 100, y % 100;
    assert y == 100 * q + r && 0 <= r < 100;
    if r == 0 {
      assert y == 4 * (25 * q);
    }
    assert (y + 100) / 100 == q + 1;
    assert (y + 99) / 100 == if r == 0 then q else q + 1;
  }

  lemma Step400(y: int)
    ensures (y + 400) / 400 - (y + 399) / 400 == if y % 400 == 0 then 1 else 0
    ensures y % 400 == 0 ==> y % 100 == 0
  {
    var q, r := y / 400, y % 400;
    assert y == 400 * q + r && 0 <= r < 400;
    if r == 0 {
      assert y == 100 * (4 * q);
    }
    assert (y + 400) / 400 == q + 1;
    assert (y + 399) / 400 == if r == 0 then q else q + 1;
  }

  lemma NextYear(y: int)
    ensures DaysBeforeYear(y + 1) == DaysBeforeYear(y) + DaysInYear(y)
  {
    Step4(y);
    Step100(y);
    Step400(y);
    assert LeapYearsBefore(y + 1) == LeapYearsBefore(y) + (if IsLeapYear(y) then 1 else 0);
  }

  lemma EraStart(e: int)
    ensures DaysBeforeYear(400 * e) == DaysPerEra * e
  {
    assert (400 * e + 3) / 4 == 100 * e;
    assert (400 * e + 99) / 100 == 4 * e;
    assert (400 * e + 399) / 400 == e;
  }

  /**
    Walks forward from the first day of year `y`, a year at a time, to the
    year that holds the day `rem` days later; returns that year and the
    0-based day within it.
   */
  function YearWalk(rem: nat, y: int): (r: (int, nat))
    ensures y <= r.0 && r.1 < DaysInYear(r.0)
    ensures DaysBeforeYear(r.0) + r.1 == DaysBeforeYear(y) + rem
    decreases rem
  {
    if rem < DaysInYear(y) then (y, rem)
    else
      NextYear(y);
      YearWalk(rem - DaysInYear(y), y + 1)
  }

  /**
    Walks forward from the first day of month `m` of year `y`, a month at a
    time, to the month that holds the day `rem` days later; returns that
    month and the 1-based day within it.
   */
  function MonthWalk(rem: nat, y: int, m: int): (r: (int, int))
    requires 0 <= m < 12
    requires DaysBeforeMonth(y, m) + rem < DaysInYear(y)
    ensures m <= r.0 < 12 && 1 <= r.1 <= DaysInMonth(y, r.0)
    ensures DaysBeforeMonth(y, r.0) + r.1 - 1 == DaysBeforeMonth(y, m) + rem
    decreases 12 - m
  {
    if rem < DaysInMonth(y, m) then (m, rem + 1)
    else
      MonthsFillYear(y);
      MonthWalk(rem - DaysInMonth(y, m), y, m + 1)
  }

  /** The civil date of day `d`: a valid date whose day number is `d`. */
  function CivilFromDays(d: int): (c: CivilDate)
    ensures ValidDate(c)
    ensures DaysFromCivil(c) == d
  {
    var z := d + EpochOffset;
    var era := z / DaysPerEra;
    var yd := YearWalk(z % DaysPerEra, 400 * era);
    MonthsFillYear(yd.0);
    var md := MonthWalk(yd.1, yd.0, 0);
    EraStart(era);
    CivilDate(yd.0, md.0, md.1)
  }

  /**
    The civil date of day `d`, as a specification: the valid date whose day
    number is `d` (there is exactly one, by `CivilUnique`).
   */
  ghost function DateOf(d: int): (c: CivilDate)
    ensures ValidDate(c)
    ensures DaysFromCivil(c) == d
  {
    assert ValidDate(CivilFromDays(d)) && DaysFromCivil(CivilFromDays(d)) == d;
    var c :| ValidDate(c) && DaysFromCivil(c) == d; c
  }

  /** JavaScript's `getMonth` of a day (0 = January). */
  ghost function MonthOf(d: int): (m: int)
    ensures 0 <= m < 12
  {
    DateOf(d).month
  }

  /** JavaScript's `getDate` of a day (1-based day of the month). */
  ghost function DayOfMonth(d: int): (n: int)
    ensures 1 <= n <= 31
  {
    DateOf(d).day
  }

  /** JavaScript's `getDay`: 1970-01-01 was a Thursday (4). */
  function Weekday(d: int): (w: int)
    ensures 0 <= w < 7
  {
    (d + 4) % 7
  }

  /** The day that holds time value `ms` (floor division, as `toISOString` takes the date). */
  function DayOfTime(ms: int): int {
    ms / MsPerDay
  }

  lemma {:induction false} DaysBeforeYearGrows(a: int, b: int)
    requires a <= b
    ensures DaysBeforeYear(a) + 365 * (b - a) <= DaysBeforeYear(b)
    decreases b - a
  {
    if a < b {
      DaysBeforeYearGrows(a, b - 1);
      NextYear(b - 1);
    }
  }

  lemma {:induction false} DaysBeforeMonthGrows(y: int, a: int, b: int)
    requires 0 <= a <= b <= 12
    ensures DaysBeforeMonth(y, a) + 28 * (b - a) <= DaysBeforeMonth(y, b)
    decreases b - a
  {
    if a < b {
      DaysBeforeMonthGrows(y, a, b - 1);
    }
  }

  /** A valid date of an earlier year has a smaller day number. */
  lemma EarlierYearEarlierDay(c1: CivilDate, c2: CivilDate)
    requires ValidDate(c1) && 0 <= c2.month < 12 && 1 <= c2.day
    requires c1.year < c2.year
    ensures DaysFromCivil(c1) < DaysFromCivil(c2)
  {
    MonthsFillYear(c1.year);
    DaysBeforeMonthGrows(c1.year, c1.month + 1, 12);
    assert DaysBeforeMonth(c1.year, c1.month + 1) == DaysBeforeMonth(c1.year, c1.month) + DaysInMonth(c1.year, c1.month);
    NextYear(c1.year);
    DaysBeforeYearGrows(c1.year + 1, c2.year);
    DaysBeforeMonthGrows(c2.year, 0, c2.month);
  }

  /** Within one year, a valid date of an earlier month has a smaller day number. */
  lemma EarlierMonthEarlierDay(c1: CivilDate, c2: CivilDate)
    requires ValidDate(c1) && 0 <= c2.month < 12 && 1 <= c2.day
    requires c1.year == c2.year && c1.month < c2.month
    ensures DaysFromCivil(c1) < DaysFromCivil(c2)
  {
    DaysBeforeMonthGrows(c1.year, c1.month + 1, c2.month);
    assert DaysBeforeMonth(c1.year, c1.month + 1) == DaysBeforeMonth(c1.year, c1.month) + DaysInMonth(c1.year, c1.month);
  }

  /** Two valid civil dates with the same day number are the same date. */
  lemma CivilUnique(c1: CivilDate, c2: CivilDate)
    requires ValidDate(c1) && ValidDate(c2)
    requires DaysFromCivil(c1) == DaysFromCivil(c2)
    ensures c1 == c2
  {
    if c1.year < c2.year {
      EarlierYearEarlierDay(c1, c2);
    } else if c2.year < c1.year {
      EarlierYearEarlierDay(c2, c1);
    } else if c1.month < c2.month {
      EarlierMonthEarlierDay(c1, c2);
    } else if c2.month < c1.month {
      EarlierMonthEarlierDay(c2, c1);
    }
  }

  /** The civil date of a valid date's day number is that date. */
  lemma CivilRoundTrip(c: CivilDate)
    requires ValidDate(c)
    ensures CivilFromDays(DaysFromCivil(c)) == c
  {
    CivilUnique(CivilFromDays(DaysFromCivil(c)), c);
  }

  /** The computed conversion yields the specified date. */
  lemma CivilFromDaysIsDateOf(d: int)
    ensures CivilFromDays(d) == DateOf(d)
  {
    CivilUnique(CivilFromDays(d), DateOf(d));
  }

  /**
    JavaScript's `setFullYear(getFullYear() - 1)` on time value `nowMs`: the
    same month, day of the month and time of day one calendar year earlier.
    A 29 February moved into a common year runs on to 1 March.
   */
  function OneYearBefore(nowMs: int): (fromMs: int)
    ensures fromMs % MsPerDay == nowMs % MsPerDay
    ensures var c := DateOf(DayOfTime(nowMs));
      DayOfTime(fromMs) == DaysFromCivil(CivilDate(c.year - 1, c.month, c.day))
  {
    var c := CivilFromDays(DayOfTime(nowMs));
    CivilFromDaysIsDateOf(DayOfTime(nowMs));
    var ago := DaysFromCivil(CivilDate(c.year - 1, c.month, c.day));
    var fromMs := ago * MsPerDay + nowMs % MsPerDay;
    assert fromMs / MsPerDay == ago && fromMs % MsPerDay == nowMs % MsPerDay;
    fromMs
  }

  /** Moving a date between years shifts its day of the year only by the leap day. */
  lemma {:induction false} LeapShift(y1: int, y2: int, m: int)
    requires 0 <= m <= 12
    ensures DaysBeforeMonth(y1, m) - DaysBeforeMonth(y2, m) ==
            if m >= 2 then DaysInYear(y1) - DaysInYear(y2) else 0
  {
    if m > 0 {
      LeapShift(y1, y2, m - 1);
    }
  }

  /** The same day and month a year earlier lies 365 or 366 days back. */
  lemma YearBackSpan(c: CivilDate)
    requires ValidDate(c)
    ensures 365 <= DaysFromCivil(c) - DaysFromCivil(CivilDate(c.year - 1, c.month, c.day)) <= 366
  {
    NextYear(c.year - 1);
    LeapShift(c.year, c.year - 1, c.month);
  }

  /** The instant one calendar year back lies 365 or 366 whole days earlier. */
  lemma OneYearBeforeSpan(nowMs: int)
    ensures 365 * MsPerDay <= nowMs - OneYearBefore(nowMs) <= 366 * MsPerDay
  {
    var d := DayOfTime(nowMs);
    var c := CivilFromDays(d);
    var ago := DaysFromCivil(CivilDate(c.year - 1, c.month, c.day));
    YearBackSpan(c);
    assert nowMs - OneYearBefore(nowMs) == (d - ago) * MsPerDay;
  }

  /** The days after a valid date that stay within its month carry on its day of the month. */
  lemma LaterInMonth(c: CivilDate, t: int)
    requires ValidDate(c) && 0 <= t && c.day + t <= DaysInMonth(c.year, c.month)
    ensures DateOf(DaysFromCivil(c) + t) == CivilDate(c.year, c.month, c.day + t)
  {
    CivilUnique(DateOf(DaysFromCivil(c) + t), CivilDate(c.year, c.month, c.day + t));
  }

  /** The first day of the month after that of valid date `c`. */
  function FirstOfNextMonth(c: CivilDate): (n: CivilDate)
    requires ValidDate(c)
    ensures ValidDate(n) && n.day == 1 && n.month == (c.month + 1) % 12
    ensures DaysFromCivil(n) == DaysFromCivil(c) - c.day + 1 + DaysInMonth(c.year, c.month)
  {
    if c.month < 11 then CivilDate(c.year, c.month + 1, 1)
    else
      MonthsFillYear(c.year);
      NextYear(c.year);
      CivilDate(c.year + 1, 0, 1)
  }

  /** A day a week or more later within the same month is not among its first seven days. */
  lemma SameMonthLater(d1: int, d2: int)
    requires d1 + 7 <= d2 <= d1 + DaysInMonth(DateOf(d1).year, DateOf(d1).month) - DateOf(d1).day
    ensures DayOfMonth(d2) > 7
  {
    var t := d2 - d1;
    LaterInMonth(DateOf(d1), t);
    assert DaysFromCivil(DateOf(d1)) + t == d2;
  }

  /** The start of the month after that of day `d`. */
  ghost function NextMonthStart(d: int): int {
    DaysFromCivil(FirstOfNextMonth(DateOf(d)))
  }

  /** The seven days from the start of the next month are its first seven days. */
  lemma EarlyNextMonth(d1: int, d2: int)
    requires NextMonthStart(d1) <= d2 < NextMonthStart(d1) + 7
    ensures DayOfMonth(d2) <= 7 && MonthOf(d2) == FirstOfNextMonth(DateOf(d1)).month
  {
    var next := FirstOfNextMonth(DateOf(d1));
    var t := d2 - DaysFromCivil(next);
    LaterInMonth(next, t);
    assert DaysFromCivil(next) + t == d2;
  }

  /** Of the days `start + 7 * i`, a later one among the first seven of its month lies in a later month. */
  lemma FirstWeekNotInSameMonth(start: int, a: int, b: int)
    requires a < b && DayOfMonth(start + 7 * a) <= 7 && DayOfMonth(start + 7 * b) <= 7
    ensures NextMonthStart(start + 7 * a) <= start + 7 * b
  {
    if start + 7 * b < NextMonthStart(start + 7 * a) {
      SameMonthLater(start + 7 * a, start + 7 * b);
    }
  }

  /** Of the days `start + 7 * i`, one falls in the first week of the month after that of day `start + 7 * a`. */
  lemma FirstWeekOfNextMonthMet(start: int, a: int, b: int)
    requires a < b && DayOfMonth(start + 7 * a) <= 7
    requires forall i :: a < i < b ==> DayOfMonth(start + 7 * i) > 7
    ensures start + 7 * b < NextMonthStart(start + 7 * a) + 7
  {
    var f := NextMonthStart(start + 7 * a);
    if start + 7 * b >= f + 7 {
      var i := a + (f - start - 7 * a + 6) / 7;
      assert a < i < b;
      assert DayOfMonth(start + 7 * i) > 7;
      EarlyNextMonth(start + 7 * a, start + 7 * i);
    }
  }

  /**
    Of the days `start + 7 * i`, when those at `a` and `b` are among the
    first seven of their months and none between them is, the two lie in
    different months.
   */
  lemma NextFirstWeekChangesMonth(start: int, a: int, b: int)
    requires a < b && DayOfMonth(start + 7 * a) <= 7 && DayOfMonth(start + 7 * b) <= 7
    requires forall i :: a < i < b ==> DayOfMonth(start + 7 * i) > 7
    ensures MonthOf(start + 7 * b) != MonthOf(start + 7 * a)
  {
    FirstWeekNotInSameMonth(start, a, b);
    FirstWeekOfNextMonthMet(start, a, b);
    EarlyNextMonth(start + 7 * a, start + 7 * b);
  }
}
