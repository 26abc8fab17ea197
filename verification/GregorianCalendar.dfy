/** The proleptic Gregorian calendar, day by day and second by second. */
module GregorianCalendar {

  predicate IsLeapYear(year: int) {
    year % 4 == 0 && (year % 100 != 0 || year % 400 == 0)
  }

  function YearLength(year: int): nat {
    if IsLeapYear(year) then 366 else 365
  }

  function MonthLength(year: int, month: int): nat {
    if month == 2 then if IsLeapYear(year) then 29 else 28
    else if month in {4, 6, 9, 11} then 30
    else 31
  }

  /** Days in the `n` years from `first` on, year by year. */
  function DaysInYears(first: int, n: nat): nat {
    if n == 0 then 0 else DaysInYears(first, n - 1) + YearLength(first + n - 1)
  }

  /** Days from 1 January 1970 to 1 January of `year`, negative for earlier years. */
  function DaysToYear(year: int): int {
    if year >= 1970 then DaysInYears(1970, year - 1970) else 0 - DaysInYears(year, 1970 - year)
  }

  /** Days from 1 January to the first of `month`, summing month lengths one by one. */
  function DaysToMonth(year: int, month: int): nat
    requires 1 <= month <= 13
    decreases month
  {
    if month == 1 then 0 else DaysToMonth(year, month - 1) + MonthLength(year, month - 1)
  }

  datatype Moment = Moment(year: int, month: int, day: int, hour: int, minute: int, second: int)

  predicate Valid(t: Moment) {
    && 1 <= t.month <= 12
    && 1 <= t.day <= MonthLength(t.year, t.month)
    && 0 <= t.hour < 24
    && 0 <= t.minute < 60
    && 0 <= t.second < 60
  }

  predicate IsEpoch(t: Moment) {
    t.year == 1970 && t.month == 1 && t.day == 1 && t.hour == 0 && t.minute == 0 && t.second == 0
  }

  function NextMidnight(t: Moment): (next: Moment)
    requires Valid(t)
    ensures Valid(next)
  {
    if t.day < MonthLength(t.year, t.month) then Moment(t.year, t.month, t.day + 1, 0, 0, 0)
    else if t.month < 12 then Moment(t.year, t.month + 1, 1, 0, 0, 0)
    else Moment(t.year + 1, 1, 1, 0, 0, 0)
  }

  /** What a clock on the wall shows one second later. */
  function NextSecond(t: Moment): (next: Moment)
    requires Valid(t)
    ensures Valid(next)
  {
    if t.second < 59 then t.(second := t.second + 1)
    else if t.minute < 59 then t.(minute := t.minute + 1, second := 0)
    else if t.hour < 23 then t.(hour := t.hour + 1, minute := 0, second := 0)
    else NextMidnight(t)
  }

  /** The clock after `n` ticks. */
  function After(t: Moment, n: nat): (later: Moment)
    requires Valid(t)
    ensures Valid(later)
  {
    if n == 0 then t else NextSecond(After(t, n - 1))
  }

  /** The order in which the clock shows moments. */
  predicate Before(t: Moment, u: Moment) {
    t.year < u.year || (t.year == u.year &&
    (t.month < u.month || (t.month == u.month &&
    (t.day < u.day || (t.day == u.day &&
    (t.hour < u.hour || (t.hour == u.hour &&
    (t.minute < u.minute || (t.minute == u.minute &&
    t.second < u.second)))))))))
  }

  /** Days from 1 January 1970 to the date of `t`. */
  function DayNumber(t: Moment): int
    requires 1 <= t.month <= 12
  {
    DaysToYear(t.year) + DaysToMonth(t.year, t.month) + t.day - 1
  }

  function EpochSeconds(t: Moment): int
    requires 1 <= t.month <= 12
  {
    86400 * DayNumber(t) + 3600 * t.hour + 60 * t.minute + t.second
  }

  /** Leap years in the years 1 to `year`, by inclusion and exclusion. */
  function LeapsThrough(year: int): int {
    year / 4 - year / 100 + year / 400
  }

  lemma Quotient4(x: int, k: int, r: int)
    requires x == 4 * k + r && 0 <= r < 4
    ensures x / 4 == k && x % 4 == r
  {
  }

  lemma Quotient100(x: int, k: int, r: int)
    requires x == 100 * k + r && 0 <= r < 100
    ensures x / 100 == k && x % 100 == r
  {
  }

  lemma Quotient400(x: int, k: int, r: int)
    requires x == 400 * k + r && 0 <= r < 400
    ensures x / 400 == k && x % 400 == r
  {
  }

  /** The count of leap years grows by one at each leap year. */
  lemma LeapsStep(year: int)
    ensures LeapsThrough(year) == LeapsThrough(year - 1) + if IsLeapYear(year) then 1 else 0
  {
    var q, c, p := year / 4, year / 100, year / 400;
    if year % 4 == 0 { Quotient4(year - 1, q - 1, 3); } else { Quotient4(year - 1, q, year % 4 - 1); }
    if year % 100 == 0 { Quotient100(year - 1, c - 1, 99); } else { Quotient100(year - 1, c, year % 100 - 1); }
    if year % 400 == 0 { Quotient400(year - 1, p - 1, 399); } else { Quotient400(year - 1, p, year % 400 - 1); }
    MultiplesNest(year);
  }

  lemma MultiplesNest(x: int)
    ensures x % 400 == 0 ==> x % 100 == 0
    ensures x % 100 == 0 ==> x % 4 == 0
  {
    if x % 400 == 0 { Quotient100(x, 4 * (x / 400), 0); }
    if x % 100 == 0 { Quotient4(x, 25 * (x / 100), 0); }
  }

  lemma {:induction false} FirstYearApart(first: int, n: nat)
    requires n > 0
    ensures DaysInYears(first, n) == YearLength(first) + DaysInYears(first + 1, n - 1)
  {
    if n > 1 {
      FirstYearApart(first, n - 1);
      assert first + n - 1 == first + 1 + (n - 1) - 1;
    }
  }

  /** From any 1 January to the next is one year length, on both sides of 1970. */
  lemma YearStep(year: int)
    ensures DaysToYear(year + 1) == DaysToYear(year) + YearLength(year)
  {
    if year >= 1970 {
      assert 1970 + (year + 1 - 1970) - 1 == year;
    } else {
      FirstYearApart(year, 1970 - year);
    }
  }

  lemma {:induction false} DaysToYearClosed(year: int)
    ensures DaysToYear(year) == 365 * (year - 1970) + LeapsThrough(year - 1) - 477
    decreases if year >= 1970 then year - 1970 else 1970 - year
  {
    if year == 1970 {
      assert LeapsThrough(1969) == 477;
    } else if year > 1970 {
      DaysToYearClosed(year - 1);
      YearStep(year - 1);
      LeapsStep(year - 1);
    } else {
      DaysToYearClosed(year + 1);
      YearStep(year);
      LeapsStep(year);
    }
  }

  /** The year part of the formula in section 4.16 of IEEE Std 1003.1-2017, for `tm_year` from 70 on. */
  function PosixYearSeconds(tmYear: int): int {
    (tmYear - 70) * 31536000 + ((tmYear - 69) / 4) * 86400
    - ((tmYear - 1) / 100) * 86400 + ((tmYear + 299) / 400) * 86400
  }

  lemma PosixFormula(tmYear: int)
    ensures PosixYearSeconds(tmYear) == 86400 * DaysToYear(1900 + tmYear)
  {
    DaysToYearClosed(1900 + tmYear);
    assert 1900 + tmYear - 1 == 1899 + tmYear;
    Quotient4(1899 + tmYear, (tmYear - 69) / 4 + 492, (tmYear - 69) % 4);
    Quotient100(1899 + tmYear, (tmYear - 1) / 100 + 19, (tmYear - 1) % 100);
    Quotient400(1899 + tmYear, (tmYear + 299) / 400 + 4, (tmYear + 299) % 400);
  }

  /** The calendar repeats every 400 years, after 146097 days. */
  lemma FourCenturyPeriod(year: int)
    ensures DaysToYear(year + 400) == DaysToYear(year) + 146097
    ensures IsLeapYear(year + 400) == IsLeapYear(year)
  {
    DaysToYearClosed(year);
    DaysToYearClosed(year + 400);
    LeapsPerPeriod(year - 1);
    assert year + 400 - 1 == year - 1 + 400;
    Quotient4(year + 400, year / 4 + 100, year % 4);
    Quotient100(year + 400, year / 100 + 4, year % 100);
    Quotient400(year + 400, year / 400 + 1, year % 400);
  }

  lemma LeapsPerPeriod(year: int)
    ensures LeapsThrough(year + 400) == LeapsThrough(year) + 97
  {
    Quotient4(year + 400, year / 4 + 100, year % 4);
    Quotient100(year + 400, year / 100 + 4, year % 100);
    Quotient400(year + 400, year / 400 + 1, year % 400);
  }

  /** `n` years last between 365 and 366 days each. */
  lemma {:induction false} YearsApart(year: int, n: nat)
    ensures 365 * n <= DaysToYear(year + n) - DaysToYear(year) <= 366 * n
    ensures n > 0 ==> DaysToYear(year + n) >= DaysToYear(year) + YearLength(year) + 365 * (n - 1)
    decreases n
  {
    if n > 0 {
      YearsApart(year, n - 1);
      YearStep(year + n - 1);
    }
  }

  lemma {:induction false} MonthsApart(year: int, m: int, n: int)
    requires 1 <= m <= n <= 13
    ensures DaysToMonth(year, n) >= DaysToMonth(year, m) + if m < n then MonthLength(year, m) else 0
    decreases n
  {
    if m < n {
      MonthsApart(year, m, n - 1);
    }
  }

  /** The month lengths add up to the year. */
  lemma MonthsFillYear(year: int)
    ensures DaysToMonth(year, 13) == YearLength(year)
  {
    MonthStarts(year, 13);
  }

  /** Where the months start in a common year; later months start a day later in a leap year. */
  const COMMON_MONTH_STARTS := [0, 31, 59, 90, 120, 151, 181, 212, 243, 273, 304, 334, 365]

  lemma {:induction false} MonthStarts(year: int, month: int)
    requires 1 <= month <= 13
    ensures DaysToMonth(year, month)
         == COMMON_MONTH_STARTS[month - 1] + if IsLeapYear(year) && month > 2 then 1 else 0
    decreases month
  {
    if month > 1 {
      MonthStarts(year, month - 1);
    }
  }

  lemma DayOfYearBound(t: Moment)
    requires Valid(t)
    ensures 0 <= DaysToMonth(t.year, t.month) + t.day - 1 < YearLength(t.year)
  {
    MonthsApart(t.year, t.month, 13);
    MonthsFillYear(t.year);
  }

  lemma NextDayCounts(t: Moment)
    requires Valid(t)
    ensures DayNumber(NextMidnight(t)) == DayNumber(t) + 1
  {
    if t.day == MonthLength(t.year, t.month) && t.month == 12 {
      MonthsFillYear(t.year);
      YearStep(t.year);
      assert DaysToMonth(t.year, 13) == DaysToMonth(t.year, 12) + MonthLength(t.year, 12);
    }
  }

  /** One tick of the clock is one second, over every carry. */
  lemma Tick(t: Moment)
    requires Valid(t)
    ensures EpochSeconds(NextSecond(t)) == EpochSeconds(t) + 1
  {
    if t.second < 59 || t.minute < 59 || t.hour < 23 {
      SameDate(t, NextSecond(t));
    } else {
      NextDayCounts(t);
    }
  }

  lemma SameDate(t: Moment, u: Moment)
    requires 1 <= t.month <= 12
    requires t.year == u.year && t.month == u.month && t.day == u.day
    ensures DayNumber(t) == DayNumber(u)
  {
  }

  /** Later moments have more seconds. */
  lemma Increasing(t: Moment, u: Moment)
    requires Valid(t) && Valid(u) && Before(t, u)
    ensures EpochSeconds(t) < EpochSeconds(u)
  {
    DayOfYearBound(t);
    DayOfYearBound(u);
    if t.year < u.year {
      YearsApart(t.year, u.year - t.year);
    } else if t.month < u.month {
      MonthsApart(t.year, t.month, u.month);
    }
  }

  lemma OrderIsSeconds(t: Moment, u: Moment)
    requires Valid(t) && Valid(u)
    ensures Before(t, u) <==> EpochSeconds(t) < EpochSeconds(u)
    ensures t == u <==> EpochSeconds(t) == EpochSeconds(u)
  {
    if Before(t, u) {
      Increasing(t, u);
    } else if Before(u, t) {
      Increasing(u, t);
    }
  }

  lemma {:induction false} TicksAddUp(t: Moment, n: nat)
    requires Valid(t)
    ensures EpochSeconds(After(t, n)) == EpochSeconds(t) + n
  {
    if n > 0 {
      var u := After(t, n - 1);
      TicksAddUp(t, n - 1);
      Tick(u);
      assert After(t, n) == NextSecond(u);
    }
  }

  /** The seconds between two moments are exactly the ticks that take a clock from one to the other. */
  lemma ClockRunsFrom(start: Moment, t: Moment, n: nat)
    requires Valid(start) && Valid(t)
    ensures After(start, n) == t <==> EpochSeconds(t) == EpochSeconds(start) + n
  {
    TicksAddUp(start, n);
    OrderIsSeconds(After(start, n), t);
  }

  lemma EpochIsZero(epoch: Moment)
    requires IsEpoch(epoch)
    ensures EpochSeconds(epoch) == 0
  {
    assert DaysToYear(epoch.year) == 0;
    assert DayNumber(epoch) == 0;
  }

  /** Seconds since the epoch are exactly the ticks a clock that started at zero seconds needs to show `t`. */
  lemma ClockShows(epoch: Moment, t: Moment, n: nat)
    requires Valid(epoch) && EpochSeconds(epoch) == 0 && Valid(t)
    ensures After(epoch, n) == t <==> EpochSeconds(t) == n
  {
    ClockRunsFrom(epoch, t, n);
  }
}
