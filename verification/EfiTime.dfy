/** The conversion of the firmware's calendar time to a signed 64-bit count of seconds. */
module EfiTime {
  import opened MachineInts
  import opened GregorianCalendar
  import opened YearSeconds

  /** The fields of EFI_TIME (UEFI Specification 2.10, section 8.3) that the conversion uses. */
  class FirmwareTime {
    var year: Word16
    var month: Byte
    var day: Byte
    var hour: Byte
    var minute: Byte
    var second: Byte

    constructor (fields: Moment)
      requires FieldsFit(fields)
      ensures Fields() == fields
    {
      year, month, day := fields.year, fields.month, fields.day;
      hour, minute, second := fields.hour, fields.minute, fields.second;
    }

    function Fields(): Moment
      reads this
    {
      Moment(year, month, day, hour, minute, second)
    }
  }

  predicate FieldsFit(t: Moment) {
    && 0 <= t.year < 0x1_0000
    && 0 <= t.month < 0x100
    && 0 <= t.day < 0x100
    && 0 <= t.hour < 0x100
    && 0 <= t.minute < 0x100
    && 0 <= t.second < 0x100
  }

  /** Years up to 2000 are taken for those of a firmware that counts from 1998. */
  function YearOffset(year: int): int {
    if year > 2000 then year - 1900 else year + 98
  }

  /** The month counted from 0, in the byte it is stored in: month 0 becomes 255. */
  function MonthIndex(month: int): int {
    (month + 255) % 256
  }

  /** The calendar date and time the conversion takes the fields for; whole years in the month are carried. */
  function Reading(t: Moment): (read: Moment)
    ensures 1 <= read.month <= 12
  {
    Moment(1900 + YearOffset(t.year) + MonthIndex(t.month) / 12, MonthIndex(t.month) % 12 + 1,
           t.day, t.hour, t.minute, t.second)
  }

  /** The `time_t` the conversion gives for the fields. */
  function Converted(t: Moment): int {
    EpochSeconds(Reading(t))
  }

  /** The fields as one conversion leaves them. */
  function Spent(t: Moment): Moment {
    t.(year := YearOffset(t.year), month := MonthIndex(t.month))
  }

  const SECS_THROUGH_MONTH: seq<int> := [
    0, 31 * 86400, 59 * 86400, 90 * 86400,
    120 * 86400, 151 * 86400, 181 * 86400, 212 * 86400,
    243 * 86400, 273 * 86400, 304 * 86400, 334 * 86400]

  lemma MonthTable(year: int, month: int)
    requires 0 <= month < 12
    ensures |SECS_THROUGH_MONTH| == 12
    ensures SECS_THROUGH_MONTH[month] + (if IsLeapYear(year) && month >= 2 then 86400 else 0)
         == 86400 * DaysToMonth(year, month + 1)
  {
    MonthStarts(year, month + 1);
    assert SECS_THROUGH_MONTH[month] == 86400 * COMMON_MONTH_STARTS[month];
  }

  lemma SmallSeconds(t: Moment)
    requires 1 <= t.month <= 12
    requires 1998 <= t.year <= 0x1_0000 + 1900
    requires 0 <= t.day < 256 && 0 <= t.hour < 256 && 0 <= t.minute < 256 && 0 <= t.second < 256
    ensures 0 <= EpochSeconds(t) < TWO63
  {
    YearsApart(1970, t.year - 1970);
    assert 1970 + (t.year - 1970) == t.year;
    MonthStarts(t.year, t.month);
  }

  lemma ReadingParts(read: Moment, t: Moment)
    requires read == Reading(t) && FieldsFit(t)
    ensures var month := MonthIndex(t.month);
            && (month < 12 ==> read.year == 1900 + YearOffset(t.year) && read.month == month + 1)
            && (month >= 12 ==> read.year == 1900 + Add64(YearOffset(t.year), month / 12)
                                && read.month == month % 12 + 1)
    ensures 98 <= read.year - 1900 <= 0x1_0000
  {
  }

  lemma SecondsOfReading(t: Moment, base: int)
    requires 1 <= t.month <= 12
    requires base == 86400 * (DaysToYear(t.year) + DaysToMonth(t.year, t.month))
    ensures EpochSeconds(t) == base + 86400 * (t.day - 1) + 3600 * t.hour + 60 * t.minute + t.second
  {
  }

  /** Seconds to the first of the month, counted from 0, of year 1900 + `year`. */
  method SecondsToMonth(year: nat, month: nat) returns (sum: nat)
    requires 98 <= year <= 0x1_0000 && month < 12
    ensures sum == U64(86400 * (DaysToYear(1900 + year) + DaysToMonth(1900 + year, month + 1)))
  {
    var isLeap := new LeapFlag();
    sum := TimeYearToSecs(year, isLeap);
    SignedDetermines(sum);
    ghost var exact, total := 86400 * DaysToYear(1900 + year),
                              86400 * (DaysToYear(1900 + year) + DaysToMonth(1900 + year, month + 1));
    assert sum == U64(exact);

    MonthTable(1900 + year, month);
    AddWrapped(exact, SECS_THROUGH_MONTH[month]);
    sum := Add64(sum, SECS_THROUGH_MONTH[month]);
    exact := exact + SECS_THROUGH_MONTH[month];
    if isLeap.value != 0 && month >= 2 {
      assert exact + 86400 == total;
      AddWrapped(exact, 86400);
      sum := Add64(sum, 86400);
    } else {
      assert exact == total;
    }
  }

  /** Converts `time`, using up its year and month fields as scratch space. */
  method TimeEfiTimeToTimeT(time: FirmwareTime) returns (t: int)
    modifies time
    ensures t == Converted(old(time.Fields()))
    ensures time.Fields() == Spent(old(time.Fields()))
    ensures time.year == old(time.year) + if old(time.year) <= 2000 then 98 else -1900
    ensures time.month == if old(time.month) == 0 then 255 else old(time.month) - 1
    ensures time.day == old(time.day)
    ensures time.hour == old(time.hour) && time.minute == old(time.minute) && time.second == old(time.second)
  {
    ghost var read := Reading(time.Fields());
    ReadingParts(read, time.Fields());
    time.year := if time.year > 2000 then time.year - 1900 else time.year + 98;
    time.month := MonthIndex(time.month);
    StoredMonth(old(time.month));
    assert time.Fields() == Spent(old(time.Fields()));

    var year, month: int := time.year, time.month;
    // The month is an unsigned byte, so the source's tests for a negative month never hold.
    if month >= 12 {
      var adj := month / 12;
      month := month % 12;
      year := Add64(year, adj);
    }
    assert year == read.year - 1900 && month == read.month - 1;
    ghost var base := 86400 * (DaysToYear(read.year) + DaysToMonth(read.year, read.month));
    var sum := SecondsToMonth(year, month);
    sum := AddClock(sum, time.day - 1, time.hour, time.minute, time.second, base);
    t := S64(sum);

    SecondsOfReading(read, base);
    SmallSeconds(read);
    SignedReadBack(EpochSeconds(read));
  }

  /** Adds the days before `day` in the month and the time of day; `day` is -1 when the field was 0. */
  method AddClock(start: nat, day: int, hour: int, minute: int, second: int, ghost base: int) returns (sum: nat)
    requires start == U64(base)
    ensures sum == U64(base + 86400 * day + 3600 * hour + 60 * minute + second)
  {
    FoldClock(base, day, hour, minute, second);
    sum := Add64(start, Mul64(86400, U64(day)));
    sum := Add64(sum, Mul64(3600, U64(hour)));
    sum := Add64(sum, Mul64(60, U64(minute)));
    sum := Add64(sum, U64(second));
  }

  /** The wrapping additions for the day and the clock amount to one, even for day 0. */
  lemma FoldClock(e: int, day: int, hour: int, minute: int, second: int)
    ensures Add64(Add64(Add64(Add64(U64(e), Mul64(86400, U64(day))), Mul64(3600, U64(hour))),
                        Mul64(60, U64(minute))), U64(second))
         == U64(e + 86400 * day + 3600 * hour + 60 * minute + second)
  {
    ScaleWrapped(86400, day);
    ScaleWrapped(3600, hour);
    ScaleWrapped(60, minute);
    var e1 := e + 86400 * day;
    var e2 := e1 + 3600 * hour;
    AddBothWrapped(e, 86400 * day);
    AddBothWrapped(e1, 3600 * hour);
    AddBothWrapped(e2, 60 * minute);
    AddBothWrapped(e2 + 60 * minute, second);
  }

  /** A valid date after 2000 is read as itself. */
  lemma ReadsRecentDates(t: Moment)
    requires Valid(t) && t.year > 2000
    ensures Reading(t) == t
  {
    IndexOfMonth(t.month);
  }

  lemma ReadsOldDates(t: Moment)
    requires Valid(t) && t.year <= 2000
    ensures Reading(t) == t.(year := t.year + 1998)
  {
    IndexOfMonth(t.month);
  }

  /** The conversion counts the seconds of the calendar just for the years after 2000. */
  lemma ExactFrom2001(t: Moment)
    requires Valid(t)
    ensures Converted(t) == EpochSeconds(t) <==> t.year > 2000
  {
    if t.year > 2000 {
      ReadsRecentDates(t);
    } else {
      ReadsOldDates(t);
      YearsOutweighMonths(t, t.(year := t.year + 1998));
    }
  }

  /** Two whole years outweigh every difference in the month. */
  lemma YearsOutweighMonths(t: Moment, u: Moment)
    requires 1 <= t.month <= 12 && 1 <= u.month <= 12
    requires t.year + 2 <= u.year
    requires t.day == u.day && t.hour == u.hour && t.minute == u.minute && t.second == u.second
    ensures EpochSeconds(t) < EpochSeconds(u)
  {
    YearsApart(t.year, u.year - t.year);
    MonthStarts(t.year, t.month);
    MonthStarts(u.year, u.month);
    assert DayNumber(t) < DayNumber(u);
  }

  /** A clock at the epoch that ticks as often as the conversion says shows the date it was given. */
  lemma ConversionIsClock(epoch: Moment, t: Moment, n: nat)
    requires Valid(epoch) && EpochSeconds(epoch) == 0 && Valid(t) && t.year > 2000
    ensures n == Converted(t) <==> After(epoch, n) == t
  {
    ExactFrom2001(t);
    ClockShows(epoch, t, n);
  }

  /** Converted times are ordered, and told apart, like the dates. */
  lemma ConversionIsOrdered(t: Moment, u: Moment)
    requires Valid(t) && Valid(u) && t.year > 2000 && u.year > 2000
    ensures Before(t, u) <==> Converted(t) < Converted(u)
    ensures t == u <==> Converted(t) == Converted(u)
  {
    ReadsRecentDates(t);
    ReadsRecentDates(u);
    OrderIsSeconds(t, u);
  }

  /**
   * The seconds at which the converted time does not advance by one: the end of 2000, and the ends of those
   * Februaries before it whose length differs from that of the February 1998 years later.
   */
  predicate AtSeam(t: Moment)
    requires Valid(t)
  {
    var next := NextSecond(t);
    && t.year <= 2000
    && ((t.year == 2000 && next.year == 2001)
        || (t.month == 2 && next.month == 3 && IsLeapYear(t.year) != IsLeapYear(t.year + 1998)))
  }

  /** Over midnight, one second more is one day more. */
  lemma MidnightTick(t: Moment, u: Moment)
    requires 1 <= t.month <= 12 && 1 <= u.month <= 12
    requires t.hour == 23 && t.minute == 59 && t.second == 59
    requires u.hour == 0 && u.minute == 0 && u.second == 0
    ensures EpochSeconds(u) == EpochSeconds(t) + 1 <==> DayNumber(u) == DayNumber(t) + 1
  {
  }

  lemma DaytimeTick(t: Moment, u: Moment)
    requires 1 <= t.month <= 12
    requires t.year == u.year && t.month == u.month && t.day == u.day
    requires 3600 * u.hour + 60 * u.minute + u.second == 3600 * t.hour + 60 * t.minute + t.second + 1
    ensures EpochSeconds(u) == EpochSeconds(t) + 1
  {
    SameDate(t, u);
  }

  /** One tick of the clock raises the converted time by exactly one, everywhere but at the seams. */
  lemma ConvertedTick(t: Moment)
    requires Valid(t)
    ensures Converted(NextSecond(t)) == Converted(t) + 1 <==> !AtSeam(t)
  {
    if t.year > 2000 {
      ReadsRecentDates(t);
      ReadsRecentDates(NextSecond(t));
      Tick(t);
    } else {
      ReadsOldDates(t);
      OldTick(t, t.(year := t.year + 1998));
    }
  }

  lemma OldTick(t: Moment, read: Moment)
    requires Valid(t) && t.year <= 2000 && read == t.(year := t.year + 1998)
    ensures Converted(NextSecond(t)) == EpochSeconds(read) + 1 <==> !AtSeam(t)
  {
    var next := NextSecond(t);
    if next.year != t.year {
      YearEnds(t, read);
    } else {
      ReadsOldDates(next);
      if t.second < 59 || t.minute < 59 || t.hour < 23 {
        DaytimeTick(read, Reading(next));
      } else {
        MonthEnds(t, read);
        MidnightTick(read, Reading(next));
      }
    }
  }

  /** Within a year, midnight advances the shifted day count by one unless a differing February ends. */
  lemma MonthEnds(t: Moment, read: Moment)
    requires Valid(t) && read == t.(year := t.year + 1998)
    requires NextMidnight(t).year == t.year
    ensures var next := NextMidnight(t).(year := read.year);
            DayNumber(next) == DayNumber(read) + 1
            <==> !(t.month == 2 && next.month == 3 && IsLeapYear(t.year) != IsLeapYear(read.year))
  {
    if t.day == MonthLength(t.year, t.month) {
      assert DaysToMonth(read.year, t.month + 1) == DaysToMonth(read.year, t.month) + MonthLength(read.year, t.month);
    }
  }

  /** New Year advances the shifted count by one second, except for the jump back from 3998 to 2001. */
  lemma YearEnds(t: Moment, read: Moment)
    requires Valid(t) && t.year <= 2000 && read == t.(year := t.year + 1998)
    requires NextSecond(t).year != t.year
    ensures Valid(read)
    ensures Converted(NextSecond(t)) == EpochSeconds(read) + 1 <==> t.year < 2000
  {
    var next := NextSecond(t);
    if t.year < 2000 {
      ReadsOldDates(next);
      Tick(read);
      assert NextSecond(read) == Reading(next);
    } else {
      ReadsRecentDates(next);
      Increasing(next, read);
    }
  }

  /** Years up to 2000 are converted as the years 1998 later. */
  function ShiftedYear(year: int): int {
    if year <= 2000 then year + 1998 else year
  }

  /**
   * Any month is converted as one of the calendar: numbers beyond 12 carry into the year, and 0 is taken for April 21
   * years on.
   */
  lemma MonthsCarry(t: Moment)
    requires 0 <= t.month < 256
    ensures var year := ShiftedYear(t.year);
            Converted(t) == EpochSeconds(if t.month == 0 then t.(year := year + 21, month := 4)
                                         else t.(year := year + (t.month - 1) / 12, month := (t.month - 1) % 12 + 1))
  {
    if t.month >= 1 {
      IndexOfMonth(t.month);
    }
  }

  /** The smaller fields count what they should, whatever they hold: day 0 is the day before the first. */
  lemma FieldsAddUp(t: Moment, days: int, hours: int, minutes: int, seconds: int)
    ensures var u := t.(day := t.day + days, hour := t.hour + hours, minute := t.minute + minutes,
                        second := t.second + seconds);
            Converted(u) == Converted(t) + 86400 * days + 3600 * hours + 60 * minutes + seconds
  {
    var u := t.(day := t.day + days, hour := t.hour + hours, minute := t.minute + minutes,
                second := t.second + seconds);
    var base := 86400 * (DaysToYear(Reading(t).year) + DaysToMonth(Reading(t).year, Reading(t).month));
    SecondsOfReading(Reading(t), base);
    SecondsOfReading(Reading(u), base);
  }

  lemma StoredMonth(month: int)
    requires 0 <= month < 256
    ensures MonthIndex(month) == if month == 0 then 255 else month - 1
  {
  }

  lemma IndexOfMonth(month: int)
    requires 1 <= month <= 256
    ensures MonthIndex(month) == month - 1
  {
  }

  /** Converting the same object again never gives the same time. */
  lemma SecondConversionDiffers(t: Moment)
    requires FieldsFit(t)
    ensures Converted(Spent(t)) != Converted(t)
  {
    SpentYearDiffers(t);
    var first, second := Reading(t), Reading(Spent(t));
    if first.year < second.year {
      YearsOutweighMonths(first, second);
    } else {
      YearsOutweighMonths(second, first);
    }
  }

  /** The date a second conversion gives the seconds of: a month earlier, and 98 years later for most. */
  lemma SecondConversion(t: Moment)
    requires FieldsFit(t)
    ensures var year := if t.year <= 1902 then t.year + 2096 else if t.year <= 3900 then t.year + 98 else t.year - 1900;
            Converted(Spent(t)) ==
            EpochSeconds(if t.month == 0 then t.(year := year + 21, month := 3)
                         else if t.month == 1 then t.(year := year + 21, month := 4)
                         else t.(year := year + (t.month - 2) / 12, month := (t.month - 2) % 12 + 1))
  {
    StoredMonth(t.month);
    MonthsCarry(Spent(t));
  }

  lemma SpentYearDiffers(t: Moment)
    requires FieldsFit(t)
    ensures var first, second := Reading(t).year, Reading(Spent(t)).year;
            second >= first + 2 || first >= second + 2
  {
    if t.month > 0 {
      IndexOfMonth(t.month);
    }
    assert 0 <= MonthIndex(t.month) / 12 <= 21;
    assert 0 <= MonthIndex(MonthIndex(t.month)) / 12 <= 21;
  }
}
