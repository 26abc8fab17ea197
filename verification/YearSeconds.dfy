/** The conversion of a year, counted from 1900, to seconds since the epoch. */
module YearSeconds {
  import opened MachineInts
  import opened GregorianCalendar

  /** The object `int *is_leap` points to. */
  class LeapFlag {
    var value: CInt

    constructor () {
      value := 0;
    }
  }

  const SECONDS_PER_COMMON_YEAR := 31536000
  const SECONDS_PER_DAY := 86400

  /** The first year whose number of 400-year cycles since 2000 is cut off by the conversion to `int`. */
  const FIRST_LOST_YEAR: int := 100 + 400 * 0x8000_0000

  function LeapBit(year: int): CInt {
    if IsLeapYear(1900 + year) then 1 else 0
  }

  /** The unsigned difference `year - 100`, which wraps around for years before 2000. */
  function YearsPast2000(year: nat): nat {
    if year >= 100 then year - 100 else TWO64 + year - 100
  }

  /** Leap days after the one of 2000, from the cycles, centuries and four-year groups of `n` years past 2000. */
  function LeapTerm(n: nat, cycles: int): int {
    97 * cycles + 24 * (n % 400 / 100) + n % 100 / 4 - if IsLeapYear(2000 + n) then 1 else 0
  }

  /** No step of the leap-day count, from left to right, leaves the range of `int`. */
  predicate StepsFit(cycles: int, centuries: int, quads: int, leap: int) {
    && FitsInt(97 * cycles)
    && FitsInt(97 * cycles + 24 * centuries)
    && FitsInt(97 * cycles + 24 * centuries - leap)
    && FitsInt(quads + 97 * cycles + 24 * centuries - leap)
  }

  /** The leap-day count of `year` is defined: it overflows nowhere. */
  predicate LeapCountFits(year: nat) {
    var n := YearsPast2000(year);
    StepsFit(ToCInt(n / 400) as int, n % 400 / 100, n % 100 / 4, if IsLeapYear(2000 + n) then 1 else 0)
  }

  /** The last year whose leap-day count fits an `int`. */
  const LAST_YEAR: int := 8_855_602_772

  /** Once the cycle count is cut off, the leap-day count may fit again. */
  predicate FitsPastCutOff(year: nat) {
    FIRST_LOST_YEAR <= year < TWO64 && LeapCountFits(year)
  }

  /** The count is defined for no year that wraps below 2000 on the way to it. */
  lemma FitsOnlyFrom2000(year: nat)
    requires year < TWO64
    ensures U64(year - 100) == YearsPast2000(year)
    ensures LeapCountFits(year) ==> year >= 100
  {
    if year < 100 {
      U64Congruent(year - 100, year - 100 + TWO64, -1);
      CountOverflows(year - 100 + TWO64);
    }
  }

  lemma CountOverflows(n: nat)
    requires TWO64 - 100 <= n < TWO64
    ensures !FitsInt(97 * ToCInt(n / 400) as int)
  {
    if n < 400 * 46116860184273879 {
      Quotient400(n, 46116860184273878, n - 400 * 46116860184273878);
    } else {
      Quotient400(n, 46116860184273879, n - 400 * 46116860184273879);
    }
  }

  lemma LeapTermIsCalendar(n: nat)
    ensures DaysToYear(2000 + n) == 10958 + 365 * n + LeapTerm(n, n / 400)
  {
    DaysToYearClosed(2000 + n);
    LeapsFrom2000(n);
    assert 2000 + n - 1 == 1999 + n;
  }

  /** The leap rule for `n` years past 2000, in terms of the position in the 400-year cycle. */
  lemma LeapInCycle(n: nat)
    ensures n % 100 == n % 400 % 100
    ensures IsLeapYear(2000 + n) <==> n % 400 == 0 || (n % 100 != 0 && n % 100 % 4 == 0)
  {
    var c, r := n / 400, n % 400;
    var e, q := r / 100, r % 100;
    assert n == 100 * (4 * c + e) + q;
    Quotient100(n, 4 * c + e, q);
    assert 2000 + n == 100 * (20 + 4 * c + e) + q;
    Quotient100(2000 + n, 20 + 4 * c + e, q);
    assert 2000 + n == 4 * (500 + 100 * c + 25 * e + q / 4) + q % 4;
    Quotient400(2000 + n, 5 + c, r);
    Quotient4(2000 + n, 500 + 100 * c + 25 * e + q / 4, q % 4);
  }

  lemma LeapsFrom2000(n: nat)
    ensures LeapsThrough(1999 + n) == 485 + LeapTerm(n, n / 400)
  {
    LeapTermInCycle(n);
    LeapsInCycle(n % 400);
    PeriodOfLeaps(1999 + n % 400, n / 400);
    assert 1999 + n == 1999 + n % 400 + 400 * (n / 400);
  }

  lemma LeapTermInCycle(n: nat)
    ensures LeapTerm(n, n / 400) == 97 * (n / 400) + LeapTerm(n % 400, 0)
  {
    var r := n % 400;
    assert r % 400 == r;
    LeapInCycle(n);
    LeapInCycle(r);
    assert IsLeapYear(2000 + n) == IsLeapYear(2000 + r);
    assert n % 100 == r % 100;
  }

  lemma {:induction false} PeriodOfLeaps(year: int, c: nat)
    ensures LeapsThrough(year + 400 * c) == LeapsThrough(year) + 97 * c
  {
    if c > 0 {
      PeriodOfLeaps(year, c - 1);
      LeapsPerPeriod(year + 400 * (c - 1));
    }
  }

  lemma LeapsInCycle(r: nat)
    requires r < 400
    ensures LeapsThrough(1999 + r) == 485 + LeapTerm(r, 0)
  {
    var e, q := r / 100, r % 100;
    assert r == 100 * e + q;
    assert (1999 + r) / 4 == 499 + 25 * e + (q + 3) / 4;
    assert (1999 + r) / 100 == 19 + e + if q > 0 then 1 else 0;
    assert (1999 + r) / 400 == 4 + if r > 0 then 1 else 0;
    LeapInCycle(r);
    assert q > 0 ==> (q + 3) / 4 == q / 4 + if q % 4 == 0 then 0 else 1;
  }

  /** How often the cycle count of `n` years past 2000 overflows 32 bits on its way into an `int`. */
  function CyclesLost(n: nat): nat {
    (n / 400 + 0x8000_0000) / TWO32
  }

  lemma CycleCountCut(n: nat)
    requires n < TWO64
    ensures ToCInt(n / 400) as int == n / 400 - CyclesLost(n) * TWO32
    ensures CyclesLost(n) < 0x200_0000
    ensures CyclesLost(n) == 0 <==> n + 100 < FIRST_LOST_YEAR
  {
    var c := n / 400;
    assert c < TWO64 / 400 + 1;
    assert CyclesLost(n) == c / TWO32 + if c % TWO32 < 0x8000_0000 then 0 else 1;
  }

  /** What the truncated cycle count does to the seconds: they are right just when nothing was cut off. */
  lemma SecondsFromCycles(n: nat, leaps: int, secs: nat)
    requires n < TWO64 && FitsInt(leaps)
    requires leaps == LeapTerm(n, ToCInt(n / 400) as int)
    requires secs == U64(n * SECONDS_PER_COMMON_YEAR + leaps * SECONDS_PER_DAY + 946771200)
    ensures S64(secs) == SECONDS_PER_DAY * DaysToYear(2000 + n) <==> n + 100 < FIRST_LOST_YEAR
  {
    LeapTermIsCalendar(n);
    CycleCountCut(n);
    var exact, lost := SECONDS_PER_DAY * DaysToYear(2000 + n), CyclesLost(n);
    LeapTermCut(n, lost);
    assert n * SECONDS_PER_COMMON_YEAR + leaps * SECONDS_PER_DAY + 946771200 == exact - lost * (65475 * 128 * TWO32);
    LostCyclesShow(exact, lost);
    SignedDetermines(secs);
    if lost == 0 {
      assert 0 <= exact < TWO63;
      SignedReadBack(exact);
    }
  }

  lemma LeapTermCut(n: nat, lost: nat)
    ensures LeapTerm(n, n / 400 - lost * TWO32) == LeapTerm(n, n / 400) - 97 * lost * TWO32
  {
  }

  /** Cut-off cycles always change the 64-bit result, because fewer than 2^25 of them can be lost. */
  lemma LostCyclesShow(x: int, lost: nat)
    requires lost < 0x200_0000
    ensures U64(x - lost * (65475 * 128 * TWO32)) == U64(x) <==> lost == 0
  {
    var y := x - lost * (65475 * 128 * TWO32);
    if U64(y) == U64(x) {
      var j := x / TWO64 - y / TWO64;
      assert lost * (65475 * 128 * TWO32) == j * TWO64;
      OddFactorCancels(lost, j);
    }
  }

  lemma FastLeapRule(year: nat)
    requires 2 <= year <= 138
    ensures IsLeapYear(1900 + year) <==> (year - 68) % 4 == 0
  {
    Quotient4(1900 + year, (year - 68) / 4 + 492, (year - 68) % 4);
    if year < 100 {
      Quotient100(1900 + year, 19, year);
    } else {
      Quotient100(1900 + year, 20, year - 100);
      Quotient400(1900 + year, 5, year - 100);
    }
  }

  /** The quick branch's arithmetic, before any wrap-around. */
  lemma FastCount(year: nat)
    requires 2 <= year <= 138
    ensures var leaps := (year - 68) / 4 - if (year - 68) % 4 == 0 then 1 else 0;
            SECONDS_PER_COMMON_YEAR * (year - 70) + SECONDS_PER_DAY * leaps == SECONDS_PER_DAY * DaysToYear(1900 + year)
    ensures IsLeapYear(1900 + year) <==> (year - 68) % 4 == 0
  {
    DaysToYearClosed(1900 + year);
    assert 1900 + year - 1 == 1899 + year;
    var q, r := (year - 68) / 4, (year - 68) % 4;
    if r == 0 { Quotient4(1899 + year, q + 491, 3); } else { Quotient4(1899 + year, q + 492, r - 1); }
    if year <= 100 {
      Quotient100(1899 + year, 19, year - 1);
      Quotient400(1899 + year, 4, year + 299);
    } else {
      Quotient100(1899 + year, 20, year - 101);
      Quotient400(1899 + year, 5, year - 101);
    }
    FastLeapRule(year);
  }

  /** The quick branch for 1902 to 2038: every fourth year is a leap year. */
  method YearToSecsFast(year: nat, isLeap: LeapFlag?) returns (secs: nat)
    requires 2 <= year <= 138
    modifies if isLeap == null then {} else {isLeap}
    ensures secs < TWO64
    ensures S64(secs) == SECONDS_PER_DAY * DaysToYear(1900 + year)
    ensures isLeap != null ==> isLeap.value == LeapBit(year)
  {
    var y := year as CInt;
    var leaps := ShiftRight2((y - 68) as int) as CInt;
    if (y - 68) as int % 4 == 0 {
      leaps := leaps - 1;
      if isLeap != null { isLeap.value := 1; }
    } else if isLeap != null {
      isLeap.value := 0;
    }
    secs := Add64(Mul64(SECONDS_PER_COMMON_YEAR, U64((y - 70) as int)), Mul64(SECONDS_PER_DAY, U64(leaps as int)));

    WrapOnce(SECONDS_PER_COMMON_YEAR, (y - 70) as int, SECONDS_PER_DAY, leaps as int);
    FastCount(year);
    ShiftIsFloor(year - 68);
    SignedReadBack(SECONDS_PER_DAY * DaysToYear(1900 + year));
  }

  /** The four wrapping additions of the cycle branch amount to one. */
  lemma FoldYearSum(n: nat, leaps: int)
    requires n < TWO64
    ensures Add64(Add64(Add64(Mul64(n, SECONDS_PER_COMMON_YEAR), Mul64(U64(leaps), SECONDS_PER_DAY)), 946684800),
                  SECONDS_PER_DAY)
         == U64(n * SECONDS_PER_COMMON_YEAR + leaps * SECONDS_PER_DAY + 946771200)
  {
    var sum := SECONDS_PER_COMMON_YEAR * n + SECONDS_PER_DAY * leaps;
    assert Add64(Mul64(n, SECONDS_PER_COMMON_YEAR), Mul64(U64(leaps), SECONDS_PER_DAY)) == U64(sum) by {
      WrapOnce(SECONDS_PER_COMMON_YEAR, n, SECONDS_PER_DAY, leaps);
      assert U64(n) == n;
    }
    AddWrapped(sum, 946684800);
    AddWrapped(sum + 946684800, SECONDS_PER_DAY);
  }

  /** Takes a position in the 400-year cycle apart; the cycle starts with the leap year 2000. */
  method SplitCycle(position: CInt) returns (centuries: CInt, leaps: CInt, leap: CInt)
    requires 0 <= position < 400
    ensures centuries == position / 100 && leaps == position % 100 / 4
    ensures leap == if position == 0 || (position % 100 != 0 && position % 100 % 4 == 0) then 1 else 0
  {
    var rem := position;
    if rem == 0 {
      leap := 1;
      centuries := 0;
      leaps := 0;
    } else {
      if rem >= 200 {
        if rem >= 300 { centuries := 3; rem := rem - 300; }
        else { centuries := 2; rem := rem - 200; }
      } else {
        if rem >= 100 { centuries := 1; rem := rem - 100; }
        else { centuries := 0; }
      }
      Quotient100(position as int, centuries as int, rem as int);
      if rem == 0 {
        leap := 0;
        leaps := 0;
      } else {
        leaps := rem / 4;
        rem := rem % 4;
        leap := if rem == 0 then 1 else 0;
      }
    }
  }

  /** The branch that splits the years since 2000 into 400-year cycles, centuries and groups of four. */
  method YearToSecsByCycles(year: nat, isLeap: LeapFlag?) returns (secs: nat)
    requires 100 <= year <= LAST_YEAR || FitsPastCutOff(year)
    modifies if isLeap == null then {} else {isLeap}
    ensures secs < TWO64
    ensures S64(secs) == SECONDS_PER_DAY * DaysToYear(1900 + year) <==> year < FIRST_LOST_YEAR
    ensures isLeap != null ==> isLeap.value == LeapBit(year)
  {
    if year < FIRST_LOST_YEAR {
      CountFitsUpTo(year);
    }
    FitsOnlyFrom2000(year);
    ghost var n := year - 100;
    LeapInCycle(n);
    var flag := isLeap;
    if flag == null {
      // The function-level static the source falls back on; it is written before it is read.
      flag := new LeapFlag();
    }
    var cycles := ToCInt(U64(year - 100) / 400);
    // An unsigned remainder, so the source's correction for a negative one has nothing to do.
    var rem := (U64(year - 100) % 400) as CInt;
    var centuries, leaps, leap := SplitCycle(rem);
    flag.value := leap;
    leaps := leaps + (97 * cycles + 24 * centuries - flag.value);
    secs := Add64(Add64(Add64(Mul64(U64(year - 100), SECONDS_PER_COMMON_YEAR),
                              Mul64(U64(leaps as int), SECONDS_PER_DAY)), 946684800), SECONDS_PER_DAY);

    FoldYearSum(n, leaps as int);
    SecondsFromCycles(n, leaps as int, secs);
  }

  /**
   * Seconds from the epoch to the start of year 1900 + `year`, and whether that year is a leap year.
   * The two branches meet the same calendar on the years 100 to 138, which both of them accept. Every other year
   * overflows the leap-day count of the second branch, which C leaves undefined.
   */
  method TimeYearToSecs(year: nat, isLeap: LeapFlag?) returns (secs: nat)
    requires 2 <= year <= LAST_YEAR || FitsPastCutOff(year)
    modifies if isLeap == null then {} else {isLeap}
    ensures secs < TWO64
    ensures S64(secs) == SECONDS_PER_DAY * DaysToYear(1900 + year) <==> year < FIRST_LOST_YEAR
    ensures isLeap != null ==> isLeap.value == LeapBit(year)
  {
    FastGuard(year);
    if U64(year - 2) <= 136 {
      secs := YearToSecsFast(year, isLeap);
    } else {
      secs := YearToSecsByCycles(year, isLeap);
    }
  }

  /** The function repeats with the calendar, also where the two years take different branches. */
  method FourCenturiesApart(year: nat) returns (secs: nat, later: nat)
    requires 2 <= year && year + 400 <= LAST_YEAR
    ensures S64(secs) == SECONDS_PER_DAY * DaysToYear(1900 + year)
    ensures S64(later) - S64(secs) == SECONDS_PER_DAY * 146097
  {
    secs := TimeYearToSecs(year, null);
    later := TimeYearToSecs(year + 400, null);
    FourCenturyPeriod(1900 + year);
  }

  /** The guard is an unsigned comparison: the years 0 and 1 wrap around and fail it. */
  lemma FastGuard(year: nat)
    requires year < TWO64
    ensures U64(year - 2) <= 136 <==> 2 <= year <= 138
  {
    if year < 2 {
      U64Congruent(year - 2, year - 2 + TWO64, -1);
    }
  }

  /** Short of the cut-off of the cycle count, the leap-day count is defined up to exactly `LAST_YEAR`. */
  lemma CountFitsUpTo(year: nat)
    requires 100 <= year < FIRST_LOST_YEAR
    ensures LeapCountFits(year) <==> year <= LAST_YEAR
  {
    var n := year - 100;
    var c, e, q := n / 400, n % 400 / 100, n % 100;
    var leap := if IsLeapYear(2000 + n) then 1 else 0;
    assert YearsPast2000(year) == n && c < 0x8000_0000;
    assert ToCInt(c) as int == c by { CycleCountCut(n); }
    assert n == 400 * c + 100 * e + q && leap == if (e == 0 && q == 0) || (q != 0 && q % 4 == 0) then 1 else 0 by {
      LeapInCycle(n);
    }
    LargestCount(c, e, q, leap);
  }

  /** The bound on the leap-day count, for cycles, centuries and years. */
  lemma LargestCount(c: int, e: int, q: int, leap: int)
    requires 0 <= c < 0x8000_0000 && 0 <= e < 4 && 0 <= q < 100
    requires leap == if (e == 0 && q == 0) || (q != 0 && q % 4 == 0) then 1 else 0
    ensures StepsFit(c, e, q / 4, leap) <==> 400 * c + 100 * e + q + 100 <= LAST_YEAR
  {
  }
}
