/**
 The date shown for a file: `File::parse_timestamp` turns a count of seconds since
 1970-01-01 00:00:00 into a calendar date with two subtraction loops.

 The reference is not those loops but the closed formula of section 4.16 (Seconds
 Since the Epoch) of IEEE Std 1003.1-2017 together with the definition of a valid
 Gregorian date.
 */
module Calendar {
  import opened Rust
  import opened Arithmetic

  const SECONDS_PER_MINUTE := 60
  const SECONDS_PER_HOUR := 3600
  const SECONDS_PER_DAY := 86400
  const SECONDS_PER_YEAR := 365 * 86400
  const SECONDS_PER_LEAP_YEAR := 366 * 86400
  const UNIX_EPOCH_YEAR := 1970

  datatype DateTime = DateTime(year: nat, month: nat, day: nat, hour: nat, minute: nat, second: nat)

  predicate IsLeapYear(year: nat) {
    (year % 4 == 0 && year % 100 != 0) || year % 400 == 0
  }

  /** The program's two tables. */
  function DaysPerMonth(year: nat): (days: seq<nat>)
    ensures |days| == 12
  {
    if IsLeapYear(year) then [31, 29, 31, 30, 31, 30, 31, 31, 30, 31, 30, 31]
    else [31, 28, 31, 30, 31, 30, 31, 31, 30, 31, 30, 31]
  }

  function SecondsInYear(year: nat): nat {
    if IsLeapYear(year) then SECONDS_PER_LEAP_YEAR else SECONDS_PER_YEAR
  }

  // ---------------------------------------------------------------- the reference

  /** Thirty days have September, April, June and November. */
  function MonthLength(year: nat, month: nat): (days: nat)
    ensures 28 <= days <= 31
  {
    if month == 2 then (if IsLeapYear(year) then 29 else 28)
    else if month in {9, 4, 6, 11} then 30
    else 31
  }

  predicate ValidDate(d: DateTime) {
    && UNIX_EPOCH_YEAR <= d.year
    && 1 <= d.month <= 12
    && 1 <= d.day <= MonthLength(d.year, d.month)
    && d.hour < 24 && d.minute < 60 && d.second < 60
  }

  /** Days of the year that lie before the first of the given month. */
  function DaysBefore(year: nat, month: nat): nat
    requires 1 <= month
  {
    if month == 1 then 0 else DaysBefore(year, month - 1) + MonthLength(year, month - 1)
  }

  function SecondsIntoYear(d: DateTime): nat
    requires ValidDate(d)
  {
    var yearDay := DaysBefore(d.year, d.month) + d.day - 1;
    yearDay * 86400 + d.hour * 3600 + d.minute * 60 + d.second
  }

  /** The standard's formula, with its `tm_year` written as `year - 1900`. */
  function YearTerm(year: nat): int {
    var tm_year := year - 1900;
    (tm_year - 70) * 31536000 + (tm_year - 69) / 4 * 86400 - (tm_year - 1) / 100 * 86400 + (tm_year + 299) / 400 * 86400
  }

  function SecondsSinceEpoch(d: DateTime): int
    requires ValidDate(d)
  {
    SecondsIntoYear(d) + YearTerm(d.year)
  }

  // ------------------------------------------------ facts about the reference

  lemma QuotientStep4(x: int)
    ensures x / 4 - (x - 1) / 4 == if x % 4 == 0 then 1 else 0
  {
  }

  lemma QuotientStep100(x: int)
    ensures x / 100 - (x - 1) / 100 == if x % 100 == 0 then 1 else 0
  {
  }

  lemma QuotientStep400(x: int)
    ensures x / 400 - (x - 1) / 400 == if x % 400 == 0 then 1 else 0
  {
  }

  lemma LeapByQuotients(year: nat)
    ensures (if (year - 1968) % 4 == 0 then 1 else 0) - (if (year - 1900) % 100 == 0 then 1 else 0)
            + (if (year - 1600) % 400 == 0 then 1 else 0) == if IsLeapYear(year) then 1 else 0
  {
    ModShift(year, 492, 4);
    ModShift(year, 19, 100);
    ModShift(year, 4, 400);
    if year % 400 == 0 {
      DivModUnique(year, 4 * (year / 400), 0, 100);
    }
    if year % 100 == 0 {
      DivModUnique(year, 25 * (year / 100), 0, 4);
    }
  }

  /** The formula's three quotients step at the multiples of 4, 100 and 400. */
  lemma YearTermSucc(year: nat)
    ensures YearTerm(year + 1) == YearTerm(year) + SecondsInYear(year)
  {
    hide IsLeapYear;
    QuotientStep4(year - 1968);
    QuotientStep100(year - 1900);
    QuotientStep400(year - 1600);
    LeapByQuotients(year);
  }

  /** Seconds from the Epoch to the start of a year, as the sum of the years before it. */
  function YearStart(year: nat): nat {
    if year <= UNIX_EPOCH_YEAR then 0 else YearStart(year - 1) + SecondsInYear(year - 1)
  }

  lemma {:induction false} YearStartIsTerm(year: nat)
    requires UNIX_EPOCH_YEAR <= year
    ensures YearStart(year) == YearTerm(year)
  {
    hide IsLeapYear, SecondsInYear;
    if year <= UNIX_EPOCH_YEAR {
    } else {
      YearStartIsTerm(year - 1);
      YearTermSucc(year - 1);
    }
  }

  lemma {:induction false} YearStartMonotonic(y: nat, z: nat)
    requires UNIX_EPOCH_YEAR <= y <= z
    ensures YearStart(y) + 31536000 * (z - y) <= YearStart(z)
    decreases z - y
  {
    if y >= z {
    } else {
      YearStartMonotonic(y, z - 1);
    }
  }

  /** The year that contains a moment: the last one that starts no later. */
  function YearFrom(t: nat, year: nat): (y: nat)
    requires UNIX_EPOCH_YEAR <= year && YearStart(year) <= t
    ensures year <= y && YearStart(y) <= t < YearStart(y + 1)
    decreases t - YearStart(year)
  {
    if t < YearStart(year + 1) then year else YearFrom(t, year + 1)
  }

  function TrueYear(t: nat): (y: nat)
    ensures UNIX_EPOCH_YEAR <= y && YearStart(y) <= t < YearStart(y + 1)
  {
    YearFrom(t, UNIX_EPOCH_YEAR)
  }

  lemma StartedBefore(t: nat, y: nat, z: nat)
    requires UNIX_EPOCH_YEAR <= y && UNIX_EPOCH_YEAR <= z
    requires YearStart(y) <= t < YearStart(z)
    ensures y < z
  {
    if z <= y {
      YearStartMonotonic(z, y);
    }
  }

  lemma YearUnique(t: nat, y: nat, z: nat)
    requires UNIX_EPOCH_YEAR <= y && YearStart(y) <= t < YearStart(y + 1)
    requires UNIX_EPOCH_YEAR <= z && YearStart(z) <= t < YearStart(z + 1)
    ensures y == z
  {
    StartedBefore(t, y, z + 1);
    StartedBefore(t, z, y + 1);
  }

  lemma {:induction false} DaysBeforeMonotonic(year: nat, m: nat, n: nat)
    requires 1 <= m < n
    ensures DaysBefore(year, m) + MonthLength(year, m) <= DaysBefore(year, n)
  {
    hide MonthLength;
    if m + 1 == n {
    } else {
      DaysBeforeMonotonic(year, m, n - 1);
    }
  }

  /** The starts of the months are a linear staircase, but for what February lacks. */
  lemma {:induction false} MonthStaircase(year: nat, month: nat)
    requires 1 <= month <= 13
    ensures DaysBefore(year, month) ==
            (367 * month - 362) / 12 - (if month <= 2 then 0 else if IsLeapYear(year) then 1 else 2)
  {
    hide IsLeapYear;
    if month == 1 {
    } else {
      MonthStaircase(year, month - 1);
    }
  }

  lemma DaysInYear(year: nat)
    ensures DaysBefore(year, 13) == if IsLeapYear(year) then 366 else 365
  {
    hide IsLeapYear, DaysBefore;
    MonthStaircase(year, 13);
  }

  /** The program's tables hold the lengths of the months. */
  lemma TableLengths(year: nat, month: nat)
    requires 1 <= month <= 12
    ensures DaysPerMonth(year)[month - 1] == MonthLength(year, month)
  {
    hide IsLeapYear;
  }

  /** A date lies in the year it names. */
  lemma DateInItsYear(d: DateTime)
    requires ValidDate(d)
    ensures SecondsSinceEpoch(d) == YearStart(d.year) + SecondsIntoYear(d)
    ensures YearStart(d.year) <= SecondsSinceEpoch(d) < YearStart(d.year + 1)
  {
    YearStartIsTerm(d.year);
    hide IsLeapYear;
    DaysBeforeMonotonic(d.year, d.month, 13);
    DaysInYear(d.year);
  }

  lemma ClockUnique(p: int, h: nat, m: nat, s: nat, q: int, h': nat, m': nat, s': nat)
    requires h < 24 && m < 60 && s < 60 && h' < 24 && m' < 60 && s' < 60
    requires p * 86400 + h * 3600 + m * 60 + s == q * 86400 + h' * 3600 + m' * 60 + s'
    ensures p == q && h == h' && m == m' && s == s'
  {
    assert p == q;
    assert h == h';
    assert m == m';
  }

  /** A day of the year lies in one month only. */
  lemma MonthUnique(year: nat, day: nat, m: nat, n: nat)
    requires 1 <= m && DaysBefore(year, m) <= day < DaysBefore(year, m + 1)
    requires 1 <= n && DaysBefore(year, n) <= day < DaysBefore(year, n + 1)
    ensures m == n
  {
    hide MonthLength;
    if m < n {
      DaysBeforeMonotonic(year, m, n);
      assert false;
    } else if n < m {
      DaysBeforeMonotonic(year, n, m);
      assert false;
    }
  }

  lemma DateInYearUnique(d: DateTime, e: DateTime)
    requires ValidDate(d) && ValidDate(e)
    requires d.year == e.year && SecondsIntoYear(d) == SecondsIntoYear(e)
    ensures d == e
  {
    hide IsLeapYear;
    var p, q := DaysBefore(d.year, d.month) + d.day - 1, DaysBefore(d.year, e.month) + e.day - 1;
    ClockUnique(p, d.hour, d.minute, d.second, q, e.hour, e.minute, e.second);
    MonthUnique(d.year, p, d.month, e.month);
  }

  /** No two valid dates name the same second, so a count of seconds has at most one date. */
  lemma DateUnique(d: DateTime, e: DateTime)
    requires ValidDate(d) && ValidDate(e)
    requires SecondsSinceEpoch(d) == SecondsSinceEpoch(e)
    ensures d == e
  {
    DateInItsYear(d);
    DateInItsYear(e);
    YearUnique(SecondsSinceEpoch(d), d.year, e.year);
    DateInYearUnique(d, e);
  }

  // ------------------------------------------------------------------ the program

  /** The moments on which the year loop stops at the right year. With Y the true year and r
      the seconds into it, it goes wrong on all of 1970 but its first second, on the last day of
      a leap year once its first second is past, and at the very start of most years: there the
      loop compares what is left with the length of the year *before* the one it is about to
      subtract. */
  predicate Datable(t: nat) {
    var year := TrueYear(t);
    var r := t - YearStart(year);
    && !(year == 1970 && r > 0)
    && !(IsLeapYear(year) && r > 365 * SECONDS_PER_DAY)
    && !(year >= 1972 && !IsLeapYear(year - 1) && r <= SecondsInYear(year - 2) - 365 * SECONDS_PER_DAY)
  }

  /** The first month at or after the given one whose end the day does not reach. */
  function MonthFrom(year: nat, day: nat, month: nat): (m: nat)
    requires 1 <= month <= 12
    requires DaysBefore(year, month) <= day < DaysBefore(year, 13)
    ensures month <= m <= 12
    ensures DaysBefore(year, m) <= day < DaysBefore(year, m + 1)
    decreases 12 - month
  {
    if day < DaysBefore(year, month + 1) then month else MonthFrom(year, day, month + 1)
  }

  /** Hours, minutes and seconds from what is left of a day. */
  lemma ClockSplit(r: nat)
    ensures var s := r % SECONDS_PER_DAY;
            && r == r / SECONDS_PER_DAY * 86400 + s / SECONDS_PER_HOUR * 3600
                    + s % SECONDS_PER_HOUR / SECONDS_PER_MINUTE * 60 + s % SECONDS_PER_HOUR % SECONDS_PER_MINUTE
            && s / SECONDS_PER_HOUR < 24 && s % SECONDS_PER_HOUR / SECONDS_PER_MINUTE < 60
  {
  }

  function DateInYear(year: nat, r: nat): (d: DateTime)
    requires UNIX_EPOCH_YEAR <= year && r < SecondsInYear(year)
    ensures ValidDate(d) && d.year == year && SecondsIntoYear(d) == r
  {
    DaysInYear(year);
    ClockSplit(r);
    var month := MonthFrom(year, r / SECONDS_PER_DAY, 1);
    var s := r % SECONDS_PER_DAY;
    DateTime(year, month, r / SECONDS_PER_DAY - DaysBefore(year, month) + 1, s / SECONDS_PER_HOUR,
             s % SECONDS_PER_HOUR / SECONDS_PER_MINUTE, s % SECONDS_PER_HOUR % SECONDS_PER_MINUTE)
  }

  /** The one date of a count of seconds: every moment has a date, whatever the program
      makes of it. */
  function DateOf(t: nat): (d: DateTime)
    ensures ValidDate(d) && SecondsSinceEpoch(d) == t
  {
    var year := TrueYear(t);
    YearStartIsTerm(year);
    DateInYear(year, t - YearStart(year))
  }

  /** What the year loop keeps, and that it did not stop a year ago. */
  predicate InYearLoop(t: nat, year: nat, seconds: int) {
    && UNIX_EPOCH_YEAR <= year <= TrueYear(t)
    && 0 <= seconds && seconds + YearStart(year) == t
    && (year > 1971 ==> seconds + SecondsInYear(year - 1) > SecondsInYear(year - 2))
  }

  function LastYearSeconds(year: nat): nat {
    if year <= UNIX_EPOCH_YEAR then 0 else SecondsInYear(year - 1)
  }

  lemma LeapIsMultipleOf4(year: nat)
    requires IsLeapYear(year)
    ensures year % 4 == 0
  {
    if year % 400 == 0 {
      DivModUnique(year, 100 * (year / 400), 0, 4);
    }
  }

  lemma NoConsecutiveLeapYears(year: nat)
    ensures !(IsLeapYear(year) && IsLeapYear(year + 1))
  {
    if IsLeapYear(year) && IsLeapYear(year + 1) {
      LeapIsMultipleOf4(year);
      LeapIsMultipleOf4(year + 1);
      DivModUnique(year + 1, year / 4, 1, 4);
    }
  }

  lemma YearLoopEntry(t: nat)
    ensures InYearLoop(t, UNIX_EPOCH_YEAR, t)
  {
  }

  lemma YearLoopStep(t: nat, year: nat, seconds: int)
    requires InYearLoop(t, year, seconds)
    requires seconds > LastYearSeconds(year)
    ensures if seconds < SecondsInYear(year) then !Datable(t) else InYearLoop(t, year + 1, seconds - SecondsInYear(year))
  {
    if seconds < SecondsInYear(year) {
      YearUnique(t, year, TrueYear(t));
    } else {
      StartedBefore(t, year + 1, TrueYear(t) + 1);
    }
  }

  lemma StopsInTime(t: nat, year: nat, seconds: int)
    requires InYearLoop(t, year, seconds) && year == TrueYear(t)
    requires seconds <= LastYearSeconds(year)
    ensures Datable(t) && seconds < SecondsInYear(year)
  {
    hide IsLeapYear, TrueYear;
    assert YearStart(year + 1) == YearStart(year) + SecondsInYear(year);
    hide YearStart;
    if year > UNIX_EPOCH_YEAR {
      NoConsecutiveLeapYears(year - 1);
    }
  }

  lemma StopsEarly(t: nat, year: nat, seconds: int)
    requires InYearLoop(t, year, seconds) && year < TrueYear(t)
    requires seconds <= LastYearSeconds(year)
    ensures !Datable(t) && SecondsInYear(year) <= seconds
  {
    hide IsLeapYear, TrueYear;
    YearStartMonotonic(year + 1, TrueYear(t));
    assert YearStart(year + 1) == YearStart(year) + SecondsInYear(year);
    hide YearStart;
    if year > UNIX_EPOCH_YEAR {
      NoConsecutiveLeapYears(year - 1);
    }
    assert TrueYear(t) == year + 1;
  }

  /** The loop stops either in the true year or, too early, with at least a year in hand. */
  lemma YearLoopExit(t: nat, year: nat, seconds: int)
    requires InYearLoop(t, year, seconds)
    requires seconds <= LastYearSeconds(year)
    ensures Datable(t) <==> seconds < SecondsInYear(year)
    ensures Datable(t) ==> year == TrueYear(t)
  {
    hide Datable, TrueYear, YearStart, IsLeapYear, LastYearSeconds;
    if year < TrueYear(t) {
      StopsEarly(t, year, seconds);
    } else {
      StopsInTime(t, year, seconds);
    }
  }

  lemma MonthLoopExit(year: nat, intoYear: nat, month: nat)
    requires 1 <= month <= 13 && DaysBefore(year, month) * SECONDS_PER_DAY <= intoYear
    requires month < 13 ==> intoYear < DaysBefore(year, month + 1) * SECONDS_PER_DAY
    ensures month == 13 <==> SecondsInYear(year) <= intoYear
  {
    hide IsLeapYear;
    DaysInYear(year);
    if month < 12 {
      DaysBeforeMonotonic(year, month + 1, 13);
    }
  }

  lemma DateMatches(t: nat, d: DateTime, seconds: nat)
    requires UNIX_EPOCH_YEAR <= d.year && 1 <= d.month <= 12
    requires YearStart(d.year) + DaysBefore(d.year, d.month) * SECONDS_PER_DAY + seconds == t
    requires seconds < MonthLength(d.year, d.month) * SECONDS_PER_DAY
    requires d.day == seconds / SECONDS_PER_DAY + 1
    requires d.hour == seconds % SECONDS_PER_DAY / SECONDS_PER_HOUR
    requires d.minute == seconds % SECONDS_PER_DAY % SECONDS_PER_HOUR / SECONDS_PER_MINUTE
    requires d.second == seconds % SECONDS_PER_DAY % SECONDS_PER_HOUR % SECONDS_PER_MINUTE
    ensures d == DateOf(t)
  {
    hide IsLeapYear, YearTerm, DateOf;
    ClockSplit(seconds);
    YearStartIsTerm(d.year);
    DateUnique(d, DateOf(t));
  }

  /** `File::parse_timestamp`, up to the rendering of the six numbers as text. The u32
      subtraction in the year loop and the index in the month loop can panic. */
  method ParseTimestamp(timestamp: u32) returns (r: Outcome<DateTime>)
    ensures r == if Datable(timestamp) then Returns(DateOf(timestamp)) else Panics
  {
    hide YearStart, TrueYear, Datable, DateOf, IsLeapYear;
    YearLoopEntry(timestamp);
    var seconds: int := timestamp;
    var year: nat := UNIX_EPOCH_YEAR;
    var yearSeconds := 0;

    while seconds > yearSeconds
      invariant InYearLoop(timestamp, year, seconds)
      invariant yearSeconds == LastYearSeconds(year)
      decreases seconds
    {
      YearLoopStep(timestamp, year, seconds);
      yearSeconds := if IsLeapYear(year) then SECONDS_PER_LEAP_YEAR else SECONDS_PER_YEAR;
      if seconds < yearSeconds {
        return Panics;
      }
      seconds := seconds - yearSeconds;
      year := year + 1;
    }
    YearLoopExit(timestamp, year, seconds);

    ghost var intoYear := seconds;
    var month := 1;
    var daysPerMonth := DaysPerMonth(year);
    // the guard itself panics in month 13, where the index leaves the table
    while month <= 12 && seconds >= daysPerMonth[month - 1] * SECONDS_PER_DAY
      invariant 1 <= month <= 13
      invariant 0 <= seconds && DaysBefore(year, month) * SECONDS_PER_DAY + seconds == intoYear
    {
      TableLengths(year, month);
      seconds := seconds - daysPerMonth[month - 1] * SECONDS_PER_DAY;
      month := month + 1;
    }
    if month < 13 {
      TableLengths(year, month);
    }
    MonthLoopExit(year, intoYear, month);
    if month == 13 {
      return Panics;
    }

    ghost var intoMonth := seconds;
    var day := seconds / SECONDS_PER_DAY + 1;
    seconds := seconds % SECONDS_PER_DAY;
    var hour := seconds / SECONDS_PER_HOUR;
    seconds := seconds % SECONDS_PER_HOUR;
    var minute := seconds / SECONDS_PER_MINUTE;
    seconds := seconds % SECONDS_PER_MINUTE;
    var second := seconds;

    r := Returns(DateTime(year, month, day, hour, minute, second));
    DateMatches(timestamp, r.value, intoMonth);
  }

  /** Where the program panics on a valid date: at every moment of 1970 after the first... */
  lemma UndatableFirstYear(t: nat)
    requires 0 < t < SecondsInYear(1970)
    ensures !Datable(t)
  {
    YearUnique(t, 1970, TrueYear(t));
  }

  lemma NewYear(year: nat)
    requires UNIX_EPOCH_YEAR <= year
    ensures DateOf(YearStart(year)) == DateTime(year, 1, 1, 0, 0, 0)
  {
    hide IsLeapYear, YearTerm, DateOf;
    YearStartIsTerm(year);
    DateUnique(DateTime(year, 1, 1, 0, 0, 0), DateOf(YearStart(year)));
  }

  /** ... and, in each later year that does not follow a leap year, at midnight of New Year's Day,
      or on that whole day and the midnight after it if the year before the last was leap. */
  lemma UndatableNewYear(year: nat, t: nat)
    requires year >= 1972 && YearStart(year) <= t <= YearStart(year) + SECONDS_PER_DAY
    ensures Datable(t) <==> IsLeapYear(year - 1) || t - YearStart(year) > SecondsInYear(year - 2) - SECONDS_PER_YEAR
    ensures t == YearStart(year) ==> DateOf(t) == DateTime(year, 1, 1, 0, 0, 0)
  {
    hide IsLeapYear, DateOf;
    NewYear(year);
    YearUnique(t, TrueYear(t), year);
    DatableIn(t, year);
    YearLengths(year - 2);
  }

  lemma YearLengths(year: nat)
    ensures SecondsInYear(year) == SECONDS_PER_YEAR || SecondsInYear(year) == SECONDS_PER_YEAR + SECONDS_PER_DAY
  {
  }

  /** The condition, for a moment whose year is known. */
  lemma DatableIn(t: nat, year: nat)
    requires year == TrueYear(t)
    ensures var r := t - YearStart(year);
            Datable(t) <==>
              && !(year == 1970 && r > 0)
              && !(IsLeapYear(year) && r > 365 * SECONDS_PER_DAY)
              && !(year >= 1972 && !IsLeapYear(year - 1) && r <= SecondsInYear(year - 2) - 365 * SECONDS_PER_DAY)
  {
    hide IsLeapYear, YearStart, TrueYear;
  }

  /** On the last day of a leap year only midnight survives. */
  lemma UndatableLeapDay(year: nat, second: nat)
    requires year >= UNIX_EPOCH_YEAR && IsLeapYear(year) && second < SECONDS_PER_DAY
    ensures Datable(YearStart(year) + 365 * SECONDS_PER_DAY + second) <==> second == 0
  {
    var t := YearStart(year) + 365 * SECONDS_PER_DAY + second;
    YearUnique(t, year, TrueYear(t));
    NotLeap1970();
    hide IsLeapYear, YearStart, TrueYear;
  }

  lemma NotLeap1970()
    ensures !IsLeapYear(1970)
  {
  }
}
