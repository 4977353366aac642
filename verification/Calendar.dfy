/**
 The proleptic Gregorian calendar behind Go's `time.Date`, `Date()` and `Weekday()`.
 Days are numbered from 0001-01-01, the civil date of Go's zero time, and run over all integers.
 Leap years follow Appendix C of RFC 3339, month lengths follow its section 5.7.
 Months are indexed by `12 * year + month - 1`, which is how out-of-range months are normalised.
 */
module Calendar {

  /** The day number of 1970-01-01. */
  const UNIX_EPOCH_DAY := 719162

  datatype Date = Date(year: int, month: int, day: int) {
    predicate Valid() {
      1 <= month <= 12 && 1 <= day <= MonthLength(year, month)
    }
  }

  predicate IsLeap(year: int) {
    year % 4 == 0 && (year % 100 != 0 || year % 400 == 0)
  }

  function MonthLength(year: int, month: int): (days: int)
    requires 1 <= month <= 12
    ensures 28 <= days <= 31
  {
    if month == 2 then (if IsLeap(year) then 29 else 28)
    else if month == 4 || month == 6 || month == 9 || month == 11 then 30
    else 31
  }

  /** The table of section 5.7 of RFC 3339; the year's length leaves February the rest. */
  lemma MonthLengthIs(year: int, month: int)
    requires 1 <= month <= 12 && month != 2
    ensures MonthLength(year, month) == [31, 28, 31, 30, 31, 30, 31, 31, 30, 31, 30, 31][month - 1]
  {
    hide IsLeap;
  }

  function MonthIndex(date: Date): int {
    date.year * 12 + date.month - 1
  }

  function MonthDays(index: int): (days: int)
    ensures 28 <= days <= 31
  {
    MonthLength(index / 12, index % 12 + 1)
  }

  /** The day number of the first of a month: month lengths added up, or taken off, from January of year 1. */
  function MonthStart(index: int): int
    decreases if index < 12 then 12 - index else index - 12
  {
    if index == 12 then 0
    else if index > 12 then MonthStart(index - 1) + MonthDays(index - 1)
    else MonthStart(index + 1) - MonthDays(index)
  }

  function DayNumber(date: Date): int {
    MonthStart(MonthIndex(date)) + date.day - 1
  }

  lemma NextMonth(index: int)
    ensures MonthStart(index + 1) == MonthStart(index) + MonthDays(index)
  {
  }

  /** The month a day lies in, searched for from `index`. */
  function MonthOf(day: int, index: int): (found: int)
    ensures MonthStart(found) <= day < MonthStart(found) + MonthDays(found)
    decreases if day < MonthStart(index) then MonthStart(index) - day + 31 else day - MonthStart(index)
  {
    NextMonth(index);
    NextMonth(index - 1);
    if day < MonthStart(index) then MonthOf(day, index - 1)
    else if day >= MonthStart(index) + MonthDays(index) then MonthOf(day, index + 1)
    else index
  }

  function DateOf(day: int): (date: Date)
    ensures date.Valid() && DayNumber(date) == day
  {
    var index := MonthOf(day, 12);
    Date(index / 12, index % 12 + 1, day - MonthStart(index) + 1)
  }

  lemma {:induction false} MonthsAdvance(low: int, high: int)
    requires low < high
    ensures MonthStart(low) + MonthDays(low) <= MonthStart(high)
    decreases high - low
  {
    NextMonth(low);
    if low + 1 < high {
      MonthsAdvance(low + 1, high);
    }
  }

  predicate InMonth(day: int, index: int) {
    MonthStart(index) <= day < MonthStart(index) + MonthDays(index)
  }

  /** A day lies in exactly one month. */
  lemma MonthUnique(day: int, j: int, k: int)
    requires InMonth(day, j) && InMonth(day, k)
    ensures j == k
  {
    if j < k {
      MonthsAdvance(j, k);
    } else if k < j {
      MonthsAdvance(k, j);
    }
  }

  lemma DayInOwnMonth(day: int)
    ensures InMonth(day, MonthIndex(DateOf(day)))
  {
  }

  /** Numbering is a bijection between valid dates and integers. */
  lemma DateRoundTrip(date: Date)
    requires date.Valid()
    ensures DateOf(DayNumber(date)) == date
  {
    var index := MonthIndex(date);
    assert index / 12 == date.year && index % 12 + 1 == date.month;
    DayInOwnMonth(DayNumber(date));
    MonthUnique(DayNumber(date), index, MonthIndex(DateOf(DayNumber(date))));
  }

  lemma DateInMonth(index: int, day: int)
    requires 1 <= day <= MonthDays(index)
    ensures DateOf(MonthStart(index) + day - 1) == Date(index / 12, index % 12 + 1, day)
  {
    var date := Date(index / 12, index % 12 + 1, day);
    assert MonthIndex(date) == index;
    DateRoundTrip(date);
  }

  function Successor(date: Date): Date
    requires date.Valid()
  {
    if date.day < MonthLength(date.year, date.month) then date.(day := date.day + 1)
    else if date.month < 12 then Date(date.year, date.month + 1, 1)
    else Date(date.year + 1, 1, 1)
  }

  lemma DaysOfMonth(year: int, month: int)
    requires 1 <= month <= 12
    ensures MonthDays(year * 12 + month - 1) == MonthLength(year, month)
  {
    assert (year * 12 + month - 1) / 12 == year && (year * 12 + month - 1) % 12 + 1 == month;
  }

  lemma SuccessorNumber(date: Date)
    requires date.Valid()
    ensures Successor(date).Valid() && DayNumber(Successor(date)) == DayNumber(date) + 1
  {
    DaysOfMonth(date.year, date.month);
    NextMonth(MonthIndex(date));
    if date.day == MonthLength(date.year, date.month) {
      assert MonthIndex(Successor(date)) == MonthIndex(date) + 1;
    }
  }

  /** The numbering is the calendar: each day is followed by its successor. */
  lemma NextDay(day: int)
    ensures DateOf(day + 1) == Successor(DateOf(day))
  {
    var next := Successor(DateOf(day));
    assert next.Valid() && DayNumber(next) == day + 1 by {
      SuccessorNumber(DateOf(day));
    }
    DateRoundTrip(next);
  }

  // ----- whole years -----

  /** The closed form of Appendix C's leap-year rule, counted over all years before `year`. */
  function DaysBeforeYear(year: int): int {
    var past := year - 1;
    365 * past + past / 4 - past / 100 + past / 400
  }

  lemma EveryFour(year: int)
    ensures year / 4 == (year - 1) / 4 + (if year % 4 == 0 then 1 else 0)
  {
  }

  lemma EveryHundred(year: int)
    ensures year / 100 == (year - 1) / 100 + (if year % 100 == 0 then 1 else 0)
    ensures year % 100 == 0 ==> year % 4 == 0
  {
    assert year == 4 * (25 * (year / 100)) + year % 100;
  }

  lemma EveryFourHundred(year: int)
    ensures year / 400 == (year - 1) / 400 + (if year % 400 == 0 then 1 else 0)
    ensures year % 400 == 0 ==> year % 100 == 0
  {
    assert year == 100 * (4 * (year / 400)) + year % 400;
  }

  lemma YearStep(year: int)
    ensures DaysBeforeYear(year + 1) == DaysBeforeYear(year) + (if IsLeap(year) then 366 else 365)
  {
    EveryFour(year);
    EveryHundred(year);
    EveryFourHundred(year);
  }

  lemma FourMonths(year: int, month: int)
    requires 1 <= month <= 9
    ensures MonthStart(year * 12 + month + 3)
         == MonthStart(year * 12 + month - 1) + MonthLength(year, month) + MonthLength(year, month + 1)
          + MonthLength(year, month + 2) + MonthLength(year, month + 3)
  {
    var index := year * 12 + month - 1;
    NextMonth(index);
    NextMonth(index + 1);
    NextMonth(index + 2);
    NextMonth(index + 3);
    DaysOfMonth(year, month);
    DaysOfMonth(year, month + 1);
    DaysOfMonth(year, month + 2);
    DaysOfMonth(year, month + 3);
  }

  lemma TwelveMonths(year: int)
    ensures MonthStart(year * 12 + 12) == MonthStart(year * 12) + (if IsLeap(year) then 366 else 365)
  {
    FourMonths(year, 1);
    FourMonths(year, 5);
    FourMonths(year, 9);
  }

  /** Adding up month lengths agrees with the closed form on every year, before and after year 1. */
  lemma {:induction false} YearStart(year: int)
    ensures MonthStart(year * 12) == DaysBeforeYear(year)
    decreases if year < 1 then 1 - year else year - 1
  {
    if year > 1 {
      YearStart(year - 1);
      YearStep(year - 1);
      TwelveMonths(year - 1);
    } else if year < 1 {
      YearStart(year + 1);
      YearStep(year);
      TwelveMonths(year);
    }
  }

  /** January 1 of every year, by the closed form. */
  lemma FirstOfYear(year: int)
    ensures DateOf(DaysBeforeYear(year)) == Date(year, 1, 1)
  {
    YearStart(year);
    DateInMonth(year * 12, 1);
  }

  /** The Unix epoch is January 1 of 1970. */
  lemma EpochDate(day: int, year: int)
    requires day == UNIX_EPOCH_DAY && year == 1970
    ensures DateOf(day) == Date(year, 1, 1)
  {
    FirstOfYear(year);
    hide DateOf;
    assert DaysBeforeYear(year) == day;
  }

  lemma YearContains(date: Date)
    requires date.Valid()
    ensures DaysBeforeYear(date.year) <= DayNumber(date) < DaysBeforeYear(date.year + 1)
  {
    hide MonthStart, MonthDays, DaysBeforeYear, MonthLength;
    var index, january := MonthIndex(date), date.year * 12;
    YearStart(date.year);
    YearStart(date.year + 1);
    assert (date.year + 1) * 12 == january + 12;
    if january < index { MonthsAdvance(january, index); }
    MonthsAdvance(index, january + 12);
    DaysOfMonth(date.year, date.month);
  }

  lemma {:induction false} YearsGrow(first: int, last: int)
    requires first <= last
    ensures DaysBeforeYear(first) <= DaysBeforeYear(last)
    decreases last - first
  {
    if first < last {
      YearsGrow(first, last - 1);
      YearStep(last - 1);
      hide DaysBeforeYear;
    }
  }

  /** The days of the years from `first` to `last`. */
  lemma YearsAreDays(day: int, first: int, last: int)
    requires first <= last
    ensures first <= DateOf(day).year <= last <==> DaysBeforeYear(first) <= day < DaysBeforeYear(last + 1)
  {
    hide DaysBeforeYear, DayNumber;
    var date := DateOf(day);
    YearContains(date);
    hide DateOf;
    if date.year < first {
      YearsGrow(date.year + 1, first);
    } else if date.year > last {
      YearsGrow(last + 1, date.year);
    } else {
      YearsGrow(first, date.year);
      YearsGrow(date.year + 1, last + 1);
    }
  }

  /** Years are at least 365 days long, so they grow no faster than days do. */
  lemma YearBounded(day: int, bound: int)
    requires bound >= 0 && -365 * bound <= day <= 365 * bound
    ensures -bound - 1 <= DateOf(day).year <= bound + 1
  {
    YearContains(DateOf(day));
  }

  /** `Weekday()`, with Sunday as 0: 0001-01-01 was a Monday. */
  function Weekday(day: int): int {
    (day + 1) % 7
  }
}
