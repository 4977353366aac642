/**
 Go's `time.RFC3339Nano` layout: the date-time of section 5.6 of RFC 3339 with trailing zeros of the
 fraction dropped, and no fraction at all when it is zero.
 */
module Timestamps {
  import opened Calendar
  import opened Text
  import opened Zones

  /** `time.Time` as it is displayed: a wall-clock reading and its offset from UTC in seconds. */
  datatype Time = Time(wall: int, offset: int) {
    function Instant(): int {
      wall - offset * SECOND
    }

    /** What is left of the time once it is printed: the layout has no seconds in the offset. */
    function Shown(): (shown: Time)
      ensures -86400 < offset < 86400 ==> -86400 < shown.offset < 86400
    {
      Time(wall, Minutes(offset) * 60)
    }

    /** Printed, read and printed again, it prints the same: an offset below a minute first prints as `+00:00`, then as `Z`. */
    predicate Steady() {
      offset == 0 || Minutes(offset) != 0
    }
  }

  /** The whole minutes of an offset in seconds, truncated as Go divides. */
  function Minutes(offset: int): int {
    if offset < 0 then -(-offset / 60) else offset / 60
  }

  function TwoDigits(n: int): (s: string)
    requires 0 <= n < 100
    ensures |s| == 2 && AllDigits(s) && 10 * DigitValue(s[0]) + DigitValue(s[1]) == n
  {
    [Digit(n / 10), Digit(n % 10)]
  }

  /** Go pads years to four digits and writes longer or negative ones in full. */
  function YearText(year: int): string {
    if 0 <= year <= 9999 then TwoDigits(year / 100) + TwoDigits(year % 100)
    else if year > 0 then Decimal(year)
    else "-" + (if year > -10000 then TwoDigits(-year / 100) + TwoDigits(-year % 100) else Decimal(-year))
  }

  function DateText(date: Date): string
    requires date.Valid()
  {
    YearText(date.year) + "-" + TwoDigits(date.month) + "-" + TwoDigits(date.day)
  }

  function ClockText(seconds: int): string
    requires 0 <= seconds < 86400
  {
    TwoDigits(seconds / 3600) + ":" + TwoDigits(seconds / 60 % 60) + ":" + TwoDigits(seconds % 60)
  }

  function FractionText(nanoseconds: int): string
    requires 0 <= nanoseconds < SECOND
  {
    if nanoseconds == 0 then "" else "." + TrimZeros(Digits(nanoseconds, 9))
  }

  /** Everything before the zone designator. */
  function StampText(date: Date, seconds: int, nanoseconds: int): string
    requires date.Valid() && 0 <= seconds < 86400 && 0 <= nanoseconds < SECOND
  {
    DateText(date) + "T" + ClockText(seconds) + FractionText(nanoseconds)
  }

  function Stamp(wall: int): string {
    StampText(DateOf(DayOf(wall)), TimeOf(wall) / SECOND, TimeOf(wall) % SECOND)
  }

  /** The `Z07:00` layout element, for offsets under a hundred hours. An offset below a minute prints as `+00:00`. */
  function ZoneText(offset: int): string
    requires -360000 < offset < 360000
  {
    if offset == 0 then "Z"
    else if Minutes(offset) < 0 then "-" + TwoDigits(-Minutes(offset) / 60) + ":" + TwoDigits(-Minutes(offset) % 60)
    else "+" + TwoDigits(Minutes(offset) / 60) + ":" + TwoDigits(Minutes(offset) % 60)
  }

  /** `t.Format(time.RFC3339Nano)`. */
  function Format(t: Time): string
    requires -360000 < t.offset < 360000
  {
    Stamp(t.wall) + ZoneText(t.offset)
  }

  /** `t.UTC().Format(time.RFC3339Nano)`. */
  function FormatUtc(instant: int): string {
    Stamp(instant) + "Z"
  }

  /** The civil times of the years 0 to 9999, which JSON timestamps are limited to. */
  predicate FourDigitYear(wall: int) {
    -366 * DAY <= wall < 3652059 * DAY
  }

  /** The times `json.Marshal` can write: a year of four digits, an offset under a day. */
  predicate Writable(t: Time) {
    -86400 < t.offset < 86400 && FourDigitYear(t.wall)
  }

  lemma DaysOfWalls(wall: int)
    ensures -366 <= DayOf(wall) < 3652059 <==> -366 * DAY <= wall < 3652059 * DAY
  {
  }

  lemma FourDigitDays()
    ensures DaysBeforeYear(0) == -366 && DaysBeforeYear(10000) == 3652059
  {
  }

  /** They are those whose year has four digits or fewer. */
  lemma FourDigitYearIs(wall: int)
    ensures FourDigitYear(wall) <==> 0 <= DateOf(DayOf(wall)).year <= 9999
  {
    hide DateOf, DayOf, DaysBeforeYear;
    YearsAreDays(DayOf(wall), 0, 9999);
    FourDigitDays();
    DaysOfWalls(wall);
  }

  // ----- the reader -----

  function ReadTwo(s: string, from: nat): Option<nat>
    requires from + 2 <= |s|
  {
    if IsDigit(s[from]) && IsDigit(s[from + 1]) then Some(10 * DigitValue(s[from]) + DigitValue(s[from + 1])) else None
  }

  function ReadDate(s: string): Option<int>
    requires |s| >= 10
  {
    var century, year, month, day := ReadTwo(s, 0), ReadTwo(s, 2), ReadTwo(s, 5), ReadTwo(s, 8);
    if century == None || year == None || month == None || day == None || s[4] != '-' || s[7] != '-' then None
    else
      var date := Date(century.value * 100 + year.value, month.value, day.value);
      if date.Valid() then Some(DayNumber(date)) else None
  }

  function ReadClock(s: string): Option<int>
    requires |s| >= 8
  {
    var hour, minute, second := ReadTwo(s, 0), ReadTwo(s, 3), ReadTwo(s, 6);
    if hour == None || minute == None || second == None || s[2] != ':' || s[5] != ':' then None
    else if hour.value < 24 && minute.value < 60 && second.value < 60
    then Some(hour.value * 3600 + minute.value * 60 + second.value)
    else None
  }

  function ReadFraction(s: string): Option<nat> {
    if s == "" then Some(0)
    else if s[0] == '.' && 2 <= |s| <= 10 && AllDigits(s[1..]) then Some(Value(PadZeros(s[1..], 9)))
    else None
  }

  function ReadStamp(s: string): Option<int> {
    if |s| < 19 || s[10] != 'T' then None
    else
      var day, clock, fraction := ReadDate(s[..10]), ReadClock(s[11..19]), ReadFraction(s[19..]);
      if day == None || clock == None || fraction == None then None
      else Some(Wall(day.value, clock.value * SECOND + fraction.value))
  }

  function ReadZone(s: string): Option<int> {
    if s == "Z" then Some(0)
    else if |s| != 6 || (s[0] != '+' && s[0] != '-') || s[3] != ':' then None
    else
      var hours, minutes := ReadTwo(s, 1), ReadTwo(s, 4);
      if hours == None || minutes == None || hours.value > 23 || minutes.value > 59 then None
      else Some((if s[0] == '-' then -60 else 60) * (hours.value * 60 + minutes.value))
  }

  /** Reads the layout back. */
  function Parse(s: string): Option<Time> {
    var cut := if s != "" && s[|s| - 1] == 'Z' then |s| - 1 else |s| - 6;
    if cut < 0 then None
    else
      var wall, offset := ReadStamp(s[..cut]), ReadZone(s[cut..]);
      if wall == None || offset == None then None
      else Some(Time(wall.value, offset.value))
  }

  // ----- round trips -----

  lemma DateTextRoundTrip(date: Date)
    requires date.Valid() && 0 <= date.year <= 9999
    ensures |DateText(date)| == 10 && ReadDate(DateText(date)) == Some(DayNumber(date))
  {
    var s := DateText(date);
    assert ReadTwo(s, 0) == Some(date.year / 100) && ReadTwo(s, 2) == Some(date.year % 100);
    assert ReadTwo(s, 5) == Some(date.month) && ReadTwo(s, 8) == Some(date.day);
  }

  lemma ClockTextRoundTrip(seconds: int)
    requires 0 <= seconds < 86400
    ensures |ClockText(seconds)| == 8 && ReadClock(ClockText(seconds)) == Some(seconds)
  {
    assert seconds / 3600 * 3600 + seconds / 60 % 60 * 60 + seconds % 60 == seconds;
  }

  lemma {:induction false} TrimmedAway(s: string)
    requires AllDigits(s) && TrimZeros(s) == ""
    ensures Value(s) == 0
  {
    if s != "" { TrimmedAway(s[..|s| - 1]); }
  }

  lemma Pow10Of9()
    ensures Pow10(9) == SECOND
  {
    assert Pow10(3) == 1000 && Pow10(6) == 1000000;
  }

  lemma FractionTextRoundTrip(nanoseconds: int)
    requires 0 <= nanoseconds < SECOND
    ensures ReadFraction(FractionText(nanoseconds)) == Some(nanoseconds)
    ensures forall c :: c in FractionText(nanoseconds) ==> c == '.' || IsDigit(c)
  {
    var digits := Digits(nanoseconds, 9);
    Pow10Of9();
    DigitsValue(nanoseconds, 9);
    PadTrimmed(digits);
    if nanoseconds != 0 {
      if TrimZeros(digits) == "" { TrimmedAway(digits); }
      assert FractionText(nanoseconds)[1..] == TrimZeros(digits);
    }
  }

  lemma ReadAssembled(date: string, clock: string, fraction: string, day: int, seconds: int, nanoseconds: nat)
    requires |date| == 10 && ReadDate(date) == Some(day)
    requires |clock| == 8 && ReadClock(clock) == Some(seconds)
    requires ReadFraction(fraction) == Some(nanoseconds)
    ensures ReadStamp(date + "T" + clock + fraction) == Some(Wall(day, seconds * SECOND + nanoseconds))
  {
    var s := date + "T" + clock + fraction;
    assert s[..10] == date && s[10] == 'T' && s[11..19] == clock && s[19..] == fraction;
  }

  lemma StampTextRoundTrip(date: Date, seconds: int, nanoseconds: int)
    requires date.Valid() && 0 <= date.year <= 9999 && 0 <= seconds < 86400 && 0 <= nanoseconds < SECOND
    ensures ReadStamp(StampText(date, seconds, nanoseconds)) == Some(Wall(DayNumber(date), seconds * SECOND + nanoseconds))
  {
    DateTextRoundTrip(date);
    ClockTextRoundTrip(seconds);
    FractionTextRoundTrip(nanoseconds);
    ReadAssembled(DateText(date), ClockText(seconds), FractionText(nanoseconds), DayNumber(date), seconds, nanoseconds);
  }

  lemma StampOfTime(day: int, timeOfDay: int)
    requires 0 <= DateOf(day).year <= 9999 && 0 <= timeOfDay < DAY
    ensures ReadStamp(StampText(DateOf(day), timeOfDay / SECOND, timeOfDay % SECOND)) == Some(Wall(day, timeOfDay))
  {
    hide *;
    var seconds, nanoseconds := SplitSeconds(timeOfDay);
    StampTextRoundTrip(DateOf(day), seconds, nanoseconds);
  }

  lemma SplitSeconds(timeOfDay: int) returns (seconds: int, nanoseconds: int)
    requires 0 <= timeOfDay < DAY
    ensures seconds == timeOfDay / SECOND && nanoseconds == timeOfDay % SECOND
    ensures 0 <= seconds < 86400 && 0 <= nanoseconds < SECOND && seconds * SECOND + nanoseconds == timeOfDay
  {
    seconds, nanoseconds := timeOfDay / SECOND, timeOfDay % SECOND;
  }

  lemma StampRoundTrip(wall: int)
    requires FourDigitYear(wall)
    ensures ReadStamp(Stamp(wall)) == Some(wall)
  {
    FourDigitYearIs(wall);
    hide FourDigitYear;
    var day, timeOfDay := DayOf(wall), TimeOf(wall);
    StampOfTime(day, timeOfDay);
  }

  lemma HoursAndMinutes(minutes: int)
    requires 0 <= minutes < 1440
    ensures 0 <= minutes / 60 < 24 && 0 <= minutes % 60 < 60 && minutes / 60 * 60 + minutes % 60 == minutes
  {
  }

  lemma ZoneTextRoundTrip(offset: int)
    requires -86400 < offset < 86400
    ensures ReadZone(ZoneText(offset)) == Some(Minutes(offset) * 60)
    ensures offset != 0 ==> |ZoneText(offset)| == 6 && IsDigit(ZoneText(offset)[5])
  {
    var minutes := if Minutes(offset) < 0 then -Minutes(offset) else Minutes(offset);
    HoursAndMinutes(minutes);
  }

  lemma ReadJoined(stamp: string, zone: string, wall: int, offset: int)
    requires ReadStamp(stamp) == Some(wall) && ReadZone(zone) == Some(offset)
    requires zone == "Z" || IsDigit(zone[5])
    ensures Parse(stamp + zone) == Some(Time(wall, offset))
  {
    var s := stamp + zone;
    assert s[..|stamp|] == stamp && s[|stamp|..] == zone;
    assert s[|s| - 1] == zone[|zone| - 1];
  }

  /** Reading back a printed timestamp gives the wall-clock reading and the offset's whole minutes. */
  lemma FormatRoundTrip(t: Time)
    requires Writable(t)
    ensures Parse(Format(t)) == Some(t.Shown())
  {
    StampRoundTrip(t.wall);
    ZoneTextRoundTrip(t.offset);
    ReadJoined(Stamp(t.wall), ZoneText(t.offset), t.wall, Minutes(t.offset) * 60);
  }

  /** Printing loses the instant exactly when the offset has seconds. */
  lemma ShownInstant(t: Time)
    ensures t.Shown().Instant() == t.Instant() <==> t.offset % 60 == 0
    ensures Minutes(Minutes(t.offset) * 60) == Minutes(t.offset)
    ensures t.offset % 60 == 0 ==> t.Shown() == t && t.Steady()
  {
  }

  lemma ShownZone(offset: int, shown: int)
    requires -86400 < offset < 86400 && shown == Minutes(offset) * 60
    ensures ZoneText(shown) == ZoneText(offset) <==> offset == 0 || Minutes(offset) != 0
  {
    assert Minutes(shown) == Minutes(offset);
    hide Minutes;
    ZoneTextRoundTrip(offset);
  }

  lemma ShownPrintsSame(t: Time)
    requires Writable(t)
    ensures Format(t.Shown()) == Format(t) <==> t.Steady()
  {
    ShownZone(t.offset, t.Shown().offset);
    hide Stamp, ZoneText, Minutes;
    var n := |Stamp(t.wall)|;
    assert Format(t)[n..] == ZoneText(t.offset) && Format(t.Shown())[n..] == ZoneText(t.Shown().offset);
  }

  // ----- no two instants print alike, in any year -----

  lemma ValueOfTwo(a: int, b: int)
    requires 0 <= a < 100 && 0 <= b < 100
    ensures AllDigits(TwoDigits(a) + TwoDigits(b)) && Value(TwoDigits(a) + TwoDigits(b)) == 100 * a + b
  {
    var s := TwoDigits(a) + TwoDigits(b);
    assert s[..3][..2] == TwoDigits(a) && s[..3] == TwoDigits(a) + [s[2]];
    assert Value(TwoDigits(a)) == a by {
      var t := TwoDigits(a);
      assert t[..1][..0] == "" && t[..1][0] == t[0];
      assert Value(t[..1]) == DigitValue(t[0]);
    }
    assert Value(s[..3]) == 10 * a + DigitValue(s[2]);
  }

  /** The digits of a year, after the sign. */
  lemma YearDigits(year: int) returns (digits: string)
    ensures YearText(year) == (if year < 0 then "-" + digits else digits)
    ensures digits != "" && AllDigits(digits) && Value(digits) == if year < 0 then -year else year
  {
    var size := if year < 0 then -year else year;
    digits := if size <= 9999 then TwoDigits(size / 100) + TwoDigits(size % 100) else Decimal(size);
    if size <= 9999 { ValueOfTwo(size / 100, size % 100); } else { ValueOfDecimal(size); }
    hide Value, TwoDigits, Decimal;
  }

  lemma YearInjective(a: int, b: int)
    requires YearText(a) == YearText(b)
    ensures a == b
  {
    var x := YearDigits(a);
    var y := YearDigits(b);
    hide YearText, Value;
    assert IsDigit(x[0]) && IsDigit(y[0]);
    if a < 0 && b < 0 { assert ("-" + x)[1..] == x && ("-" + y)[1..] == y; }
  }

  lemma TwoDigitsInjective(a: int, b: int)
    requires 0 <= a < 100 && 0 <= b < 100 && TwoDigits(a) == TwoDigits(b)
    ensures a == b
  {
  }

  lemma DateInjective(a: Date, b: Date)
    requires a.Valid() && b.Valid() && DateText(a) == DateText(b)
    ensures a == b
  {
    var s, n := DateText(a), |DateText(a)|;
    hide YearText, TwoDigits;
    assert s[n - 2..] == TwoDigits(a.day) && s[n - 2..] == TwoDigits(b.day);
    assert s[n - 5..n - 3] == TwoDigits(a.month) && s[n - 5..n - 3] == TwoDigits(b.month);
    assert s[..n - 6] == YearText(a.year) && s[..n - 6] == YearText(b.year);
    TwoDigitsInjective(a.day, b.day);
    TwoDigitsInjective(a.month, b.month);
    YearInjective(a.year, b.year);
  }

  lemma DateHasNoMark(date: Date)
    requires date.Valid()
    ensures 'T' !in DateText(date)
  {
    var digits := YearDigits(date.year);
  }

  lemma StampTextInjective(a: Date, s: int, n: int, b: Date, s': int, n': int)
    requires a.Valid() && 0 <= s < 86400 && 0 <= n < SECOND
    requires b.Valid() && 0 <= s' < 86400 && 0 <= n' < SECOND
    requires StampText(a, s, n) == StampText(b, s', n')
    ensures a == b && s == s' && n == n'
  {
    hide DateText, ClockText, FractionText, ReadClock, ReadFraction;
    DateHasNoMark(a);
    DateHasNoMark(b);
    var x, y := ClockText(s) + FractionText(n), ClockText(s') + FractionText(n');
    assert StampText(a, s, n) == DateText(a) + (['T'] + x) && StampText(b, s', n') == DateText(b) + (['T'] + y);
    SplitUnique(DateText(a), x, DateText(b), y, 'T');
    DateInjective(a, b);
    ClockTextRoundTrip(s);
    ClockTextRoundTrip(s');
    assert x[..8] == ClockText(s) && y[..8] == ClockText(s') && x[8..] == FractionText(n) && y[8..] == FractionText(n');
    FractionTextRoundTrip(n);
    FractionTextRoundTrip(n');
  }

  lemma StampInjective(a: int, b: int)
    requires Stamp(a) == Stamp(b)
    ensures a == b
  {
    var s, n := SplitSeconds(TimeOf(a));
    var s', n' := SplitSeconds(TimeOf(b));
    hide StampText, DateOf;
    StampTextInjective(DateOf(DayOf(a)), s, n, DateOf(DayOf(b)), s', n');
  }

  lemma FormatUtcInjective(a: int, b: int)
    requires FormatUtc(a) == FormatUtc(b)
    ensures a == b
  {
    hide Stamp;
    assert FormatUtc(a)[..|FormatUtc(a)| - 1] == Stamp(a) && FormatUtc(b)[..|FormatUtc(b)| - 1] == Stamp(b);
    StampInjective(a, b);
  }

  // ----- what is printed where -----

  /** The two characters from `from` on are the decimal digits of `n`. */
  predicate Shows(s: string, from: nat, n: int) {
    from + 2 <= |s| && 0 <= n < 100
    && s[from] as int == '0' as int + n / 10 && s[from + 1] as int == '0' as int + n % 10
  }

  predicate ShowsDate(s: string, date: Date) {
    && |s| >= 10 && Shows(s, 0, date.year / 100) && Shows(s, 2, date.year % 100) && s[4] == '-'
    && Shows(s, 5, date.month) && s[7] == '-' && Shows(s, 8, date.day)
  }

  predicate ShowsClock(s: string, from: nat, seconds: int) {
    && |s| >= from + 8 && Shows(s, from, seconds / 3600) && s[from + 2] == ':'
    && Shows(s, from + 3, seconds / 60 % 60) && s[from + 5] == ':' && Shows(s, from + 6, seconds % 60)
  }

  lemma FormatUtcIs(instant: int)
    ensures FormatUtc(instant) == Format(Time(instant, 0))
  {
  }

  lemma UtcReads(instant: int)
    ensures FormatUtc(instant) == Format(Time(instant, 0))
    ensures FourDigitYear(instant) ==> Parse(FormatUtc(instant)) == Some(Time(instant, 0))
  {
    FormatUtcIs(instant);
    if FourDigitYear(instant) { FormatRoundTrip(Time(instant, 0)); }
  }

  /** `2006-01-02`, for a year of four digits. */
  lemma DateFields(date: Date)
    requires date.Valid() && 0 <= date.year <= 9999
    ensures |DateText(date)| == 10 && ShowsDate(DateText(date), date)
  {
  }

  /** `15:04:05`. */
  lemma ClockFields(seconds: int)
    requires 0 <= seconds < 86400
    ensures |ClockText(seconds)| == 8 && ShowsClock(ClockText(seconds), 0, seconds)
  {
  }

  /** Digit `k` of `width`, the most significant first. */
  lemma {:induction false} DigitsAt(n: nat, width: nat, k: nat)
    requires k < width
    ensures Digits(n, width)[k] as int == '0' as int + n / Pow10(width - 1 - k) % 10
  {
    if k < width - 1 {
      DigitsAt(n / 10, width - 1, k);
      DivDiv(n, 10, Pow10(width - 2 - k));
      assert Digits(n, width)[k] == Digits(n / 10, width - 1)[k];
    }
  }

  lemma {:induction false} TrimmedEnd(s: string)
    ensures TrimZeros(s) <= s && (TrimZeros(s) != "" ==> TrimZeros(s)[|TrimZeros(s)| - 1] != '0')
    ensures forall k :: |TrimZeros(s)| <= k < |s| ==> s[k] == '0'
  {
    if s != "" && s[|s| - 1] == '0' { TrimmedEnd(s[..|s| - 1]); }
  }

  /** The fraction is nothing for zero, else a point and at most nine digits of which the last is not zero. */
  lemma FractionShape(nanoseconds: int)
    requires 0 <= nanoseconds < SECOND
    ensures var s := FractionText(nanoseconds);
            && (s == "" <==> nanoseconds == 0) && |s| <= 10
            && (s != "" ==> s[0] == '.' && |s| >= 2 && s[|s| - 1] != '0')
  {
    if nanoseconds != 0 {
      var digits := Digits(nanoseconds, 9);
      TrimmedEnd(digits);
      Pow10Of9();
      DigitsValue(nanoseconds, 9);
      hide Digits, Pow10;
      if TrimZeros(digits) == "" { TrimmedAway(digits); }
      hide TrimZeros;
    }
  }

  /** Its digits are those of the nanoseconds, the most significant first; the zeros at the end are left out. */
  lemma FractionDigit(nanoseconds: int, k: nat)
    requires 0 <= nanoseconds < SECOND && k < 9
    ensures var s := FractionText(nanoseconds);
            (if k + 1 < |s| then s[k + 1] else '0') as int == '0' as int + nanoseconds / Pow10(8 - k) % 10
  {
    var digits := Digits(nanoseconds, 9);
    TrimmedEnd(digits);
    DigitsAt(nanoseconds, 9, k);
    if nanoseconds == 0 { QuotientUnique(0, Pow10(8 - k), 0, 0); }
    hide Digits, Pow10, TrimZeros;
  }

  /** `Z07:00`: `Z` for no offset, else a sign, hours and minutes. */
  lemma ZoneFields(offset: int)
    requires -86400 < offset < 86400
    ensures var s, minutes := ZoneText(offset), if offset < 0 then -offset / 60 else offset / 60;
            if offset == 0 then s == "Z"
            else && |s| == 6 && s[0] == (if offset <= -60 then '-' else '+')
                 && Shows(s, 1, minutes / 60) && s[3] == ':' && Shows(s, 4, minutes % 60)
  {
  }

  lemma FormatParts(t: Time)
    requires Writable(t)
    ensures var date, seconds, nanoseconds := DateOf(DayOf(t.wall)), TimeOf(t.wall) / SECOND, TimeOf(t.wall) % SECOND;
            && 0 <= seconds < 86400 && 0 <= nanoseconds < SECOND
            && Format(t) == DateText(date) + "T" + ClockText(seconds) + (FractionText(nanoseconds) + ZoneText(t.offset))
  {
  }

  lemma YearOfWritable(t: Time)
    requires Writable(t)
    ensures 0 <= DateOf(DayOf(t.wall)).year <= 9999 && DateOf(DayOf(t.wall)).Valid()
  {
    FourDigitYearIs(t.wall);
  }

  /** A printed timestamp, part by part: the civil date, the time of day, the fraction and the offset. */
  lemma FormatFields(t: Time)
    requires Writable(t)
    ensures var s := Format(t);
            && |s| >= 19 && ShowsDate(s, DateOf(DayOf(t.wall))) && s[10] == 'T'
            && ShowsClock(s, 11, TimeOf(t.wall) / SECOND)
            && s[19..] == FractionText(TimeOf(t.wall) % SECOND) + ZoneText(t.offset)
  {
    hide Format, DateText, ClockText, FractionText, ZoneText, DateOf, DayOf;
    YearOfWritable(t);
    FormatParts(t);
    PartFields(DateOf(DayOf(t.wall)), TimeOf(t.wall) / SECOND, FractionText(TimeOf(t.wall) % SECOND) + ZoneText(t.offset));
  }

  lemma PartFields(date: Date, seconds: int, rest: string)
    requires date.Valid() && 0 <= date.year <= 9999 && 0 <= seconds < 86400
    ensures var s := DateText(date) + "T" + ClockText(seconds) + rest;
            |s| >= 19 && ShowsDate(s, date) && s[10] == 'T' && ShowsClock(s, 11, seconds) && s[19..] == rest
  {
    DateFields(date);
    ClockFields(seconds);
    hide DateText, ClockText, ShowsDate, ShowsClock;
    Parts(DateText(date), ClockText(seconds), rest, date, seconds, DateText(date) + "T" + ClockText(seconds) + rest);
  }

  lemma Parts(d: string, c: string, rest: string, date: Date, seconds: int, s: string)
    requires |d| == 10 && |c| == 8 && s == d + "T" + c + rest && ShowsDate(d, date) && ShowsClock(c, 0, seconds)
    ensures |s| >= 19 && s[19..] == rest && ShowsDate(s, date) && s[10] == 'T' && ShowsClock(s, 11, seconds)
  {
    assert s[10] == 'T' && s[19..] == rest;
    var time := "T" + c + rest;
    assert s == "" + d + time && s == (d + "T") + c + rest;
    ShowsIn(d, "", time, s, 0, date.year / 100);
    ShowsIn(d, "", time, s, 2, date.year % 100);
    ShowsIn(d, "", time, s, 5, date.month);
    ShowsIn(d, "", time, s, 8, date.day);
    ShowsIn(c, d + "T", rest, s, 0, seconds / 3600);
    ShowsIn(c, d + "T", rest, s, 3, seconds / 60 % 60);
    ShowsIn(c, d + "T", rest, s, 6, seconds % 60);
  }

  lemma ShowsIn(part: string, before: string, after: string, s: string, from: nat, n: int)
    requires s == before + part + after && Shows(part, from, n)
    ensures Shows(s, |before| + from, n)
  {
    assert s[|before| + from] == part[from] && s[|before| + from + 1] == part[from + 1];
  }

  // ----- characters -----

  predicate PlainTimeChars(s: string) {
    forall c :: c in s ==> IsDigit(c) || c in {'-', '+', ':', 'T', 'Z', '.'}
  }

  lemma {:induction false} DecimalIsDigits(n: nat)
    ensures AllDigits(Decimal(n))
  {
    if n >= 10 { DecimalIsDigits(n / 10); }
  }

  lemma DateIsPlain(date: Date)
    requires date.Valid()
    ensures PlainTimeChars(DateText(date))
  {
    DecimalIsDigits(if date.year < 0 then -date.year else date.year);
  }

  lemma StampTextIsPlain(date: Date, seconds: int, nanoseconds: int)
    requires date.Valid() && 0 <= seconds < 86400 && 0 <= nanoseconds < SECOND
    ensures StampText(date, seconds, nanoseconds) != "" && PlainTimeChars(StampText(date, seconds, nanoseconds))
  {
    DateIsPlain(date);
    assert PlainTimeChars(ClockText(seconds));
    FractionTextRoundTrip(nanoseconds);
  }

  lemma StampIsPlain(wall: int)
    ensures Stamp(wall) != "" && PlainTimeChars(Stamp(wall))
  {
    StampTextIsPlain(DateOf(DayOf(wall)), TimeOf(wall) / SECOND, TimeOf(wall) % SECOND);
  }

  /** A printed timestamp holds no NUL, quote or backslash, and is never empty. */
  lemma FormatIsPlain(t: Time)
    requires -360000 < t.offset < 360000
    ensures Format(t) != "" && PlainTimeChars(Format(t))
  {
    StampIsPlain(t.wall);
    assert PlainTimeChars(ZoneText(t.offset));
  }

  lemma FormatUtcIsPlain(instant: int)
    ensures FormatUtc(instant) != "" && PlainTimeChars(FormatUtc(instant))
  {
    StampIsPlain(instant);
  }

  /** Twice the instants a Go time can hold. */
  predicate Representable(instant: int) {
    -0x1_0000_0000_0000_0000 * SECOND <= instant <= 0x1_0000_0000_0000_0000 * SECOND
  }

  /** The instants a Go time can hold: seconds in 64 bits with a sign. */
  predicate Go64(instant: int) {
    -0x8000_0000_0000_0000 * SECOND <= instant < 0x8000_0000_0000_0000 * SECOND
  }

  lemma {:induction false} DecimalLength(n: nat)
    ensures |Decimal(n)| <= n + 1
  {
    if n >= 10 { DecimalLength(n / 10); }
  }

  lemma YearLength(year: int, bound: int)
    requires -bound <= year <= bound
    ensures |YearText(year)| <= bound + 6
  {
    DecimalLength(if year < 0 then -year else year);
  }

  lemma FormatUtcLength(instant: int)
    requires Representable(instant)
    ensures |FormatUtc(instant)| < 0x1_0000_0000_0000_0000
  {
    var bound := 0x100_0000_0000;
    var day := DayOf(instant);
    assert -365 * bound <= day <= 365 * bound;
    YearBounded(day, bound);
    YearLength(DateOf(day).year, bound + 1);
    ClockTextRoundTrip(TimeOf(instant) / SECOND);
  }
}
