/**
 Billing periods: `policy/v1/period.go`.

 Center and Agent evaluate the same rule independently. Under the wall-clock premise of module Zones every
 recurring rule amounts to one strictly increasing sequence of boundaries, and a period is a cell of it.
 */
module Periods {
  import opened Calendar
  import opened Text
  import opened Timestamps
  import opened Zones

  const NEVER := "never"
  const DAILY := "daily"
  const WEEKLY := "weekly"
  const MONTHLY := "monthly"
  const INTERVAL := "interval_days"

  /** Go's zero time, which `IsZero` recognises. */
  const ZERO := 0

  /** What the code takes from its surroundings: the zone database and SHA-256. */
  datatype Host = Host(zones: map<string, Zone>, sha256: string -> Digest)

  datatype ResetRule = ResetRule(kind: string, value: Option<nat>, timezone: string, anchor: Option<int>)

  datatype Period = Period(id: string, startsAt: int, endsAt: Option<int>)

  predicate ValidRule(host: Host, rule: ResetRule) {
    && rule.timezone != "" && rule.timezone != "Local" && rule.timezone in host.zones
    && (if rule.kind == NEVER || rule.kind == DAILY then rule.value == None && rule.anchor == None
        else if rule.kind == WEEKLY then rule.value.Some? && 1 <= rule.value.value <= 7 && rule.anchor == None
        else if rule.kind == MONTHLY then rule.value.Some? && 1 <= rule.value.value <= 31 && rule.anchor == None
        else rule.kind == INTERVAL && rule.value.Some? && 1 <= rule.value.value <= 3650
             && rule.anchor.Some? && rule.anchor.value != ZERO)
  }

  // ----- Go's integer division, and the calendar helpers -----

  function TruncDiv(a: int, b: int): int
    requires b > 0
  {
    if a >= 0 then a / b else -(-a / b)
  }

  function TruncMod(a: int, b: int): (remainder: int)
    requires b > 0
    ensures a >= 0 ==> remainder == a % b
  {
    a - b * TruncDiv(a, b)
  }

  /** `adjacentMonth`. */
  function AdjacentMonth(year: int, month: int, delta: int): (int, int) {
    var index := year * 12 + month - 1 + delta;
    (TruncDiv(index, 12), TruncMod(index, 12) + 1)
  }

  /** `time.Date(year, month, day, 0, 0, 0, 0, location)`, which normalises an out-of-range month. */
  function MidnightOf(zone: Zone, year: int, month: int, day: int): int {
    zone.instant(Wall(MonthStart(year * 12 + month - 1) + day - 1, 0))
  }

  /** `monthlyBoundary`: day 0 of the next month is the last day of this one. */
  function MonthlyBoundary(zone: Zone, year: int, month: int, day: int): int {
    var lastDay := DateOf(DayOf(zone.local(MidnightOf(zone, year, month + 1, 0)))).day;
    MidnightOf(zone, year, month, if day > lastDay then lastDay else day)
  }

  /** `civilDay`: Unix seconds of the date's midnight in UTC, divided as Go divides. */
  function CivilDay(wall: int): (day: int)
    ensures day == DayOf(wall) - UNIX_EPOCH_DAY
  {
    TruncDiv((DayOf(wall) - UNIX_EPOCH_DAY) * 86400, 86400)
  }

  // ----- the bounds a rule computes, before clamping -----

  function DailySpan(zone: Zone, at: int): (int, int) {
    var start := zone.instant(Wall(DayOf(zone.local(at)), 0));
    (start, zone.AddDays(start, 1))
  }

  function WeeklySpan(zone: Zone, weekday: int, at: int): (int, int) {
    var today := DayOf(zone.local(at));
    var isoWeekday := if Weekday(today) == 0 then 7 else Weekday(today);
    var start := zone.AddDays(zone.instant(Wall(today, 0)), -((isoWeekday - weekday + 7) % 7));
    (start, zone.AddDays(start, 7))
  }

  /** The year and month whose boundary is in force on a date: its own, or the one before. */
  function BillingMonth(zone: Zone, date: Date, day: int, at: int): (int, int) {
    if MonthlyBoundary(zone, date.year, date.month, day) > at then AdjacentMonth(date.year, date.month, -1)
    else (date.year, date.month)
  }

  function MonthlySpan(zone: Zone, day: int, at: int): (int, int) {
    var (year, month) := BillingMonth(zone, DateOf(DayOf(zone.local(at))), day, at);
    var (nextYear, nextMonth) := AdjacentMonth(year, month, 1);
    (MonthlyBoundary(zone, year, month, day), MonthlyBoundary(zone, nextYear, nextMonth, day))
  }

  /** The last `anchor + k * step` civil days, by floor division, that is not on a later day than `at`. */
  function LastOnOrBefore(zone: Zone, step: int, anchor: int, at: int): int
    requires step > 0
  {
    var elapsed := DayOf(zone.local(at)) - DayOf(zone.local(anchor));
    zone.AddDays(anchor, elapsed / step * step)
  }

  /** The start after `turns` turns of the back-up loop. */
  function Back(zone: Zone, step: int, start: int, turns: nat): int {
    if turns == 0 then start else zone.AddDays(Back(zone, step, start, turns - 1), -step)
  }

  /** The back-up loop ends: some number of turns brings the start to `at` or before. */
  ghost predicate Ends(zone: Zone, step: int, start: int, at: int) {
    exists turns: nat :: Back(zone, step, start, turns) <= at
  }

  /** The fewest turns that will do, found by looking below any number that does. */
  ghost function Fewest(zone: Zone, step: int, start: int, at: int, enough: nat): (turns: nat)
    requires Back(zone, step, start, enough) <= at
    ensures Back(zone, step, start, turns) <= at
    ensures forall fewer: nat :: fewer < turns ==> Back(zone, step, start, fewer) > at
    decreases enough
  {
    if fewer: nat :| fewer < enough && Back(zone, step, start, fewer) <= at then Fewest(zone, step, start, at, fewer)
    else enough
  }

  /** The number of turns the loop takes. */
  ghost function Turns(zone: Zone, step: int, start: int, at: int): (turns: nat)
    requires Ends(zone, step, start, at)
    ensures Back(zone, step, start, turns) <= at
    ensures forall fewer: nat :: fewer < turns ==> Back(zone, step, start, fewer) > at
  {
    var enough: nat :| Back(zone, step, start, enough) <= at;
    Fewest(zone, step, start, at, enough)
  }

  /** Where the loop leaves the start; where it does not end, the start it was given. */
  ghost function Settled(zone: Zone, step: int, start: int, at: int): int {
    if Ends(zone, step, start, at) then Back(zone, step, start, Turns(zone, step, start, at)) else start
  }

  ghost function IntervalSpan(zone: Zone, step: int, anchor: int, at: int): (int, int)
    requires step > 0
  {
    var start := Settled(zone, step, LastOnOrBefore(zone, step, anchor, at), at);
    (start, zone.AddDays(start, step))
  }

  ghost function Span(zone: Zone, rule: ResetRule, at: int): (int, int)
    requires rule.kind == WEEKLY || rule.kind == MONTHLY ==> rule.value.Some?
    requires rule.kind == INTERVAL ==> rule.value.Some? && rule.value.value > 0 && rule.anchor.Some?
  {
    if rule.kind == WEEKLY then WeeklySpan(zone, rule.value.value, at)
    else if rule.kind == MONTHLY then MonthlySpan(zone, rule.value.value, at)
    else if rule.kind == INTERVAL then IntervalSpan(zone, rule.value.value, rule.anchor.value, at)
    else DailySpan(zone, at)
  }

  // ----- identifiers -----

  /** The text `periodID` hashes. */
  function PeriodInput(startsAt: int, endsAt: Option<int>): string {
    Join(FormatUtc(startsAt), if endsAt.Some? then FormatUtc(endsAt.value) else "")
  }

  function PeriodId(host: Host, startsAt: int, endsAt: Option<int>): (id: string)
    ensures |id| == 32 && forall c :: c in id ==> IsLowerHex(c)
  {
    Hex(host.sha256(PeriodInput(startsAt, endsAt))[..16])
  }

  /** The period with these bounds; an end at Go's zero time reads as no end. */
  function MakePeriod(host: Host, startsAt: int, end: int): Period {
    var endsAt := if end == ZERO then None else Some(end);
    Period(PeriodId(host, startsAt, endsAt), startsAt, endsAt)
  }

  predicate ValidPeriod(host: Host, period: Period) {
    && |period.id| == 32 && (forall c :: c in period.id ==> IsLowerHex(c))
    && period.startsAt != ZERO
    && (period.endsAt.Some? ==> period.endsAt.value != ZERO && period.endsAt.value > period.startsAt)
    && period.id == PeriodId(host, period.startsAt, period.endsAt)
  }

  predicate SamePeriod(first: Period, second: Period) {
    && first.id == second.id && first.startsAt == second.startsAt
    && (if first.endsAt == None || second.endsAt == None then first.endsAt == None && second.endsAt == None
        else first.endsAt.value == second.endsAt.value)
  }

  // ----- CurrentPeriod -----

  ghost function PeriodAt(host: Host, rule: ResetRule, authorizedAt: int, at: int): Option<Period> {
    if !ValidRule(host, rule) || authorizedAt == ZERO || at == ZERO || at < authorizedAt then None
    else if rule.kind == NEVER then Some(MakePeriod(host, authorizedAt, ZERO))
    else
      var (start, end) := Span(host.zones[rule.timezone], rule, at);
      Some(MakePeriod(host, if start < authorizedAt then authorizedAt else start, end))
  }

  /** The wall-clock time of day a rule's boundaries fall on. */
  function BoundaryTime(zone: Zone, rule: ResetRule): (timeOfDay: int)
    ensures 0 <= timeOfDay < DAY
  {
    if rule.kind == INTERVAL && rule.anchor.Some? then TimeOf(zone.local(rule.anchor.value)) else 0
  }

  /** Truncating division corrected for negative remainders is floor division. */
  lemma FloorFromTrunc(elapsed: int, step: int)
    requires step > 0
    ensures elapsed / step
            == if elapsed < 0 && TruncMod(elapsed, step) != 0 then TruncDiv(elapsed, step) - 1 else TruncDiv(elapsed, step)
  {
    if elapsed < 0 {
      var quotient, remainder := -elapsed / step, -elapsed % step;
      assert -elapsed == quotient * step + remainder;
      assert TruncMod(elapsed, step) == -remainder;
      if remainder == 0 {
        QuotientUnique(elapsed, step, -quotient, 0);
      } else {
        assert (-quotient - 1) * step == -(quotient * step) - step;
        QuotientUnique(elapsed, step, -quotient - 1, step - remainder);
      }
    }
  }

  /** The weekly branch of `CurrentPeriod`. */
  method WeeklyBounds(zone: Zone, weekday: int, at: int) returns (start: int, end: int)
    requires 1 <= weekday <= 7
    ensures (start, end) == WeeklySpan(zone, weekday, at)
  {
    var today := DayOf(zone.local(at));
    var isoWeekday := Weekday(today);
    if isoWeekday == 0 {
      isoWeekday := 7;
    }
    var daysBack := TruncMod(isoWeekday - weekday + 7, 7);
    start := zone.instant(Wall(today, 0));
    start := zone.AddDays(start, -daysBack);
    end := zone.AddDays(start, 7);
  }

  /** The monthly branch of `CurrentPeriod`. */
  method MonthlyBounds(zone: Zone, day: int, at: int) returns (start: int, end: int)
    ensures (start, end) == MonthlySpan(zone, day, at)
  {
    var date := DateOf(DayOf(zone.local(at)));
    var month := (date.year, date.month);
    start := MonthlyBoundary(zone, month.0, month.1, day);
    if start > at {
      month := AdjacentMonth(month.0, month.1, -1);
      start := MonthlyBoundary(zone, month.0, month.1, day);
    }
    month := AdjacentMonth(month.0, month.1, 1);
    end := MonthlyBoundary(zone, month.0, month.1, day);
  }

  /** The branch's civil-day index, its truncating division and its correction. */
  method IntervalIndex(zone: Zone, step: int, anchor: int, at: int) returns (index: int)
    requires step > 0
    ensures index == (DayOf(zone.local(at)) - DayOf(zone.local(anchor))) / step
  {
    var elapsed := CivilDay(zone.local(at)) - CivilDay(zone.local(anchor));
    index := TruncDiv(elapsed, step);
    if elapsed < 0 && TruncMod(elapsed, step) != 0 {
      index := index - 1;
    }
    FloorFromTrunc(elapsed, step);
  }

  /** The interval branch of `CurrentPeriod`, where its loop ends. */
  method IntervalBounds(zone: Zone, step: int, anchor: int, at: int) returns (start: int, end: int)
    requires step > 0 && Ends(zone, step, LastOnOrBefore(zone, step, anchor, at), at)
    ensures (start, end) == IntervalSpan(zone, step, anchor, at)
  {
    var index := IntervalIndex(zone, step, anchor, at);
    start := zone.AddDays(anchor, index * step);
    start := BackUp(zone, step, start, at);
    end := zone.AddDays(start, step);
  }

  lemma BackOnce(zone: Zone, step: int, start: int, turns: nat)
    ensures Back(zone, step, start, turns + 1) == zone.AddDays(Back(zone, step, start, turns), -step)
  {
  }

  /** The branch's back-up loop. */
  method BackUp(zone: Zone, step: int, first: int, at: int) returns (start: int)
    requires Ends(zone, step, first, at)
    ensures start == Settled(zone, step, first, at) && start <= at
  {
    start := first;
    ghost var turns := 0;
    ghost var enough: nat :| Back(zone, step, first, enough) <= at;
    assert Back(zone, step, first, turns) == first;
    hide Back, Ends, Settled, Turns;
    while start > at
      invariant start == Back(zone, step, first, turns)
      invariant forall fewer: nat :: fewer < turns ==> Back(zone, step, first, fewer) > at
      decreases enough - turns
    {
      BackOnce(zone, step, first, turns);
      start := zone.AddDays(start, -step);
      turns := turns + 1;
    }
    SettledAfter(zone, step, first, at, turns);
  }

  lemma SettledAfter(zone: Zone, step: int, start: int, at: int, turns: nat)
    requires Back(zone, step, start, turns) <= at
    requires forall fewer: nat :: fewer < turns ==> Back(zone, step, start, fewer) > at
    ensures Settled(zone, step, start, at) == Back(zone, step, start, turns)
  {
    hide Back, Turns;
    assert Ends(zone, step, start, at);
    var all := Turns(zone, step, start, at);
    assert !(all < turns) && !(turns < all);
  }

  /** If the evaluation reaches the back-up loop, which only the interval rule has, the loop ends. */
  ghost predicate Evaluable(host: Host, rule: ResetRule, authorizedAt: int, at: int) {
    ValidRule(host, rule) && rule.kind == INTERVAL && authorizedAt != ZERO && at != ZERO && authorizedAt <= at ==>
      Ends(host.zones[rule.timezone], rule.value.value,
           LastOnOrBefore(host.zones[rule.timezone], rule.value.value, rule.anchor.value, at), at)
  }

  /** `CurrentPeriod`. */
  method CurrentPeriod(host: Host, rule: ResetRule, authorizedAt: int, at: int) returns (period: Option<Period>)
    requires Evaluable(host, rule, authorizedAt, at)
    ensures period == PeriodAt(host, rule, authorizedAt, at)
  {
    if !ValidRule(host, rule) || authorizedAt == ZERO || at == ZERO || at < authorizedAt {
      return None;
    }
    var zone := host.zones[rule.timezone];
    var start, end := ZERO, ZERO;
    if rule.kind == NEVER {
      start := authorizedAt;
    } else if rule.kind == DAILY {
      start := zone.instant(Wall(DayOf(zone.local(at)), 0));
      end := zone.AddDays(start, 1);
    } else if rule.kind == WEEKLY {
      start, end := WeeklyBounds(zone, rule.value.value, at);
    } else if rule.kind == MONTHLY {
      start, end := MonthlyBounds(zone, rule.value.value, at);
    } else {
      start, end := IntervalBounds(zone, rule.value.value, rule.anchor.value, at);
    }
    if start < authorizedAt {
      start := authorizedAt;
    }
    period := Some(MakePeriod(host, start, end));
  }

  // ----- boundaries -----

  /** The wall-clock reading of boundary `k` of a recurring rule. */
  function BoundaryWall(zone: Zone, rule: ResetRule, k: int): int
    requires rule.kind == WEEKLY || rule.kind == MONTHLY ==> rule.value.Some?
    requires rule.kind == INTERVAL ==> rule.value.Some? && rule.anchor.Some?
  {
    Wall(BoundaryDay(zone, rule, k), BoundaryTime(zone, rule))
  }

  /** The requested day of month `index`, or its last day when it is shorter. */
  function ClampedDay(index: int, day: int): int {
    MonthStart(index) + (if day > MonthDays(index) then MonthDays(index) else day) - 1
  }

  /** Daily: every day. Weekly: every seventh, on the weekday. Monthly: one day of month `k`. Interval: from the anchor. */
  function BoundaryDay(zone: Zone, rule: ResetRule, k: int): int
    requires rule.kind == WEEKLY || rule.kind == MONTHLY ==> rule.value.Some?
    requires rule.kind == INTERVAL ==> rule.value.Some? && rule.anchor.Some?
  {
    if rule.kind == WEEKLY then 7 * k + rule.value.value - 1
    else if rule.kind == MONTHLY then ClampedDay(k, rule.value.value)
    else if rule.kind == INTERVAL then DayOf(zone.local(rule.anchor.value)) + k * rule.value.value
    else k
  }

  function Boundary(zone: Zone, rule: ResetRule, k: int): int
    requires rule.kind == WEEKLY || rule.kind == MONTHLY ==> rule.value.Some?
    requires rule.kind == INTERVAL ==> rule.value.Some? && rule.anchor.Some?
  {
    zone.instant(BoundaryWall(zone, rule, k))
  }

  /** The last civil day that evaluating up to boundary `k` looks at: monthly rules look up the month's last day. */
  function LastDay(zone: Zone, rule: ResetRule, k: int): (day: int)
    requires rule.kind == WEEKLY || rule.kind == MONTHLY ==> rule.value.Some?
    requires rule.kind == INTERVAL ==> rule.value.Some? && rule.anchor.Some?
    ensures BoundaryDay(zone, rule, k) <= day
  {
    if rule.kind == MONTHLY then MonthStart(k) + MonthDays(k) - 1 else BoundaryDay(zone, rule, k)
  }

  /** A recurring rule in a zone that is regular from boundary `first` to boundary `last`. */
  ghost predicate Recurring(host: Host, rule: ResetRule, first: int, last: int) {
    && ValidRule(host, rule) && rule.kind != NEVER && first <= last
    && var zone := host.zones[rule.timezone];
       Regular(zone, BoundaryTime(zone, rule), BoundaryDay(zone, rule, first), LastDay(zone, rule, last))
  }

  lemma WallsOfDays(day: int, days: int, timeOfDay: int)
    requires 0 <= timeOfDay < DAY
    ensures DayOf(Wall(day, timeOfDay)) == day && TimeOf(Wall(day, timeOfDay)) == timeOfDay
    ensures Wall(day, timeOfDay) < Wall(days, timeOfDay) <==> day < days
  {
  }

  /** Where the reading on a day is passed once, moving that boundary by days moves its civil day. */
  lemma MoveDays(zone: Zone, timeOfDay: int, day: int, days: int)
    requires 0 <= timeOfDay < DAY && Passed(zone, Wall(day, timeOfDay))
    ensures zone.AddDays(zone.instant(Wall(day, timeOfDay)), days) == zone.instant(Wall(day + days, timeOfDay))
  {
    WallsOfDays(day, days, timeOfDay);
  }

  lemma FloorBounds(n: int, step: int)
    requires step > 0
    ensures n / step * step <= n < n / step * step + step
  {
    assert n == n / step * step + n % step;
  }

  /** A reading on a later day comes after a boundary, and before one on a later day still. */
  lemma WallBefore(wall: int, day: int, timeOfDay: int)
    requires 0 <= timeOfDay < DAY
    ensures day < DayOf(wall) ==> Wall(day, timeOfDay) <= wall
    ensures DayOf(wall) < day ==> wall < Wall(day, timeOfDay)
  {
  }

  lemma SettledSoon(zone: Zone, step: int, start: int, at: int)
    requires start <= at || zone.AddDays(start, -step) <= at
    ensures Ends(zone, step, start, at)
    ensures Settled(zone, step, start, at) == if start <= at then start else zone.AddDays(start, -step)
  {
    assert Back(zone, step, start, 0) == start;
    assert Back(zone, step, start, 1) == zone.AddDays(Back(zone, step, start, 0), -step);
    SettledAfter(zone, step, start, at, if start <= at then 0 else 1);
  }
}
