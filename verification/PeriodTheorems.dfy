/**
 What billing periods promise (`policy/v1/period.go`): containment, tiling, partition, and the exactness of
 re-evaluating a period at its own start. The promises hold wherever the zone is regular from one boundary
 to another, whatever it does before and after.
 */
module PeriodTheorems {
  import opened Calendar
  import opened Text
  import opened Timestamps
  import opened Zones
  import opened Periods

  // ----- boundaries increase -----

  lemma BoundaryDaysIncrease(host: Host, zone: Zone, rule: ResetRule, j: int, k: int)
    requires ValidRule(host, rule) && j < k
    ensures BoundaryDay(zone, rule, j) < BoundaryDay(zone, rule, k)
    ensures LastDay(zone, rule, j) < BoundaryDay(zone, rule, k)
  {
    if rule.kind == MONTHLY {
      MonthsAdvance(j, k);
    } else if rule.kind == INTERVAL {
      MulAtLeast(k - j, rule.value.value);
    }
  }

  /** On a recurring rule's days a boundary's reading is passed once. */
  lemma BoundaryPassed(host: Host, rule: ResetRule, first: int, last: int, k: int)
    requires Recurring(host, rule, first, last) && first <= k <= last
    ensures var zone := host.zones[rule.timezone];
            && Passed(zone, BoundaryWall(zone, rule, k))
            && BoundaryDay(zone, rule, first) <= BoundaryDay(zone, rule, k) <= BoundaryDay(zone, rule, last)
  {
    var zone := host.zones[rule.timezone];
    if first < k { BoundaryDaysIncrease(host, zone, rule, first, k); }
    if k < last { BoundaryDaysIncrease(host, zone, rule, k, last); }
  }

  /** An instant has passed a boundary exactly when the wall clock has. */
  lemma BoundaryReached(zone: Zone, rule: ResetRule, k: int, t: int)
    requires rule.kind == WEEKLY || rule.kind == MONTHLY ==> rule.value.Some?
    requires rule.kind == INTERVAL ==> rule.value.Some? && rule.anchor.Some?
    requires Passed(zone, BoundaryWall(zone, rule, k))
    ensures Boundary(zone, rule, k) <= t <==> BoundaryWall(zone, rule, k) <= zone.local(t)
    ensures BoundaryDay(zone, rule, k) < DayOf(zone.local(t)) ==> Boundary(zone, rule, k) <= t
    ensures DayOf(zone.local(t)) < BoundaryDay(zone, rule, k) ==> t < Boundary(zone, rule, k)
    ensures BoundaryTime(zone, rule) == 0 && BoundaryDay(zone, rule, k) <= DayOf(zone.local(t)) ==> Boundary(zone, rule, k) <= t
  {
    WallBefore(zone.local(t), BoundaryDay(zone, rule, k), BoundaryTime(zone, rule));
    assert Wall(DayOf(zone.local(t)), 0) <= zone.local(t);
  }

  /** Boundaries strictly increase: no two coincide and none is doubled. */
  lemma BoundariesIncrease(host: Host, rule: ResetRule, first: int, last: int, j: int, k: int)
    requires Recurring(host, rule, first, last) && first <= j < k <= last
    ensures var zone := host.zones[rule.timezone]; Boundary(zone, rule, j) < Boundary(zone, rule, k)
  {
    var zone := host.zones[rule.timezone];
    BoundaryPassed(host, rule, first, last, j);
    BoundaryPassed(host, rule, first, last, k);
    BoundaryDaysIncrease(host, zone, rule, j, k);
    WallsOfDays(BoundaryDay(zone, rule, j), BoundaryDay(zone, rule, k), BoundaryTime(zone, rule));
    BoundaryReached(zone, rule, k, Boundary(zone, rule, j));
  }

  ghost predicate InCell(host: Host, rule: ResetRule, k: int, t: int)
    requires ValidRule(host, rule)
  {
    Boundary(host.zones[rule.timezone], rule, k) <= t < Boundary(host.zones[rule.timezone], rule, k + 1)
  }

  lemma CellUnique(host: Host, rule: ResetRule, first: int, last: int, j: int, k: int, t: int)
    requires Recurring(host, rule, first, last) && first <= j < last && first <= k < last
    requires InCell(host, rule, j, t) && InCell(host, rule, k, t)
    ensures j == k
  {
    hide Boundary, Recurring, ValidRule;
    if j + 1 < k {
      BoundariesIncrease(host, rule, first, last, j + 1, k);
    } else if k + 1 < j {
      BoundariesIncrease(host, rule, first, last, k + 1, j);
    }
  }

  // ----- each rule's bounds are the cell around the instant -----

  /** The instant lies between two boundaries. */
  ghost predicate Within(host: Host, rule: ResetRule, first: int, last: int, at: int)
    requires ValidRule(host, rule)
  {
    Boundary(host.zones[rule.timezone], rule, first) <= at < Boundary(host.zones[rule.timezone], rule, last)
  }

  /** The bounds `CurrentPeriod` computes are consecutive boundaries around the instant. */
  ghost predicate SpansCell(host: Host, rule: ResetRule, at: int, k: int)
    requires ValidRule(host, rule)
  {
    var zone := host.zones[rule.timezone];
    && Span(zone, rule, at) == (Boundary(zone, rule, k), Boundary(zone, rule, k + 1))
    && InCell(host, rule, k, at)
  }

  lemma DayWithin(host: Host, rule: ResetRule, first: int, last: int, at: int)
    requires Recurring(host, rule, first, last) && Within(host, rule, first, last, at)
    ensures var zone := host.zones[rule.timezone];
            && BoundaryDay(zone, rule, first) <= DayOf(zone.local(at)) <= BoundaryDay(zone, rule, last)
            && (BoundaryTime(zone, rule) == 0 ==> DayOf(zone.local(at)) < BoundaryDay(zone, rule, last))
  {
    BoundaryPassed(host, rule, first, last, first);
    BoundaryPassed(host, rule, first, last, last);
    BoundaryReached(host.zones[rule.timezone], rule, first, at);
    BoundaryReached(host.zones[rule.timezone], rule, last, at);
  }

  lemma DailyCell(host: Host, rule: ResetRule, first: int, last: int, at: int) returns (k: int)
    requires Recurring(host, rule, first, last) && Within(host, rule, first, last, at) && rule.kind == DAILY
    ensures first <= k < last && SpansCell(host, rule, at, k)
  {
    var zone := host.zones[rule.timezone];
    k := DayOf(zone.local(at));
    DayWithin(host, rule, first, last, at);
    BoundaryPassed(host, rule, first, last, k);
    BoundaryPassed(host, rule, first, last, k + 1);
    MoveDays(zone, 0, k, 1);
    BoundaryReached(zone, rule, k, at);
    BoundaryReached(zone, rule, k + 1, at);
  }

  function DaysSince(today: int, weekday: int): int {
    ((if Weekday(today) == 0 then 7 else Weekday(today)) - weekday + 7) % 7
  }

  lemma WeekArithmetic(today: int, weekday: int) returns (k: int)
    requires 1 <= weekday <= 7
    ensures today - DaysSince(today, weekday) == 7 * k + weekday - 1
    ensures 7 * k + weekday - 1 <= today < 7 * (k + 1) + weekday - 1
  {
    k := (today - weekday + 1) / 7;
  }

  lemma WeeklySpanIs(zone: Zone, weekday: int, at: int, today: int, day: int)
    requires today == DayOf(zone.local(at)) && day == today - DaysSince(today, weekday)
    requires Passed(zone, Wall(today, 0)) && Passed(zone, Wall(day, 0))
    ensures WeeklySpan(zone, weekday, at) == (zone.instant(Wall(day, 0)), zone.instant(Wall(day + 7, 0)))
  {
    MoveDays(zone, 0, today, day - today);
    MoveDays(zone, 0, day, 7);
  }

  lemma WeeklyCell(host: Host, rule: ResetRule, first: int, last: int, at: int) returns (k: int)
    requires Recurring(host, rule, first, last) && Within(host, rule, first, last, at) && rule.kind == WEEKLY
    ensures first <= k < last && SpansCell(host, rule, at, k)
  {
    var zone := host.zones[rule.timezone];
    var today := DayOf(zone.local(at));
    DayWithin(host, rule, first, last, at);
    k := WeekArithmetic(today, rule.value.value);
    assert first <= k < last && BoundaryDay(zone, rule, k + 1) == BoundaryDay(zone, rule, k) + 7;
    BoundaryPassed(host, rule, first, last, k);
    BoundaryPassed(host, rule, first, last, k + 1);
    WeeklySpanIs(zone, rule.value.value, at, today, BoundaryDay(zone, rule, k));
    BoundaryReached(zone, rule, k, at);
    BoundaryReached(zone, rule, k + 1, at);
  }

  /** The last day of a month is where Go's day 0 of the next one lands. */
  lemma LastDayOfMonth(index: int)
    ensures DateOf(MonthStart(index + 1) - 1).day == MonthDays(index)
    ensures MonthIndex(DateOf(MonthStart(index + 1) - 1)) == index
  {
    NextMonth(index);
    var last := Date(index / 12, index % 12 + 1, MonthDays(index));
    assert DayNumber(last) == MonthStart(index + 1) - 1;
    DateRoundTrip(last);
  }

  /** The reading `monthlyBoundary` looks the length of month `index` up with. */
  function MonthEnd(index: int): int {
    Wall(MonthStart(index + 1) - 1, 0)
  }

  /** Day 0 of a month is the last day of the month before. */
  lemma DayZero(zone: Zone, year: int, month: int, index: int)
    requires index == year * 12 + month - 1
    ensures MidnightOf(zone, year, month + 1, 0) == zone.instant(MonthEnd(index))
  {
    assert year * 12 + (month + 1) - 1 == index + 1;
    hide MonthStart;
  }

  lemma LastDayFound(zone: Zone, year: int, month: int, index: int)
    requires Passed(zone, MonthEnd(index)) && index == year * 12 + month - 1
    ensures DateOf(DayOf(zone.local(MidnightOf(zone, year, month + 1, 0)))).day == MonthDays(index)
  {
    DayZero(zone, year, month, index);
    LastDayOfMonth(index);
    WallsOfDays(MonthStart(index + 1) - 1, 0, 0);
    hide DateOf, MonthStart, MonthDays, Wall, DayOf, MidnightOf;
  }

  /** `monthlyBoundary` falls on the requested day or, in a shorter month, on its last day. */
  lemma MonthlyBoundaryIs(zone: Zone, year: int, month: int, day: int, index: int)
    requires Passed(zone, MonthEnd(index)) && index == year * 12 + month - 1
    ensures MonthlyBoundary(zone, year, month, day) == MonthMidnight(zone, index, day)
  {
    hide DateOf, DayOf, MonthOf, MonthStart, MonthDays, Wall, Passed, MonthEnd;
    LastDayFound(zone, year, month, index);
    var clamped := if day > MonthDays(index) then MonthDays(index) else day;
    assert MonthlyBoundary(zone, year, month, day) == MidnightOf(zone, year, month, clamped) by { hide MidnightOf; }
    hide MonthlyBoundary;
  }

  /** `adjacentMonth` moves the month index by `delta`, even where truncating division leaves the month out of range. */
  lemma AdjacentMonthIndex(year: int, month: int, delta: int)
    ensures var (y, m) := AdjacentMonth(year, month, delta); y * 12 + m - 1 == year * 12 + month - 1 + delta
  {
  }

  function MonthMidnight(zone: Zone, index: int, day: int): int {
    zone.instant(Wall(ClampedDay(index, day), 0))
  }

  /** A month's boundary has passed exactly when its day has come. */
  lemma MonthReached(zone: Zone, index: int, day: int, t: int)
    requires Passed(zone, Wall(ClampedDay(index, day), 0))
    ensures MonthMidnight(zone, index, day) <= t <==> ClampedDay(index, day) <= DayOf(zone.local(t))
  {
    WallBefore(zone.local(t), ClampedDay(index, day), 0);
  }

  lemma OwnMonthNeighbours(day: int, own: int, requested: int)
    requires own == MonthIndex(DateOf(day)) && requested >= 1
    ensures ClampedDay(own - 1, requested) < day < ClampedDay(own + 1, requested)
  {
    DayInOwnMonth(day);
    NextMonth(own - 1);
    NextMonth(own);
  }

  lemma BillingMonthIs(zone: Zone, date: Date, day: int, at: int, index: int) returns (year: int, month: int, k: int)
    requires Passed(zone, MonthEnd(index)) && index == MonthIndex(date)
    ensures BillingMonth(zone, date, day, at) == (year, month) && k == year * 12 + month - 1
    ensures k == if MonthMidnight(zone, index, day) > at then index - 1 else index
  {
    MonthlyBoundaryIs(zone, date.year, date.month, day, index);
    AdjacentMonthIndex(date.year, date.month, -1);
    var billing := BillingMonth(zone, date, day, at);
    year, month := billing.0, billing.1;
    k := year * 12 + month - 1;
  }

  lemma MonthlySpanIs(zone: Zone, day: int, at: int, own: int, k: int)
    requires own == MonthIndex(DateOf(DayOf(zone.local(at))))
    requires k == if MonthMidnight(zone, own, day) > at then own - 1 else own
    requires Passed(zone, MonthEnd(own)) && Passed(zone, MonthEnd(k)) && Passed(zone, MonthEnd(k + 1))
    ensures MonthlySpan(zone, day, at) == (MonthMidnight(zone, k, day), MonthMidnight(zone, k + 1, day))
  {
    hide Passed, MonthEnd, MonthMidnight;
    var date := DateOf(DayOf(zone.local(at)));
    var year, month, billed := BillingMonthIs(zone, date, day, at, own);
    var next := AdjacentMonth(year, month, 1);
    AdjacentMonthIndex(year, month, 1);
    MonthlyBoundaryIs(zone, year, month, day, k);
    MonthlyBoundaryIs(zone, next.0, next.1, day, k + 1);
  }

  lemma MonthEndPassed(host: Host, rule: ResetRule, first: int, last: int, index: int)
    requires Recurring(host, rule, first, last) && rule.kind == MONTHLY && first <= index <= last
    ensures Passed(host.zones[rule.timezone], MonthEnd(index))
  {
    NextMonth(index);
    if first < index { MonthsAdvance(first, index); }
    if index < last { MonthsAdvance(index, last); }
  }

  lemma MonthBetween(day: int, own: int, first: int, last: int)
    requires InMonth(day, own) && MonthStart(first) <= day < MonthStart(last) + MonthDays(last)
    ensures first <= own <= last
  {
    if own < first { MonthsAdvance(own, first); }
    if last < own { MonthsAdvance(last, own); }
  }

  lemma OwnMonthWithin(host: Host, rule: ResetRule, first: int, last: int, at: int, today: int, own: int)
    requires Recurring(host, rule, first, last) && Within(host, rule, first, last, at) && rule.kind == MONTHLY
    requires today == DayOf(host.zones[rule.timezone].local(at)) && own == MonthIndex(DateOf(today))
    ensures first <= own <= last
  {
    DayWithin(host, rule, first, last, at);
    DayInOwnMonth(today);
    MonthBetween(today, own, first, last);
  }

  lemma MonthlyCell(host: Host, rule: ResetRule, first: int, last: int, at: int) returns (k: int)
    requires Recurring(host, rule, first, last) && Within(host, rule, first, last, at) && rule.kind == MONTHLY
    ensures first <= k < last && SpansCell(host, rule, at, k)
  {
    var zone, day: int := host.zones[rule.timezone], rule.value.value;
    var today := DayOf(zone.local(at));
    var own := MonthIndex(DateOf(today));
    OwnMonthWithin(host, rule, first, last, at, today, own);
    hide DateOf, MonthIndex, MonthlySpan, MonthEnd, MonthMidnight, Regular, Passed, ClampedDay, Boundary;
    MonthlyBoundaryAt(zone, rule, first);
    MonthlyBoundaryAt(zone, rule, last);
    k := if MonthMidnight(zone, own, day) > at then own - 1 else own;
    MonthlyBoundaryAt(zone, rule, k);
    MonthlyBoundaryAt(zone, rule, k + 1);
    MonthReadings(host, rule, first, last, own, k);
    MonthlySpanIs(zone, day, at, own, k);
    MonthAround(zone, day, at, own, k);
  }

  lemma MonthlyBoundaryAt(zone: Zone, rule: ResetRule, k: int)
    requires rule.kind == MONTHLY && rule.value.Some?
    ensures Boundary(zone, rule, k) == MonthMidnight(zone, k, rule.value.value)
  {
  }

  /** Every reading the monthly branch looks up is passed once. */
  lemma MonthReadings(host: Host, rule: ResetRule, first: int, last: int, own: int, k: int)
    requires Recurring(host, rule, first, last) && rule.kind == MONTHLY
    requires first <= own <= last && first <= k < last
    ensures var zone, day := host.zones[rule.timezone], rule.value.value;
            && Passed(zone, MonthEnd(own)) && Passed(zone, MonthEnd(k)) && Passed(zone, MonthEnd(k + 1))
            && Passed(zone, Wall(ClampedDay(k, day), 0)) && Passed(zone, Wall(ClampedDay(k + 1, day), 0))
  {
    MonthEndPassed(host, rule, first, last, own);
    MonthEndPassed(host, rule, first, last, k);
    MonthEndPassed(host, rule, first, last, k + 1);
    BoundaryPassed(host, rule, first, last, k);
    BoundaryPassed(host, rule, first, last, k + 1);
  }

  lemma MonthAround(zone: Zone, day: int, at: int, own: int, k: int)
    requires day >= 1 && own == MonthIndex(DateOf(DayOf(zone.local(at))))
    requires k == if MonthMidnight(zone, own, day) > at then own - 1 else own
    requires Passed(zone, Wall(ClampedDay(k, day), 0)) && Passed(zone, Wall(ClampedDay(k + 1, day), 0))
    ensures MonthMidnight(zone, k, day) <= at < MonthMidnight(zone, k + 1, day)
  {
    OwnMonthNeighbours(DayOf(zone.local(at)), own, day);
    hide DateOf, MonthIndex, ClampedDay, Wall;
    MonthReached(zone, k, day, at);
    MonthReached(zone, k + 1, day, at);
  }

  lemma IntervalFirst(zone: Zone, step: int, anchor: int, at: int) returns (index: int, day: int)
    requires step > 0
    ensures day == DayOf(zone.local(anchor)) + index * step && day <= DayOf(zone.local(at)) < day + step
    ensures LastOnOrBefore(zone, step, anchor, at) == zone.instant(Wall(day, TimeOf(zone.local(anchor))))
  {
    var elapsed := DayOf(zone.local(at)) - DayOf(zone.local(anchor));
    index := elapsed / step;
    FloorBounds(elapsed, step);
    day := DayOf(zone.local(anchor)) + index * step;
  }

  lemma MulCancel(a: int, b: int, step: int)
    requires step > 0 && a * step < b * step
    ensures a < b
  {
    if b < a { MulAtLeast(a - b, step); }
  }

  /** The floor lands on a boundary of the window: the one of the instant's day, or the last before it. */
  lemma IntervalIndexWithin(host: Host, rule: ResetRule, first: int, last: int, at: int) returns (index: int)
    requires Recurring(host, rule, first, last) && Within(host, rule, first, last, at) && rule.kind == INTERVAL
    ensures first <= index <= last
    ensures var zone := host.zones[rule.timezone];
            && LastOnOrBefore(zone, rule.value.value, rule.anchor.value, at) == Boundary(zone, rule, index)
            && BoundaryDay(zone, rule, index) <= DayOf(zone.local(at)) < BoundaryDay(zone, rule, index + 1)
  {
    var zone, step: int := host.zones[rule.timezone], rule.value.value;
    var day;
    index, day := IntervalFirst(zone, step, rule.anchor.value, at);
    assert (index + 1) * step == index * step + step;
    DayWithin(host, rule, first, last, at);
    MulCancel(first, index + 1, step);
    assert (last + 1) * step == last * step + step;
    MulCancel(index, last + 1, step);
  }

  lemma MoveInterval(host: Host, rule: ResetRule, first: int, last: int, k: int, steps: int)
    requires Recurring(host, rule, first, last) && rule.kind == INTERVAL && first <= k <= last && (steps == 1 || steps == -1)
    ensures var zone := host.zones[rule.timezone];
            zone.AddDays(Boundary(zone, rule, k), steps * rule.value.value) == Boundary(zone, rule, k + steps)
  {
    var zone, step: int := host.zones[rule.timezone], rule.value.value;
    BoundaryPassed(host, rule, first, last, k);
    MoveDays(zone, BoundaryTime(zone, rule), BoundaryDay(zone, rule, k), steps * step);
    assert (k + steps) * step == k * step + steps * step;
  }

  lemma CellFromIndex(host: Host, rule: ResetRule, first: int, last: int, at: int, index: int) returns (k: int)
    requires Recurring(host, rule, first, last) && Within(host, rule, first, last, at) && rule.kind == INTERVAL
    requires first <= index <= last
    requires var zone := host.zones[rule.timezone];
             BoundaryDay(zone, rule, index) <= DayOf(zone.local(at)) < BoundaryDay(zone, rule, index + 1)
    ensures k == if Boundary(host.zones[rule.timezone], rule, index) <= at then index else index - 1
    ensures first <= k < last && InCell(host, rule, k, at)
  {
    var zone := host.zones[rule.timezone];
    hide BoundaryDay, BoundaryTime, BoundaryWall, Boundary, Passed, Regular, LastDay, DayOf;
    k := if Boundary(zone, rule, index) <= at then index else index - 1;
    assert first <= k < last;
    BoundaryPassed(host, rule, first, last, k);
    BoundaryPassed(host, rule, first, last, k + 1);
    if k < index { BoundaryDaysIncrease(host, zone, rule, k, index); }
    BoundaryReached(zone, rule, k, at);
    BoundaryReached(zone, rule, k + 1, at);
  }

  /** Within a regular window the back-up loop turns at most once, and leaves the boundary before the instant. */
  lemma BackUpOnce(host: Host, rule: ResetRule, first: int, last: int, at: int) returns (k: int)
    requires Recurring(host, rule, first, last) && Within(host, rule, first, last, at) && rule.kind == INTERVAL
    ensures first <= k < last && InCell(host, rule, k, at)
    ensures var zone, step: int := host.zones[rule.timezone], rule.value.value;
            var start := LastOnOrBefore(zone, step, rule.anchor.value, at);
            && Ends(zone, step, start, at) && Settled(zone, step, start, at) == Boundary(zone, rule, k)
            && Boundary(zone, rule, k) == if start <= at then start else zone.AddDays(start, -step)
  {
    var zone, step: int := host.zones[rule.timezone], rule.value.value;
    var index := IntervalIndexWithin(host, rule, first, last, at);
    k := CellFromIndex(host, rule, first, last, at, index);
    MoveInterval(host, rule, first, last, index, -1);
    hide LastOnOrBefore, Zone.AddDays, Settled, Ends, Boundary, BoundaryDay, Regular, Back;
    SettledSoon(zone, step, LastOnOrBefore(zone, step, rule.anchor.value, at), at);
  }

  lemma IntervalCell(host: Host, rule: ResetRule, first: int, last: int, at: int) returns (k: int)
    requires Recurring(host, rule, first, last) && Within(host, rule, first, last, at) && rule.kind == INTERVAL
    ensures first <= k < last && SpansCell(host, rule, at, k)
  {
    k := BackUpOnce(host, rule, first, last, at);
    MoveInterval(host, rule, first, last, k, 1);
  }

  /** For every recurring rule the computed bounds are the cell around the instant. */
  lemma SpanIsCell(host: Host, rule: ResetRule, first: int, last: int, at: int) returns (k: int)
    requires Recurring(host, rule, first, last) && Within(host, rule, first, last, at)
    ensures first <= k < last && SpansCell(host, rule, at, k)
  {
    if rule.kind == DAILY {
      k := DailyCell(host, rule, first, last, at);
    } else if rule.kind == WEEKLY {
      k := WeeklyCell(host, rule, first, last, at);
    } else if rule.kind == MONTHLY {
      k := MonthlyCell(host, rule, first, last, at);
    } else {
      k := IntervalCell(host, rule, first, last, at);
    }
  }

  /** The start is the last boundary not after the instant, whatever the rule. */
  lemma StartIsGreatestBoundary(host: Host, rule: ResetRule, first: int, last: int, at: int, j: int) returns (k: int)
    requires Recurring(host, rule, first, last) && Within(host, rule, first, last, at) && first <= j <= last
    ensures Span(host.zones[rule.timezone], rule, at).0 == Boundary(host.zones[rule.timezone], rule, k)
    ensures Boundary(host.zones[rule.timezone], rule, j) <= at <==> j <= k
  {
    k := SpanIsCell(host, rule, first, last, at);
    hide Boundary, Recurring, Span;
    if j < k {
      BoundariesIncrease(host, rule, first, last, j, k);
    } else if k + 1 < j {
      BoundariesIncrease(host, rule, first, last, k + 1, j);
    }
  }

  /** Each month has its one boundary: on the requested day, or on the last day of a shorter month. */
  lemma OneBoundaryPerMonth(zone: Zone, rule: ResetRule, index: int)
    requires rule.kind == MONTHLY && rule.value.Some? && rule.value.value >= 1
    ensures var date := DateOf(BoundaryDay(zone, rule, index));
            && date.year == index / 12 && date.month == index % 12 + 1
            && date.day == if rule.value.value <= MonthDays(index) then rule.value.value else MonthDays(index)
  {
    DateInMonth(index, if rule.value.value <= MonthDays(index) then rule.value.value else MonthDays(index));
  }

  // ----- the bounds in civil terms -----

  lemma BoundaryReads(host: Host, rule: ResetRule, first: int, last: int, k: int)
    requires Recurring(host, rule, first, last) && first <= k <= last
    ensures var zone := host.zones[rule.timezone];
            && DayOf(zone.local(Boundary(zone, rule, k))) == BoundaryDay(zone, rule, k)
            && TimeOf(zone.local(Boundary(zone, rule, k))) == BoundaryTime(zone, rule)
  {
    var zone := host.zones[rule.timezone];
    BoundaryPassed(host, rule, first, last, k);
    WallsOfDays(BoundaryDay(zone, rule, k), BoundaryDay(zone, rule, k), BoundaryTime(zone, rule));
  }

  /** One day: from the midnight of the instant's own date to the next. */
  predicate DailyInCivilTerms(today: int, start: int, end: int) {
    TimeOf(start) == 0 && TimeOf(end) == 0 && DayOf(start) == today && DayOf(end) == today + 1
  }

  /** Seven days from midnight of the ISO weekday, counted from the Unix epoch, which was a Thursday. */
  predicate WeeklyInCivilTerms(weekday: int, start: int, end: int) {
    && TimeOf(start) == 0 && TimeOf(end) == 0 && DayOf(end) == DayOf(start) + 7
    && (DayOf(start) - UNIX_EPOCH_DAY + 3) % 7 + 1 == weekday
  }

  predicate OnBillingDay(date: Date, day: int)
    requires date.Valid()
  {
    date.day == if day <= MonthLength(date.year, date.month) then day else MonthLength(date.year, date.month)
  }

  /** From midnight of the billing day, or of the last day of a shorter month, to that of the month after. */
  predicate MonthlyInCivilTerms(day: int, start: int, end: int) {
    var from, to := DateOf(DayOf(start)), DateOf(DayOf(end));
    && TimeOf(start) == 0 && TimeOf(end) == 0 && OnBillingDay(from, day) && OnBillingDay(to, day)
    && (to.year, to.month) == if from.month == 12 then (from.year + 1, 1) else (from.year, from.month + 1)
  }

  /** `step` days, at the anchor's time of day, a whole number of steps from its date. */
  predicate IntervalInCivilTerms(step: int, anchor: int, start: int, end: int)
    requires step > 0
  {
    && TimeOf(start) == TimeOf(anchor) && TimeOf(end) == TimeOf(anchor)
    && DayOf(end) == DayOf(start) + step && (DayOf(start) - DayOf(anchor)) % step == 0
  }

  lemma MonthlyDates(zone: Zone, rule: ResetRule, k: int, start: int, end: int)
    requires rule.kind == MONTHLY && rule.value.Some? && rule.value.value >= 1
    requires TimeOf(start) == 0 && TimeOf(end) == 0
    requires DayOf(start) == BoundaryDay(zone, rule, k) && DayOf(end) == BoundaryDay(zone, rule, k + 1)
    ensures MonthlyInCivilTerms(rule.value.value, start, end)
  {
    OneBoundaryPerMonth(zone, rule, k);
    OneBoundaryPerMonth(zone, rule, k + 1);
    hide DateOf, MonthLength, BoundaryDay, TimeOf, DayOf;
    assert MonthDays(k) == MonthLength(k / 12, k % 12 + 1) && MonthDays(k + 1) == MonthLength((k + 1) / 12, (k + 1) % 12 + 1);
    hide MonthDays;
    if k % 12 == 11 {
      assert (k + 1) / 12 == k / 12 + 1 && (k + 1) % 12 == 0;
    } else {
      assert (k + 1) / 12 == k / 12 && (k + 1) % 12 == k % 12 + 1;
    }
  }

  lemma WholeSteps(step: int, from: int, k: int, day: int)
    requires step > 0 && day == from + k * step
    ensures (day - from) % step == 0
  {
    QuotientUnique(day - from, step, k, 0);
  }

  /** What the bounds are on the calendar and the clock of the zone, kind by kind. */
  lemma SpanInCivilTerms(host: Host, rule: ResetRule, first: int, last: int, at: int)
    requires Recurring(host, rule, first, last) && Within(host, rule, first, last, at)
    ensures var zone := host.zones[rule.timezone];
            var start, end := Span(zone, rule, at).0, Span(zone, rule, at).1;
            && start <= at < end
            && (rule.kind == DAILY ==> DailyInCivilTerms(DayOf(zone.local(at)), zone.local(start), zone.local(end)))
            && (rule.kind == WEEKLY ==> WeeklyInCivilTerms(rule.value.value, zone.local(start), zone.local(end)))
            && (rule.kind == MONTHLY ==> MonthlyInCivilTerms(rule.value.value, zone.local(start), zone.local(end)))
            && (rule.kind == INTERVAL ==>
                 IntervalInCivilTerms(rule.value.value, zone.local(rule.anchor.value), zone.local(start), zone.local(end)))
  {
    hide Span, Boundary, TimeOf, DayOf, DateOf, Regular, Passed, MonthlyInCivilTerms;
    var zone := host.zones[rule.timezone];
    var k := SpanIsCell(host, rule, first, last, at);
    BoundaryReads(host, rule, first, last, k);
    BoundaryReads(host, rule, first, last, k + 1);
    if rule.kind == DAILY {
      BoundaryPassed(host, rule, first, last, k);
      BoundaryPassed(host, rule, first, last, k + 1);
      BoundaryReached(zone, rule, k, at);
      BoundaryReached(zone, rule, k + 1, at);
    } else if rule.kind == MONTHLY {
      MonthlyDates(zone, rule, k, zone.local(Boundary(zone, rule, k)), zone.local(Boundary(zone, rule, k + 1)));
    } else if rule.kind == INTERVAL {
      var step: int := rule.value.value;
      assert (k + 1) * step == k * step + step;
      WholeSteps(step, DayOf(zone.local(rule.anchor.value)), k, BoundaryDay(zone, rule, k));
    }
  }

  /** Going a month back and forth returns to the same month unless Go's division rounded a negative year towards zero. */
  lemma AdjacentMonthRoundTrip(year: int, month: int)
    requires 1 <= month <= 12
    ensures var back := AdjacentMonth(year, month, -1);
            AdjacentMonth(back.0, back.1, 1) == (year, month) <==> year >= 0 || month == 1
  {
    AdjacentMonthIndex(year, month, -1);
  }

  // ----- whole periods -----

  /** Evaluating is placing the instant in its cell and clamping the start. */
  lemma PeriodIsCell(host: Host, rule: ResetRule, first: int, last: int, authorizedAt: int, at: int) returns (k: int)
    requires Recurring(host, rule, first, last) && Within(host, rule, first, last, at)
    requires authorizedAt != ZERO && at != ZERO && authorizedAt <= at
    ensures first <= k < last && InCell(host, rule, k, at)
    ensures PeriodAt(host, rule, authorizedAt, at) == Some(CellPeriod(host, rule, authorizedAt, k))
  {
    k := SpanIsCell(host, rule, first, last, at);
  }

  ghost function CellPeriod(host: Host, rule: ResetRule, authorizedAt: int, k: int): Period
    requires ValidRule(host, rule)
  {
    var zone := host.zones[rule.timezone];
    var start := Boundary(zone, rule, k);
    MakePeriod(host, if start < authorizedAt then authorizedAt else start, Boundary(zone, rule, k + 1))
  }

  /**
   The rules and zones the promises are made for, at instants from `from` up to `limit`: never-reset rules
   everywhere, and recurring ones where the zone is regular between boundaries around those instants.
   */
  ghost predicate Promised(host: Host, rule: ResetRule, from: int, limit: int) {
    && ValidRule(host, rule)
    && (rule.kind == NEVER || exists first, last ::
          && Recurring(host, rule, first, last)
          && Boundary(host.zones[rule.timezone], rule, first) <= from && limit <= Boundary(host.zones[rule.timezone], rule, last))
  }

  /** An instant of the promised stretch, not before the authorization. */
  predicate Asked(from: int, limit: int, authorizedAt: int, at: int) {
    authorizedAt > ZERO && authorizedAt <= at && from <= at < limit
  }

  /**
   A zone given by a table keeps the promises between two boundaries exactly when no transition harms the
   rule's time of day on the days between them; what the table says of other days does not matter.
   */
  lemma TablePromises(host: Host, rule: ResetRule, table: Table, first: int, last: int)
    requires ValidRule(host, rule) && rule.kind != NEVER && first <= last
    requires table.Valid() && host.zones[rule.timezone] == table.ToZone()
    ensures var zone := table.ToZone();
            Recurring(host, rule, first, last) <==>
              forall day: int, k ::
                BoundaryDay(zone, rule, first) <= day <= LastDay(zone, rule, last) && 0 <= k < |table.changes| ==>
                  table.Kept(k, Wall(day, BoundaryTime(zone, rule)))
    ensures Recurring(host, rule, first, last) ==>
              Promised(host, rule, Boundary(table.ToZone(), rule, first), Boundary(table.ToZone(), rule, last))
  {
    hide BoundaryTime, BoundaryDay, LastDay;
    var zone := table.ToZone();
    TableRegular(table, BoundaryTime(zone, rule), BoundaryDay(zone, rule, first), LastDay(zone, rule, last));
  }

  ghost predicate Covers(period: Period, t: int) {
    period.startsAt <= t && (period.endsAt.Some? ==> t < period.endsAt.value)
  }

  /** A period contains the instant it was computed for and never predates the authorization. */
  lemma Containment(host: Host, rule: ResetRule, from: int, limit: int, authorizedAt: int, at: int)
    requires Promised(host, rule, from, limit) && Asked(from, limit, authorizedAt, at)
    ensures var period := PeriodAt(host, rule, authorizedAt, at);
            && period.Some? && Covers(period.value, at) && authorizedAt <= period.value.startsAt
            && (period.value.endsAt == None <==> rule.kind == NEVER)
  {
    if rule.kind != NEVER {
      var k := PromisedCell(host, rule, from, limit, authorizedAt, at);
    }
  }

  lemma PromisedCell(host: Host, rule: ResetRule, from: int, limit: int, authorizedAt: int, at: int) returns (k: int)
    requires Promised(host, rule, from, limit) && Asked(from, limit, authorizedAt, at) && rule.kind != NEVER
    ensures InCell(host, rule, k, at)
    ensures PeriodAt(host, rule, authorizedAt, at) == Some(CellPeriod(host, rule, authorizedAt, k))
  {
    hide Recurring, Boundary, PeriodAt, CellPeriod;
    var first, last :| Recurring(host, rule, first, last)
      && Boundary(host.zones[rule.timezone], rule, first) <= from && limit <= Boundary(host.zones[rule.timezone], rule, last);
    k := PeriodIsCell(host, rule, first, last, authorizedAt, at);
  }

  /** Within the promised stretch the evaluation always ends. */
  lemma PromisedEnds(host: Host, rule: ResetRule, from: int, limit: int, authorizedAt: int, at: int)
    requires Promised(host, rule, from, limit) && Asked(from, limit, authorizedAt, at)
    ensures Evaluable(host, rule, authorizedAt, at)
  {
    hide Recurring, Boundary, Ends, LastOnOrBefore;
    if rule.kind == INTERVAL {
      var first, last :| Recurring(host, rule, first, last)
        && Boundary(host.zones[rule.timezone], rule, first) <= from && limit <= Boundary(host.zones[rule.timezone], rule, last);
      var k := BackUpOnce(host, rule, first, last, at);
    }
  }

  /** Two instants of the promised stretch in one cell, or in two. */
  lemma PromisedCells(host: Host, rule: ResetRule, from: int, limit: int, authorizedAt: int, at: int, t: int) returns (k: int, own: int)
    requires Promised(host, rule, from, limit) && rule.kind != NEVER
    requires Asked(from, limit, authorizedAt, at) && Asked(from, limit, authorizedAt, t)
    ensures InCell(host, rule, k, at) && InCell(host, rule, own, t)
    ensures PeriodAt(host, rule, authorizedAt, at) == Some(CellPeriod(host, rule, authorizedAt, k))
    ensures PeriodAt(host, rule, authorizedAt, t) == Some(CellPeriod(host, rule, authorizedAt, own))
    ensures InCell(host, rule, k, t) ==> own == k
    ensures Boundary(host.zones[rule.timezone], rule, k + 1) == t ==> own == k + 1
  {
    hide Recurring, Boundary, PeriodAt, CellPeriod, InCell;
    var first, last :| Recurring(host, rule, first, last)
      && Boundary(host.zones[rule.timezone], rule, first) <= from && limit <= Boundary(host.zones[rule.timezone], rule, last);
    k := PeriodIsCell(host, rule, first, last, authorizedAt, at);
    own := PeriodIsCell(host, rule, first, last, authorizedAt, t);
    if InCell(host, rule, k, t) {
      CellUnique(host, rule, first, last, k, own, t);
    }
    if Boundary(host.zones[rule.timezone], rule, k + 1) == t {
      StartsCell(host, rule, first, last, k + 1, t);
      CellUnique(host, rule, first, last, k + 1, own, t);
    }
  }

  lemma StartsCell(host: Host, rule: ResetRule, first: int, last: int, k: int, t: int)
    requires Recurring(host, rule, first, last) && Within(host, rule, first, last, t)
    requires first <= k <= last && Boundary(host.zones[rule.timezone], rule, k) == t
    ensures k < last && InCell(host, rule, k, t)
  {
    BoundariesIncrease(host, rule, first, last, k, k + 1);
  }

  /** The next period starts exactly where this one ends. */
  lemma Tiling(host: Host, rule: ResetRule, from: int, limit: int, authorizedAt: int, at: int)
    requires Promised(host, rule, from, limit) && Asked(from, limit, authorizedAt, at) && rule.kind != NEVER
    ensures var end := PeriodAt(host, rule, authorizedAt, at).value.endsAt;
            && end.Some?
            && (end.value < limit ==>
                 && PeriodAt(host, rule, authorizedAt, end.value).Some?
                 && PeriodAt(host, rule, authorizedAt, end.value).value.startsAt == end.value)
  {
    Containment(host, rule, from, limit, authorizedAt, at);
    var end := PeriodAt(host, rule, authorizedAt, at).value.endsAt.value;
    if end < limit {
      var k, next := PromisedCells(host, rule, from, limit, authorizedAt, at, end);
      hide PeriodAt, Promised, Boundary;
      assert end == Boundary(host.zones[rule.timezone], rule, k + 1);
    }
  }

  /** Every instant of a period yields that period, so periods partition time from the authorization on. */
  lemma Partition(host: Host, rule: ResetRule, from: int, limit: int, authorizedAt: int, at: int, t: int)
    requires Promised(host, rule, from, limit)
    requires Asked(from, limit, authorizedAt, at) && Asked(from, limit, authorizedAt, t)
    ensures PeriodAt(host, rule, authorizedAt, at).Some?
    ensures Covers(PeriodAt(host, rule, authorizedAt, at).value, t)
       <==> PeriodAt(host, rule, authorizedAt, t) == PeriodAt(host, rule, authorizedAt, at)
  {
    Containment(host, rule, from, limit, authorizedAt, at);
    Containment(host, rule, from, limit, authorizedAt, t);
    if rule.kind != NEVER {
      hide PeriodAt, Promised, Boundary, ValidRule, Covers, CellPeriod, InCell;
      var k, own := PromisedCells(host, rule, from, limit, authorizedAt, at, t);
      CellCovers(host, rule, authorizedAt, k, at, t);
      CellCovers(host, rule, authorizedAt, own, t, t);
    }
  }

  lemma CellCovers(host: Host, rule: ResetRule, authorizedAt: int, k: int, at: int, t: int)
    requires ValidRule(host, rule) && InCell(host, rule, k, at)
    requires ZERO < authorizedAt <= at && authorizedAt <= t
    ensures Covers(CellPeriod(host, rule, authorizedAt, k), t) <==> InCell(host, rule, k, t)
  {
    hide Boundary, PeriodId, ValidRule;
  }

  /** Every computed period passes `ValidatePeriod`. */
  lemma ComputedPeriodIsValid(host: Host, rule: ResetRule, from: int, limit: int, authorizedAt: int, at: int)
    requires Promised(host, rule, from, limit) && Asked(from, limit, authorizedAt, at)
    ensures PeriodAt(host, rule, authorizedAt, at).Some?
    ensures ValidPeriod(host, PeriodAt(host, rule, authorizedAt, at).value)
  {
    hide Promised;
    Containment(host, rule, from, limit, authorizedAt, at);
  }

  /** Among valid periods `SamePeriod` is equality of the boundaries. */
  lemma SamePeriodIsBoundaries(host: Host, first: Period, second: Period)
    requires ValidPeriod(host, first) && ValidPeriod(host, second)
    ensures SamePeriod(first, second) <==> first.startsAt == second.startsAt && first.endsAt == second.endsAt
    ensures SamePeriod(first, second) <==> first == second
  {
    hide PeriodId;
  }

  /** The check `ValidateAuthorizationPolicy` makes: evaluating at the period's own start gives the period back. */
  ghost predicate ReEvaluates(host: Host, rule: ResetRule, authorizedAt: int, period: Period) {
    var computed := PeriodAt(host, rule, authorizedAt, period.startsAt);
    computed.Some? && SamePeriod(computed.value, period)
  }

  lemma NoPeriodBeforeStart(host: Host, rule: ResetRule, authorizedAt: int, at: int)
    requires PeriodAt(host, rule, authorizedAt, at).Some?
    ensures authorizedAt <= at
  {
  }

  /** Re-evaluation accepts exactly the periods some instant can produce, clamped starts included. */
  lemma ReEvaluationIsExact(host: Host, rule: ResetRule, from: int, limit: int, authorizedAt: int, period: Period)
    requires Promised(host, rule, from, limit) && authorizedAt > ZERO && from <= period.startsAt < limit
    ensures ReEvaluates(host, rule, authorizedAt, period)
       <==> exists at :: Asked(from, limit, authorizedAt, at) && PeriodAt(host, rule, authorizedAt, at) == Some(period)
  {
    hide PeriodAt, Promised, Recurring;
    if ReEvaluates(host, rule, authorizedAt, period) {
      NoPeriodBeforeStart(host, rule, authorizedAt, period.startsAt);
      assert PeriodAt(host, rule, authorizedAt, period.startsAt) == Some(period);
      assert Asked(from, limit, authorizedAt, period.startsAt);
    }
    if at :| Asked(from, limit, authorizedAt, at) && PeriodAt(host, rule, authorizedAt, at) == Some(period) {
      Containment(host, rule, from, limit, authorizedAt, at);
      Partition(host, rule, from, limit, authorizedAt, at, period.startsAt);
    }
  }

  /** Outside the promised domain: a recurring period loses its end exactly when that boundary is Go's zero time. */
  lemma EndAtZeroTimeIsLost(host: Host, rule: ResetRule, first: int, last: int, authorizedAt: int, at: int) returns (k: int)
    requires Recurring(host, rule, first, last) && Within(host, rule, first, last, at)
    requires authorizedAt != ZERO && at != ZERO && authorizedAt <= at
    ensures InCell(host, rule, k, at)
    ensures PeriodAt(host, rule, authorizedAt, at).Some?
    ensures PeriodAt(host, rule, authorizedAt, at).value.endsAt == None <==> Boundary(host.zones[rule.timezone], rule, k + 1) == ZERO
  {
    k := PeriodIsCell(host, rule, first, last, authorizedAt, at);
  }

  // ----- identifiers -----

  /**
   The ID of a period is the first half of the hash of its start in UTC, a NUL, and its end in UTC or nothing;
   and those timestamps, cut at the first NUL, read as the boundaries.
   */
  lemma PeriodIdText(host: Host, rule: ResetRule, authorizedAt: int, at: int) returns (text: string, cut: nat)
    requires PeriodAt(host, rule, authorizedAt, at).Some?
    ensures var period := PeriodAt(host, rule, authorizedAt, at).value;
            && period.id == Hex(host.sha256(text)[..16])
            && cut < |text| && text[cut] == '\0' && '\0' !in text[..cut]
            && text[..cut] == Format(Time(period.startsAt, 0))
            && (FourDigitYear(period.startsAt) ==> Parse(text[..cut]) == Some(Time(period.startsAt, 0)))
            && (text[cut + 1..] == "" <==> period.endsAt == None)
            && (period.endsAt.Some? ==>
                 && text[cut + 1..] == Format(Time(period.endsAt.value, 0))
                 && (FourDigitYear(period.endsAt.value) ==> Parse(text[cut + 1..]) == Some(Time(period.endsAt.value, 0))))
  {
    var period := PeriodAt(host, rule, authorizedAt, at).value;
    assert period.id == PeriodId(host, period.startsAt, period.endsAt);
    hide PeriodAt;
    text, cut := PeriodInputParts(period.startsAt, period.endsAt);
  }

  lemma PeriodInputParts(startsAt: int, endsAt: Option<int>) returns (text: string, cut: nat)
    ensures text == PeriodInput(startsAt, endsAt)
    ensures cut < |text| && text[cut] == '\0' && '\0' !in text[..cut] && text[..cut] == Format(Time(startsAt, 0))
    ensures FourDigitYear(startsAt) ==> Parse(text[..cut]) == Some(Time(startsAt, 0))
    ensures text[cut + 1..] == "" <==> endsAt == None
    ensures endsAt.Some? ==> && text[cut + 1..] == Format(Time(endsAt.value, 0))
                             && (FourDigitYear(endsAt.value) ==> Parse(text[cut + 1..]) == Some(Time(endsAt.value, 0)))
  {
    hide Format, FormatUtc, Parse, FourDigitYear;
    var start := FormatUtc(startsAt);
    var end := if endsAt.Some? then FormatUtc(endsAt.value) else "";
    text, cut := PeriodInput(startsAt, endsAt), |start|;
    assert text == start + "\0" + end && text[..cut] == start && text[cut + 1..] == end;
    UtcReads(startsAt);
    FormatUtcIsPlain(startsAt);
    if endsAt.Some? {
      UtcReads(endsAt.value);
      FormatUtcIsPlain(endsAt.value);
    }
  }

  /** The hashed text determines both boundaries and whether there is an end. */
  lemma PeriodInputInjective(startA: int, endA: Option<int>, startB: int, endB: Option<int>)
    requires PeriodInput(startA, endA) == PeriodInput(startB, endB)
    ensures startA == startB && endA == endB
  {
    hide Format, FormatUtc, Join;
    FormatUtcIsPlain(startA);
    FormatUtcIsPlain(startB);
    var a, b := if endA.Some? then FormatUtc(endA.value) else "", if endB.Some? then FormatUtc(endB.value) else "";
    JoinInjective(FormatUtc(startA), a, FormatUtc(startB), b);
    FormatUtcInjective(startA, startB);
    if endA.Some? { FormatUtcIsPlain(endA.value); }
    if endB.Some? { FormatUtcIsPlain(endB.value); }
    if endA.Some? && endB.Some? { FormatUtcInjective(endA.value, endB.value); }
  }

  /** Equal IDs mean equal periods, as long as the hash does not collide on their two texts. */
  lemma PeriodIdDetermines(host: Host, first: Period, second: Period)
    requires var x, y := PeriodInput(first.startsAt, first.endsAt), PeriodInput(second.startsAt, second.endsAt);
             host.sha256(x)[..16] == host.sha256(y)[..16] ==> x == y
    requires ValidPeriod(host, first) && ValidPeriod(host, second) && first.id == second.id
    ensures first == second
  {
    hide PeriodInput;
    var x, y := PeriodInput(first.startsAt, first.endsAt), PeriodInput(second.startsAt, second.endsAt);
    HexInjective(host.sha256(x)[..16], host.sha256(y)[..16]);
    PeriodInputInjective(first.startsAt, first.endsAt, second.startsAt, second.endsAt);
  }
}
