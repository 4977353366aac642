/**
 Where the wall-clock premise of module Zones matters, exactly: on every zone given by a table of transitions,
 when the daily rule keeps its promise at all instants, and when the interval rule's back-up loop always ends.
 */
module PeriodLimits {
  import opened Calendar
  import opened Text
  import opened Zones
  import opened Periods
  import opened PeriodTheorems

  // ----- the daily rule -----

  /** What the daily rule promises at an instant: the period contains it, and the next one starts at its end. */
  predicate DailyWorks(zone: Zone, at: int) {
    var (start, end) := DailySpan(zone, at);
    start <= at < end && DailySpan(zone, end).0 == end
  }

  lemma RegularDailyWorks(zone: Zone, at: int, day: int)
    requires day == DayOf(zone.local(at)) && Passed(zone, Wall(day, 0)) && Passed(zone, Wall(day + 1, 0))
    ensures DailyWorks(zone, at)
  {
    MoveDays(zone, 0, day, 1);
    WallBefore(zone.local(at), day + 1, 0);
    assert Wall(day, 0) <= zone.local(at);
    WallsOfDays(day + 1, day + 1, 0);
  }

  /** Readings within two days of a transition are touched by no other. */
  lemma OnlyTouchedBy(table: Table, k: int, wall: int)
    requires table.Valid() && 0 <= k < |table.changes| && table.Clear(k, wall)
    requires -2 * DAY < wall - table.changes[k].at < 2 * DAY
    ensures Passed(table.ToZone(), wall)
  {
    forall j | 0 <= j < |table.changes| && j != k
      ensures table.Clear(j, wall)
    {
      assert if j < k then table.changes[j].at + 3 * DAY <= table.changes[k].at
             else table.changes[k].at + 3 * DAY <= table.changes[j].at;
    }
    ClearIsPassed(table, wall);
  }

  lemma DayOfReading(wall: int, day: int)
    requires Wall(day, 0) <= wall < Wall(day, 0) + DAY
    ensures DayOf(wall) == day
  {
  }

  /** The start of an instant's day lies after the instant. */
  lemma StartsLate(table: Table, at: int, day: int)
    requires Wall(day, 0) <= table.Local(at) < Wall(day, 0) + DAY && at < table.Instant(Wall(day, 0))
    ensures !DailyWorks(table.ToZone(), at) && DayOf(table.Local(at)) == day
  {
    DayOfReading(table.Local(at), day);
  }

  /** The end of an instant's day, where the next midnight is read, lies before the instant. */
  lemma EndsEarly(table: Table, at: int, day: int)
    requires Wall(day, 0) <= table.Local(at) < Wall(day, 0) + DAY && table.Instant(Wall(day + 1, 0)) <= at
    requires Passed(table.ToZone(), Wall(day, 0))
    ensures !DailyWorks(table.ToZone(), at) && DayOf(table.Local(at)) == day
  {
    DayOfReading(table.Local(at), day);
    MoveDays(table.ToZone(), 0, day, 1);
  }

  /** A day that starts late in local time ends as late the next day, but that day starts at its midnight. */
  lemma NextStartsEarlier(table: Table, at: int, day: int, late: int)
    requires 0 < late < DAY && table.Instant(Wall(day, 0)) == at && table.Local(at) == Wall(day, late)
    requires Passed(table.ToZone(), Wall(day + 1, 0)) && Passed(table.ToZone(), Wall(day + 1, late))
    ensures !DailyWorks(table.ToZone(), at) && DayOf(table.Local(at)) == day
  {
    var zone := table.ToZone();
    WallsOfDays(day, day, late);
    WallsOfDays(day + 1, day + 1, late);
    assert Wall(day + 1, 0) < Wall(day + 1, late);
    hide Wall, DayOf, TimeOf;
    var end := zone.instant(Wall(day + 1, late));
    assert DailySpan(zone, at) == (at, end);
    assert DailySpan(zone, end).0 == zone.instant(Wall(day + 1, 0));
  }

  /** What the clocks show within three days of a transition. */
  lemma NearLocal(table: Table, k: int, t: int)
    requires table.Valid() && 0 <= k < |table.changes|
    requires -3 * DAY < t - table.changes[k].at < 3 * DAY
    ensures table.Local(t) == t + table.Offset(if t < table.changes[k].at then k else k + 1)
  {
    NearTransition(table, k, t);
  }

  /** Clocks set back over a midnight: its first passing precedes the day's start, or the day before outlasts its end. */
  lemma SetBackBreaks(table: Table, k: int, day: int) returns (at: int)
    requires table.Valid() && 0 <= k < |table.changes| && table.Jump(k) < 0 && !table.Kept(k, Wall(day, 0))
    ensures !DailyWorks(table.ToZone(), at) && day - 1 <= DayOf(table.Local(at)) <= day
  {
    hide Table.Segment, Table.SegmentFrom, Table.Local, Table.Instant, DailyWorks, DayOf;
    var change, before, after, midnight := table.changes[k].at, table.Offset(k), table.Offset(k + 1), Wall(day, 0);
    assert -DAY < before < DAY && -DAY < after < DAY && before - DAY <= after < before;
    assert change + after <= midnight < change + before;
    TouchedInstant(table, k, midnight);
    at := if midnight >= change then midnight - before else midnight - 1 - after;
    NearLocal(table, k, at);
    if midnight >= change {
      StartsLate(table, at, day);
    } else {
      assert Wall(day - 1, 0) == midnight - DAY;
      OnlyTouchedBy(table, k, midnight - DAY);
      EndsEarly(table, at, day - 1);
    }
  }

  /** Clocks set forward over a midnight: the day before outlasts its end, or the day starts late. */
  lemma SetForwardBreaks(table: Table, k: int, day: int) returns (at: int)
    requires table.Valid() && 0 <= k < |table.changes| && table.Jump(k) > 0 && !table.Kept(k, Wall(day, 0))
    ensures !DailyWorks(table.ToZone(), at) && day - 1 <= DayOf(table.Local(at)) <= day
  {
    hide Table.Segment, Table.SegmentFrom, Table.Local, Table.Instant, DailyWorks, DayOf;
    var change, before, after, midnight := table.changes[k].at, table.Offset(k), table.Offset(k + 1), Wall(day, 0);
    assert -DAY < before < DAY && -DAY < after < DAY && before < after <= before + DAY;
    assert change + before <= midnight < change + after;
    TouchedInstant(table, k, midnight);
    at := if midnight < change then change - 1 else change;
    NearLocal(table, k, at);
    if midnight < change {
      assert Wall(day - 1, 0) == midnight - DAY;
      OnlyTouchedBy(table, k, midnight - DAY);
      EndsEarly(table, at, day - 1);
    } else if midnight > change + before {
      StartsLate(table, at, day);
    } else {
      var late := after - before;
      assert Wall(day, late) == midnight + late && Wall(day + 1, 0) == midnight + DAY && Wall(day + 1, late) == midnight + DAY + late;
      OnlyTouchedBy(table, k, midnight + DAY);
      OnlyTouchedBy(table, k, midnight + DAY + late);
      NextStartsEarlier(table, at, day, late);
    }
  }

  /** A midnight that a transition harms breaks the daily rule on that day or the day before. */
  lemma HarmedMidnightBreaks(table: Table, k: int, day: int) returns (at: int)
    requires table.Valid() && 0 <= k < |table.changes| && !table.Kept(k, Wall(day, 0))
    ensures !DailyWorks(table.ToZone(), at) && day - 1 <= DayOf(table.Local(at)) <= day
  {
    if table.Jump(k) < 0 {
      at := SetBackBreaks(table, k, day);
    } else {
      at := SetForwardBreaks(table, k, day);
    }
  }

  /**
   The daily rule keeps its promise at every instant exactly when no transition skips or repeats a midnight,
   save by setting the clocks back to exactly midnight west of Greenwich.
   */
  lemma DailyExact(table: Table)
    requires table.Valid()
    ensures (forall at :: DailyWorks(table.ToZone(), at))
       <==> (forall k, day: int :: 0 <= k < |table.changes| ==> table.Kept(k, Wall(day, 0)))
  {
    if forall k, day: int :: 0 <= k < |table.changes| ==> table.Kept(k, Wall(day, 0)) {
      forall at
        ensures DailyWorks(table.ToZone(), at)
      {
        var day := DayOf(table.Local(at));
        PassedExactly(table, Wall(day, 0));
        PassedExactly(table, Wall(day + 1, 0));
        RegularDailyWorks(table.ToZone(), at, day);
      }
    } else {
      var k, day: int :| 0 <= k < |table.changes| && !table.Kept(k, Wall(day, 0));
      var at := HarmedMidnightBreaks(table, k, day);
    }
  }

  /** Two readings on one day, after its midnight, are on the same side of every midnight. */
  lemma SameSide(a: int, b: int, day: int)
    requires DayOf(a) == DayOf(b) && TimeOf(a) > 0 && TimeOf(b) > 0
    ensures a < Wall(day, 0) <==> b < Wall(day, 0)
  {
    WallBefore(a, day, 0);
    WallBefore(b, day, 0);
    assert a == Wall(DayOf(a), TimeOf(a)) && b == Wall(DayOf(b), TimeOf(b));
    WallsOfDays(DayOf(a), day, 0);
  }

  /** Transition `k` changes the clocks within a day, after its midnight. */
  predicate WithinDay(table: Table, k: int)
    requires 0 <= k < |table.changes|
  {
    var before, after := table.changes[k].at + table.Offset(k), table.changes[k].at + table.Offset(k + 1);
    DayOf(before) == DayOf(after) && TimeOf(before) > 0 && TimeOf(after) > 0
  }

  lemma WithinDayKept(table: Table, k: int, day: int)
    requires 0 <= k < |table.changes| && WithinDay(table, k)
    ensures table.Kept(k, Wall(day, 0))
  {
    var before, after := table.changes[k].at + table.Offset(k), table.changes[k].at + table.Offset(k + 1);
    hide Wall, DayOf, TimeOf;
    SameSide(before, after, day);
  }

  /** Changing the clocks within a day, as most zones do in the early morning, leaves the daily rule alone. */
  lemma EarlyMorningJumpIsHarmless(table: Table, at: int)
    requires table.Valid() && forall k :: 0 <= k < |table.changes| ==> WithinDay(table, k)
    ensures DailyWorks(table.ToZone(), at)
  {
    hide WithinDay, DailyWorks, Table.Kept, Table.Valid;
    forall k, day: int | 0 <= k < |table.changes|
      ensures table.Kept(k, Wall(day, 0))
    {
      WithinDayKept(table, k, day);
    }
    DailyExact(table);
  }

  // ----- the interval rule's back-up loop -----

  /** Some transition skips a whole day, as crossing the date line westward does. */
  ghost predicate SkipsDay(table: Table) {
    exists k :: 0 <= k < |table.changes| && table.Jump(k) == DAY
  }

  /** Every step of `days` leads to an earlier instant. */
  ghost predicate GoesBack(zone: Zone, days: int) {
    forall t :: zone.AddDays(t, days) < t
  }

  lemma AddDaysReading(table: Table, t: int, days: int)
    ensures table.ToZone().AddDays(t, days) == table.Instant(table.Local(t) + days * DAY)
  {
    var wall := table.Local(t);
    assert Wall(DayOf(wall) + days, TimeOf(wall)) == wall + days * DAY;
  }

  lemma OneDayBack(table: Table, t: int)
    requires table.Valid() && !SkipsDay(table)
    ensures table.Instant(table.Local(t) - DAY) < t
  {
    hide Table.Segment, Table.SegmentFrom;
    var own := table.Segment(t);
    var wall := t + table.Offset(own) - DAY;
    var guess := wall - table.Offset(table.Segment(wall));
    var found := table.Segment(guess);
    if found != own {
      var k := if found < own then own - 1 else own;
      assert table.Jump(k) != DAY;
      NearTransition(table, k, wall);
      NearTransition(table, k, guess);
      NearTransition(table, k, t);
    }
  }

  /** Neither lookup moves a reading or an instant by a day. */
  lemma LessThanADay(table: Table, x: int)
    requires table.Valid()
    ensures x - DAY < table.Local(x) < x + DAY && x - DAY < table.Instant(x) < x + DAY
  {
  }

  /** A step back of two days or more always goes back; one of a day does unless the zone skips a day. */
  lemma StepsBack(table: Table, step: int)
    requires table.Valid() && step >= 1 && (step >= 2 || !SkipsDay(table))
    ensures GoesBack(table.ToZone(), -step)
  {
    hide Table.Local, Table.Instant, Zone.AddDays, SkipsDay;
    var days := -step;
    forall t
      ensures table.ToZone().AddDays(t, days) < t
    {
      AddDaysReading(table, t, days);
      if step == 1 {
        OneDayBack(table, t);
      } else {
        LessThanADay(table, t);
        LessThanADay(table, table.Local(t) + days * DAY);
        assert days * DAY <= -2 * DAY;
      }
    }
  }

  lemma {:induction false} BackGoesBack(zone: Zone, step: int, start: int, turns: nat)
    requires GoesBack(zone, -step)
    ensures Back(zone, step, start, turns) <= start - turns
  {
    if turns > 0 { BackGoesBack(zone, step, start, turns - 1); }
  }

  lemma LoopEnds(zone: Zone, step: int, start: int, at: int)
    requires GoesBack(zone, -step)
    ensures Ends(zone, step, start, at)
  {
    BackGoesBack(zone, step, start, if start > at then start - at else 0);
  }

  lemma {:induction false} BackStays(zone: Zone, step: int, start: int, turns: nat)
    requires zone.AddDays(start, -step) == start
    ensures Back(zone, step, start, turns) == start
  {
    if turns > 0 { BackStays(zone, step, start, turns - 1); }
  }

  /** After a skipped day there is an instant whose reading, a day back, `time.Date` resolves to that same instant. */
  lemma StandsStill(table: Table, k: int, t: int)
    requires table.Valid() && 0 <= k < |table.changes| && table.Jump(k) == DAY
    requires table.changes[k].at <= t + table.Offset(k + 1) - DAY < table.changes[k].at + table.Offset(k + 1)
    ensures table.Local(t) == t + table.Offset(k + 1)
    ensures table.ToZone().AddDays(t, 0) == t && table.ToZone().AddDays(t, -1) == t
  {
    hide Table.Segment, Table.SegmentFrom;
    NearTransition(table, k, t);
    AddDaysReading(table, t, 0);
    AddDaysReading(table, t, -1);
    TouchedInstant(table, k, table.Local(t) - DAY);
    NearTransition(table, k, table.Local(t));
  }

  /** The instant before one that is not a local midnight is on the same day. */
  lemma SameDayBefore(wall: int)
    requires TimeOf(wall) > 0
    ensures DayOf(wall - 1) == DayOf(wall)
  {
  }

  lemma NotMidnight(wall: int) returns (later: int)
    ensures wall <= later <= wall + 1 && TimeOf(later + DAY) > 0
  {
    later := if TimeOf(wall) > 0 then wall else wall + 1;
  }

  lemma {:induction false} StillNotBefore(zone: Zone, start: int, at: int)
    requires zone.AddDays(start, -1) == start && at < start
    ensures !Ends(zone, 1, start, at)
  {
    forall turns: nat
      ensures Back(zone, 1, start, turns) > at
    {
      BackStays(zone, 1, start, turns);
    }
  }

  lemma SameDayStart(zone: Zone, anchor: int, at: int)
    requires DayOf(zone.local(anchor)) == DayOf(zone.local(at)) && zone.AddDays(anchor, 0) == anchor
    ensures LastOnOrBefore(zone, 1, anchor, at) == anchor
  {
  }

  /** In a zone that skips a day, an anchor and an instant for which the loop steps back to where it was, for ever. */
  lemma BackUpCanStall(table: Table, k: int) returns (anchor: int, at: int)
    requires table.Valid() && 0 <= k < |table.changes| && table.Jump(k) == DAY && table.Offset(k + 1) >= SECOND
    ensures !Ends(table.ToZone(), 1, LastOnOrBefore(table.ToZone(), 1, anchor, at), at)
  {
    hide Table.Segment, Table.SegmentFrom, Table.Local, Table.Instant, Zone.AddDays, DayOf, TimeOf, LastOnOrBefore, Ends;
    var reading := NotMidnight(table.changes[k].at);
    anchor := reading + DAY - table.Offset(k + 1);
    at := anchor - 1;
    StandsStill(table, k, anchor);
    NearLocal(table, k, at);
    SameDayBefore(reading + DAY);
    SameDayStart(table.ToZone(), anchor, at);
    StillNotBefore(table.ToZone(), anchor, at);
  }

  /** Go's zone offsets are whole seconds. */
  ghost predicate WholeSeconds(table: Table) {
    forall k :: 0 <= k <= |table.changes| ==> table.Offset(k) % SECOND == 0
  }

  lemma PositiveSeconds(offset: int)
    requires offset % SECOND == 0 && offset > 0
    ensures offset >= SECOND
  {
  }

  /** The loop ends for every anchor and instant exactly when the step is at least two days or the zone skips no day. */
  lemma BackUpEndsExactly(table: Table, step: int)
    requires table.Valid() && WholeSeconds(table) && step >= 1
    ensures (forall anchor, at :: Ends(table.ToZone(), step, LastOnOrBefore(table.ToZone(), step, anchor, at), at))
       <==> step >= 2 || !SkipsDay(table)
  {
    hide GoesBack, Ends, LastOnOrBefore;
    var zone := table.ToZone();
    if step >= 2 || !SkipsDay(table) {
      StepsBack(table, step);
      forall anchor, at
        ensures Ends(zone, step, LastOnOrBefore(zone, step, anchor, at), at)
      {
        LoopEnds(zone, step, LastOnOrBefore(zone, step, anchor, at), at);
      }
    } else {
      var k :| 0 <= k < |table.changes| && table.Jump(k) == DAY;
      PositiveSeconds(table.Offset(k + 1));
      var anchor, at := BackUpCanStall(table, k);
    }
  }

  /** So evaluation ends for every rule of such a zone, whatever the anchor's time of day. */
  lemma EvaluationEnds(host: Host, rule: ResetRule, table: Table, authorizedAt: int, at: int)
    requires ValidRule(host, rule) && table.Valid() && host.zones[rule.timezone] == table.ToZone()
    requires rule.kind == INTERVAL ==> rule.value.value >= 2 || !SkipsDay(table)
    ensures Evaluable(host, rule, authorizedAt, at)
  {
    if rule.kind == INTERVAL {
      var zone, step: int := table.ToZone(), rule.value.value;
      StepsBack(table, step);
      LoopEnds(zone, step, LastOnOrBefore(zone, step, rule.anchor.value, at), at);
    }
  }
}
