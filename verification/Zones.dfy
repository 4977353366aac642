/**
 Time zones as Go's `time` package presents them. An instant is a number of nanoseconds since Go's
 zero time; a wall-clock reading is a number of nanoseconds since local midnight of day 0 (see Calendar).
 */
module Zones {

  const SECOND := 1_000_000_000
  const DAY := 86_400_000_000_000

  function Wall(day: int, timeOfDay: int): int {
    day * DAY + timeOfDay
  }

  function DayOf(wall: int): int {
    wall / DAY
  }

  function TimeOf(wall: int): (timeOfDay: int)
    ensures 0 <= timeOfDay < DAY && Wall(DayOf(wall), timeOfDay) == wall
  {
    wall % DAY
  }

  /** `local` is `t.In(location)`, `instant` is `time.Date(..., location)`. */
  datatype Zone = Zone(local: int -> int, instant: int -> int) {
    /** `AddDate(0, 0, days)`: move the civil date, keep the wall-clock time. */
    function AddDays(t: int, days: int): int {
      instant(Wall(DayOf(local(t)) + days, TimeOf(local(t))))
    }
  }

  /** The wall-clock reading is neither skipped nor repeated: it is passed once, at the instant the zone gives for it. */
  ghost predicate Passed(zone: Zone, wall: int) {
    && zone.local(zone.instant(wall)) == wall
    && forall t: int :: t >= zone.instant(wall) <==> zone.local(t) >= wall
  }

  /** The premise on a zone: the wall-clock time is passed once on each of these days. Other days do not matter. */
  ghost predicate Regular(zone: Zone, timeOfDay: int, first: int, last: int) {
    forall day: int :: first <= day <= last ==> Passed(zone, Wall(day, timeOfDay))
  }

  // ----- zones given by a table of transitions, with the lookup `time.Date` performs -----

  datatype Transition = Transition(at: int, offset: int)

  datatype Table = Table(base: int, changes: seq<Transition>) {
    /** Offsets stay under a day, no jump is longer than a day, and transitions are at least three days apart. */
    ghost predicate Valid() {
      && (forall k :: 0 <= k <= |changes| ==> -DAY < Offset(k) < DAY)
      && (forall k :: 0 <= k < |changes| ==> -DAY <= Jump(k) <= DAY)
      && (forall j, k :: 0 <= j < k < |changes| ==> changes[j].at + 3 * DAY <= changes[k].at)
    }

    /** How far transition `k` sets the clocks forward. */
    function Jump(k: int): int
      requires 0 <= k < |changes|
    {
      Offset(k + 1) - Offset(k)
    }

    /** The offset in force after the first `k` transitions. */
    function Offset(k: int): int
      requires 0 <= k <= |changes|
    {
      if k == 0 then base else changes[k - 1].offset
    }

    function SegmentFrom(t: int, k: int): (segment: int)
      requires 0 <= k <= |changes|
      ensures 0 <= segment <= k
      ensures segment > 0 ==> changes[segment - 1].at <= t
      ensures segment < k ==> t < changes[segment].at
    {
      if k == 0 || changes[k - 1].at <= t then k else SegmentFrom(t, k - 1)
    }

    /** How many transitions have happened at instant `t`. */
    function Segment(t: int): (segment: int)
      ensures 0 <= segment <= |changes|
      ensures segment > 0 ==> changes[segment - 1].at <= t
      ensures segment < |changes| ==> t < changes[segment].at
    {
      SegmentFrom(t, |changes|)
    }

    function Local(t: int): int {
      t + Offset(Segment(t))
    }

    /** The offset is looked up as if the reading were UTC, then looked up again at the instant that gives. */
    function Instant(wall: int): int {
      wall - Offset(Segment(wall - Offset(Segment(wall))))
    }

    function ToZone(): Zone {
      Zone(t => Local(t), wall => Instant(wall))
    }

    /** Transition `k` neither skips nor repeats the reading. */
    predicate Clear(k: int, wall: int)
      requires 0 <= k < |changes|
    {
      wall < changes[k].at + Offset(k) <==> wall < changes[k].at + Offset(k + 1)
    }

    /**
     Transition `k` does no harm to the reading: it does not touch it, or it sets the clocks back to exactly
     this reading in a zone that is then west of Greenwich.
     */
    predicate Kept(k: int, wall: int)
      requires 0 <= k < |changes|
    {
      Clear(k, wall) || (Jump(k) < 0 && Offset(k + 1) < 0 && wall == changes[k].at + Offset(k + 1))
    }
  }

  /** Within three days of a transition only that transition matters. */
  lemma NearTransition(table: Table, k: int, t: int)
    requires table.Valid() && 0 <= k < |table.changes|
    requires -3 * DAY < t - table.changes[k].at < 3 * DAY
    ensures table.Segment(t) == if t < table.changes[k].at then k else k + 1
  {
    SegmentIs(table, t, if t < table.changes[k].at then k else k + 1);
  }

  lemma SegmentIs(table: Table, t: int, k: int)
    requires table.Valid() && 0 <= k <= |table.changes|
    requires k > 0 ==> table.changes[k - 1].at <= t
    requires k < |table.changes| ==> t < table.changes[k].at
    ensures table.Segment(t) == k
  {
  }

  /** Which of the two offsets `time.Date` settles on for a reading that transition `k` skips or repeats. */
  lemma TouchedInstant(table: Table, k: int, wall: int)
    requires table.Valid() && 0 <= k < |table.changes| && !table.Clear(k, wall)
    ensures -DAY < wall - table.changes[k].at < DAY
    ensures table.Jump(k) < 0 ==>
      table.Instant(wall) == wall - table.Offset(if wall < table.changes[k].at then k else k + 1)
    ensures table.Jump(k) > 0 ==>
      table.Instant(wall) == wall - table.Offset(if wall < table.changes[k].at then k + 1 else k)
  {
    hide Table.Segment, Table.SegmentFrom;
    NearTransition(table, k, wall);
    NearTransition(table, k, wall - table.Offset(table.Segment(wall)));
  }

  /** A reading no transition touches is found in the segment whose offset applies to it. */
  lemma InstantInSegment(table: Table, wall: int) returns (k: int)
    requires table.Valid() && forall j :: 0 <= j < |table.changes| ==> table.Clear(j, wall)
    ensures 0 <= k <= |table.changes| && table.Instant(wall) == wall - table.Offset(k)
    ensures k > 0 ==> table.changes[k - 1].at <= table.Instant(wall)
    ensures k < |table.changes| ==> table.Instant(wall) < table.changes[k].at
  {
    hide Table.SegmentFrom, Table.Segment, Table.Local;
    var m := table.Segment(wall);
    k := table.Segment(wall - table.Offset(m));
    if k < m {
      assert k + 1 == m;
      assert table.Clear(k, wall);
      if k > 0 { assert table.changes[k - 1].at + 3 * DAY <= table.changes[k].at; }
    } else if m < k {
      assert m + 1 == k;
      assert table.Clear(m, wall);
      if k < |table.changes| { assert table.changes[k - 1].at + 3 * DAY <= table.changes[k].at; }
    }
  }

  lemma InstantIsThreshold(table: Table, wall: int, t: int)
    requires table.Valid() && forall j :: 0 <= j < |table.changes| ==> table.Clear(j, wall)
    ensures t >= table.Instant(wall) <==> table.Local(t) >= wall
  {
    hide Table.SegmentFrom, Table.Segment, Table.Instant;
    var k := InstantInSegment(table, wall);
    var n := table.Segment(t);
    if n < k {
      assert table.Clear(k - 1, wall);
      if n < k - 1 { assert table.changes[n].at + 3 * DAY <= table.changes[k - 1].at; }
    } else if k < n {
      assert table.Clear(k, wall);
      if k < n - 1 { assert table.changes[k].at + 3 * DAY <= table.changes[n - 1].at; }
    }
  }

  lemma ClearIsPassed(table: Table, wall: int)
    requires table.Valid() && forall j :: 0 <= j < |table.changes| ==> table.Clear(j, wall)
    ensures Passed(table.ToZone(), wall)
  {
    var k := InstantInSegment(table, wall);
    SegmentIs(table, table.Instant(wall), k);
    forall t: int
      ensures t >= table.Instant(wall) <==> table.Local(t) >= wall
    {
      InstantIsThreshold(table, wall, t);
    }
  }

  /** Clocks set back to exactly the reading, read as its first occurrence: what follows never shows less. */
  lemma SetBackIsPassed(table: Table, k: int, wall: int)
    requires table.Valid() && 0 <= k < |table.changes| && !table.Clear(k, wall) && table.Kept(k, wall)
    ensures Passed(table.ToZone(), wall)
  {
    hide Table.SegmentFrom, Table.Segment, Table.Instant;
    TouchedInstant(table, k, wall);
    forall t: int
      ensures t >= table.Instant(wall) <==> table.Local(t) >= wall
    {
      if -3 * DAY < t - table.changes[k].at < 3 * DAY { NearTransition(table, k, t); }
    }
    NearTransition(table, k, table.Instant(wall));
  }

  /** A skipped reading is never read back; a repeated one splits the instants in the wrong place. */
  lemma UnkeptIsNotPassed(table: Table, k: int, wall: int)
    requires table.Valid() && 0 <= k < |table.changes| && !table.Kept(k, wall)
    ensures !Passed(table.ToZone(), wall)
  {
    hide Table.SegmentFrom, Table.Segment, Table.Instant;
    var at := table.changes[k].at;
    TouchedInstant(table, k, wall);
    NearTransition(table, k, table.Instant(wall));
    var zone := table.ToZone();
    if table.Jump(k) > 0 {
      assert zone.local(zone.instant(wall)) != wall;
    } else {
      var t := if wall < at then at else wall - table.Offset(k);
      NearTransition(table, k, t);
      assert (t >= zone.instant(wall)) != (zone.local(t) >= wall);
    }
  }

  lemma PassedExactly(table: Table, wall: int)
    requires table.Valid()
    ensures Passed(table.ToZone(), wall) <==> forall k :: 0 <= k < |table.changes| ==> table.Kept(k, wall)
  {
    if forall k :: 0 <= k < |table.changes| ==> table.Clear(k, wall) {
      ClearIsPassed(table, wall);
    } else {
      var k :| 0 <= k < |table.changes| && !table.Clear(k, wall);
      if !table.Kept(k, wall) {
        UnkeptIsNotPassed(table, k, wall);
      } else {
        SetBackIsPassed(table, k, wall);
        OthersClear(table, k, wall);
      }
    }
  }

  lemma OthersClear(table: Table, k: int, wall: int)
    requires table.Valid() && 0 <= k < |table.changes| && !table.Clear(k, wall)
    ensures forall j :: 0 <= j < |table.changes| && j != k ==> table.Clear(j, wall)
  {
    forall j | 0 <= j < |table.changes| && j != k
      ensures table.Clear(j, wall)
    {
      assert if j < k then table.changes[j].at + 3 * DAY <= table.changes[k].at
             else table.changes[k].at + 3 * DAY <= table.changes[j].at;
    }
  }

  /** A zone given by a table is regular on some days exactly when its transitions do the readings of those days no harm. */
  lemma TableRegular(table: Table, timeOfDay: int, first: int, last: int)
    requires table.Valid()
    ensures Regular(table.ToZone(), timeOfDay, first, last)
       <==> forall day: int, k ::
              first <= day <= last && 0 <= k < |table.changes| ==> table.Kept(k, Wall(day, timeOfDay))
  {
    forall day: int | first <= day <= last
      ensures Passed(table.ToZone(), Wall(day, timeOfDay))
         <==> forall k :: 0 <= k < |table.changes| ==> table.Kept(k, Wall(day, timeOfDay))
    {
      PassedExactly(table, Wall(day, timeOfDay));
    }
  }

  /** Every fixed offset is regular at every time of day, on all days. */
  lemma FixedOffsetRegular(offset: int, timeOfDay: int, first: int, last: int)
    requires -DAY < offset < DAY
    ensures Regular(Table(offset, []).ToZone(), timeOfDay, first, last)
  {
    TableRegular(Table(offset, []), timeOfDay, first, last);
  }
}
