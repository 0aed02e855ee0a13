/**
 The UTC bounds of a Chilean calendar day, in microseconds since the epoch.
 Day d begins when a local clock without offset would read d * DAY.
 */
module ChileDay {
  import opened ChileZone

  const HOUR := 3_600_000_000
  const DAY := 86_400_000_000
  const WINTER := -14_400_000_000
  const SUMMER := -10_800_000_000

  ghost predicate ChileanZone(zone: Zone) {
    TwoValued(zone, HOUR)
  }

  /** A clock with this offset reads midnight at instant t. */
  predicate Midnight(t: int, offset: int) {
    (t + offset) % DAY == 0
  }

  predicate ChangeAt(t: int, zone: Zone) {
    zone(t - 1) != zone(t)
  }

  /** Clocks change only when they are about to read midnight. */
  ghost predicate ChangesAtMidnight(zone: Zone) {
    forall t :: ChangeAt(t, zone) ==> Midnight(t, zone(t - 1))
  }

  /** astimezone(UTC) of a local time with fold = 0 (PEP 495): the first instant that shows it or,
      when none does, the reading by the offset before the change. */
  function ToUtc(local: int, zone: Zone): int {
    if zone(local - SUMMER) == SUMMER then local - SUMMER else local - WINTER
  }

  function Start(day: int, zone: Zone): int {
    ToUtc(day * DAY, zone)
  }

  /** time.max: one microsecond before the next midnight. */
  function End(day: int, zone: Zone): int {
    ToUtc((day + 1) * DAY - 1, zone)
  }

  function LocalDay(t: int, zone: Zone): int {
    (t + zone(t)) / DAY
  }

  /** fold = 0 picks the earliest instant showing the local time, whenever there is one. */
  lemma EarliestReading(local: int, zone: Zone)
    requires ChileanZone(zone)
    ensures var t := ToUtc(local, zone);
            && (t + zone(t) == local <==> exists u :: u + zone(u) == local)
            && forall u :: u + zone(u) == local ==> t <= u
  {
  }

  /** The bounds of consecutive days are apart, unless clocks went forward
      exactly when a winter clock read 23:00. */
  lemma ConsecutiveDaysApart(day: int, zone: Zone)
    requires ChileanZone(zone)
    ensures var change := (day + 1) * DAY - SUMMER;
            End(day, zone) < Start(day + 1, zone) <==> !(zone(change - 1) == WINTER && zone(change) == SUMMER)
  {
  }

  lemma WithinDay(day: int, t: int, offset: int)
    requires day * DAY < t + offset < (day + 1) * DAY
    ensures !Midnight(t, offset)
  {
  }

  lemma OnDay(day: int, x: int)
    ensures x / DAY == day <==> day * DAY <= x < (day + 1) * DAY
  {
  }

  /** The hour in which winter clocks read 23:00 to 24:00, and summer clocks 0:00 to 1:00, has one offset. */
  lemma {:induction false} HourIsConstant(day: int, t: int, zone: Zone)
    requires ChileanZone(zone) && ChangesAtMidnight(zone)
    requires var hour := day * DAY - SUMMER; hour <= t < hour + HOUR
    ensures zone(t) == zone(day * DAY - SUMMER)
    decreases t - day * DAY
  {
    hide Midnight;
    if t > day * DAY - SUMMER {
      HourIsConstant(day, t - 1, zone);
      var offset := zone(t - 1);
      WithinDay(if offset == SUMMER then day else day - 1, t, offset);
      assert !ChangeAt(t, zone);
    }
  }

  /** Only a summer clock can change at this instant. */
  lemma NoForwardChange(day: int, zone: Zone)
    requires ChileanZone(zone) && ChangesAtMidnight(zone)
    requires zone(day * DAY - SUMMER - 1) == WINTER
    ensures zone(day * DAY - SUMMER) == WINTER
  {
    hide Midnight;
    var hour := day * DAY - SUMMER;
    WithinDay(day - 1, hour, WINTER);
    assert !ChangeAt(hour, zone);
  }

  /** The second pass of the last hour of a day on which clocks go back. */
  predicate InSecondPass(day: int, t: int, zone: Zone) {
    var change := (day + 1) * DAY - SUMMER;
    zone(change - 1) == SUMMER && zone(change) == WINTER && change <= t < change + HOUR
  }

  /** Exactly which instants of a day the bounds cover: all but the second pass of a repeated last hour. */
  lemma BoundsAreTheDay(day: int, t: int, zone: Zone)
    requires ChileanZone(zone) && ChangesAtMidnight(zone)
    ensures Start(day, zone) <= t <= End(day, zone) <==> LocalDay(t, zone) == day && !InSecondPass(day, t, zone)
  {
    var first, last := day * DAY - SUMMER, (day + 1) * DAY - SUMMER;
    hide Midnight;
    OnDay(day, t + zone(t));
    if first <= t < first + HOUR { HourIsConstant(day, t, zone); }
    if last <= t < last + HOUR { HourIsConstant(day + 1, t, zone); }
    if zone(last - 1) == WINTER { NoForwardChange(day + 1, zone); }
  }

  /** 15 July 2026, day 20649, in winter: from 04:00 UTC to the last microsecond before 04:00 of the next day. */
  lemma AWinterDay(zone: Zone)
    requires forall t :: zone(t) == -14_400_000_000
    ensures Start(20_649, zone) == 1_784_088_000_000_000 && End(20_649, zone) == 1_784_174_399_999_999
  {
  }

  /** Clocks go back at the end of day 0: its second pass of 23:00 is on day 0 and outside its bounds. */
  lemma ARepeatedHourIsMissed()
    ensures var zone := t => if t < DAY - SUMMER then SUMMER else WINTER;
            var t := DAY - SUMMER;
            && ChileanZone(zone) && ChangesAtMidnight(zone)
            && LocalDay(t, zone) == 0 && !(Start(0, zone) <= t <= End(0, zone))
  {
  }

  /** Instants within the bounds of different days never coincide. */
  lemma DaysApart(d: int, e: int, zone: Zone)
    requires ChileanZone(zone) && ChangesAtMidnight(zone) && d < e
    ensures Start(d, zone) <= End(d, zone) < Start(e, zone) <= End(e, zone)
  {
    NoForwardChangeBetween(d, zone);
    ConsecutiveDaysApart(d, zone);
    assert Start(d + 1, zone) <= Start(e, zone) by {
      if d + 1 < e { assert (d + 2) * DAY <= e * DAY; }
    }
  }

  lemma NoForwardChangeBetween(d: int, zone: Zone)
    requires ChileanZone(zone) && ChangesAtMidnight(zone)
    ensures var change := (d + 1) * DAY - SUMMER; !(zone(change - 1) == WINTER && zone(change) == SUMMER)
  {
    if zone((d + 1) * DAY - SUMMER - 1) == WINTER { NoForwardChange(d + 1, zone); }
  }
}
