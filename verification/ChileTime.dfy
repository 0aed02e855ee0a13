/**
 Conversion between Chilean wall-clock text and UTC instants. The time-zone
 database is an arbitrary function from instants to offsets.
 */
module ChileTime {
  import opened Common
  import opened Calendar
  import opened ChileZone
  import opened Decimal
  import opened Text
  import Division

  const SUMMER := -3 * 3_600_000
  const WINTER := -4 * 3_600_000

  ghost predicate ChileanZone(zone: Zone) {
    TwoValued(zone, MS_PER_HOUR)
  }

  /** Intl writes the years before year 1 by their number in the era before it. */
  function Displayed(c: Civil): Civil {
    c.(year := if c.year <= 0 then 1 - c.year else c.year)
  }

  /** The wall-clock fields Intl shows for an instant. */
  function Shown(t: int, zone: Zone): Civil {
    Displayed(FromTime(t + zone(t)))
  }

  /** InvalidTime is the RangeError of an instant out of range. */
  datatype Conversion = Instant(ms: int) | InvalidText | InvalidTime | NonExistentTime

  // ---------------------------------------------------------------------
  // The text of a wall-clock time.
  // ---------------------------------------------------------------------

  /** The prefix the regular expression asks for; anything may follow it. */
  predicate Matches(v: string) {
    && |v| >= 16
    && IsNumeral(v[..4]) && v[4] == '-' && IsNumeral(v[5..7]) && v[7] == '-' && IsNumeral(v[8..10])
    && v[10] == 'T' && IsNumeral(v[11..13]) && v[13] == ':' && IsNumeral(v[14..16])
  }

  lemma NumeralsHaveNoSeparators(s: string)
    requires IsNumeral(s)
    ensures '-' !in s && ':' !in s && 'T' !in s
  {
  }

  /** The parts the conversion reads: the three of the date and at least two of the time. */
  lemma PartsExist(v: string)
    requires Matches(v)
    ensures var parts := Split(v, 'T');
            && |parts| >= 2
            && Split(parts[0], '-') == [v[..4], v[5..7], v[8..10]]
            && |Split(parts[1], ':')| >= 2 && Split(parts[1], ':')[0] == v[11..13]
            && (|v| == 16 ==> Split(parts[1], ':') == [v[11..13], v[14..16]])
  {
    var day, rest := v[..10], v[11..];
    assert v == day + ['T'] + rest;
    DateParts(v);
    SplitFirst(day, rest, 'T');
    ClockParts(v);
  }

  lemma DateParts(v: string)
    requires Matches(v)
    ensures 'T' !in v[..10] && Split(v[..10], '-') == [v[..4], v[5..7], v[8..10]]
  {
    NumeralsHaveNoSeparators(v[..4]);
    NumeralsHaveNoSeparators(v[5..7]);
    NumeralsHaveNoSeparators(v[8..10]);
    var monthDay := v[5..7] + ['-'] + v[8..10];
    assert v[..10] == v[..4] + ['-'] + monthDay;
    SplitFirst(v[..4], monthDay, '-');
    SplitFirst(v[5..7], v[8..10], '-');
    SplitNothing(v[8..10], '-');
  }

  lemma ClockParts(v: string)
    requires Matches(v)
    ensures var clock := Split(v[11..], 'T')[0];
            && |Split(clock, ':')| >= 2 && Split(clock, ':')[0] == v[11..13]
            && (|v| == 16 ==> Split(clock, ':') == [v[11..13], v[14..16]])
  {
    hide Split;
    NumeralsHaveNoSeparators(v[11..13]);
    NumeralsHaveNoSeparators(v[14..16]);
    assert v[11..] == v[11..13] + [':'] + v[14..16] + v[16..];
    Clock(v[11..13], v[14..16], v[16..]);
  }

  /** A time begins with its hour, and its minutes are the second part unless more follows them. */
  lemma Clock(hour: string, minute: string, more: string)
    requires ':' !in hour && 'T' !in hour && ':' !in minute && 'T' !in minute
    ensures var clock := Split(hour + [':'] + minute + more, 'T')[0];
            && |Split(clock, ':')| >= 2 && Split(clock, ':')[0] == hour
            && (more == "" ==> Split(clock, ':') == [hour, minute])
  {
    hide Split;
    var start := hour + [':'] + minute;
    SplitKeepsStart(start, more, 'T');
    var clock := Split(start + more, 'T')[0];
    var rest := clock[|start|..];
    assert clock == hour + [':'] + (minute + rest);
    SplitFirst(hour, minute + rest, ':');
    SplitNothing(minute, ':');
    if more == "" {
      assert clock == start && minute + rest == minute;
    }
  }

  /** The integer part of Number(text), None for NaN and the infinities. */
  type Numbers = string -> Option<int>

  ghost predicate ReadsDecimals(number: Numbers) {
    forall s :: IsNumeral(s) && |s| <= 15 ==> number(s) == Some(NatValue(s))
  }

  /** The fields given to Date.UTC, None when one is not a number. Seconds default to 0. */
  function Parse(v: string, number: Numbers): Option<Civil>
    requires Matches(v)
  {
    PartsExist(v);
    var parts := Split(v, 'T');
    var day, clock := Split(parts[0], '-'), Split(parts[1], ':');
    var year, month, date := number(day[0]), number(day[1]), number(day[2]);
    var hour, minute := number(clock[0]), number(clock[1]);
    var second := if |clock| > 2 then number(clock[2]) else Some(0);
    if year.None? || month.None? || date.None? || hour.None? || minute.None? || second.None? then None
    else Some(Civil(year.value, month.value, date.value, hour.value, minute.value, second.value))
  }

  predicate InRange(c: Civil) {
    0 <= c.month < 100 && 0 <= c.day < 100 && 0 <= c.hour < 100 && 0 <= c.minute < 100
  }

  function FormatMinute(c: Civil): string
    requires InRange(c)
  {
    IntText(c.year) + "-" + Pad2(c.month) + "-" + Pad2(c.day) + "T" + Pad2(c.hour) + ":" + Pad2(c.minute)
  }

  lemma ShownInRange(t: int, zone: Zone)
    ensures InRange(Shown(t, zone))
  {
    hide FromTime, DaysInMonth;
    FromTimeIsValid(t + zone(t));
  }

  /** isoToChileLocalInput; Intl writes the year unpadded. */
  function IsoToChileLocalInput(t: int, zone: Zone): string {
    ShownInRange(t, zone);
    FormatMinute(Shown(t, zone))
  }

  // ---------------------------------------------------------------------
  // chileLocalToIso.
  // ---------------------------------------------------------------------

  /** Time values lie within this distance of 1970. */
  const MAX_TIME := 8_640_000_000_000_000

  /** The first millisecond of year 100: Date.UTC reads the years 0 to 99 as 1900 to 1999. */
  const YEAR_100 := DayFromYear(100) * MS_PER_DAY

  /** The specification: the winter reading if it shows the time, else the summer reading, else none. */
  function Resolve(desired: int, zone: Zone): Conversion {
    if zone(desired - WINTER) == WINTER then Instant(desired - WINTER)
    else if zone(desired - SUMMER) == SUMMER then Instant(desired - SUMMER)
    else NonExistentTime
  }

  /** What the correction loop returns for any desired time whatsoever. */
  predicate IsConversion(desired: int, zone: Zone, r: Conversion) {
    if desired < YEAR_100 then r == NonExistentTime || r == InvalidTime
    else if desired - WINTER > MAX_TIME then r == InvalidTime
    else r == Resolve(desired, zone)
  }

  /** ... and chileLocalToIso for any text. */
  predicate Converts(v: string, number: Numbers, zone: Zone, r: Conversion) {
    if !Matches(v) then r == InvalidText
    else
      match Parse(v, number)
      case None => r == InvalidTime
      case Some(c) => IsConversion(DateUtc(c), zone, r)
  }

  /** Rebuilding a shown time with Date.UTC gives its own UTC reading. */
  lemma ShownIsExact(t: int)
    requires t % 1000 == 0 && t >= YEAR_100
    ensures DateUtc(Displayed(FromTime(t))) == t
  {
    LaterTimesLaterYears(t, 100);
    TimeRoundTrip(t);
  }

  /** The year Date.UTC takes for c. */
  function ReadYear(c: Civil): int {
    if 0 <= c.year <= 99 then 1900 + c.year else c.year
  }

  /** A date of the calendar, in whatever year, is rebuilt in the year it is read in, give or take a month. */
  lemma RebuiltNearItsYear(c: Civil)
    requires 1 <= c.month <= 12 && 1 <= c.day <= 31 && 0 <= c.hour < 24 && 0 <= c.minute < 60 && 0 <= c.second < 60
    ensures DayFromYear(ReadYear(c)) * MS_PER_DAY <= DateUtc(c) < (DayFromYear(ReadYear(c)) + 397) * MS_PER_DAY
  {
    DayNearItsYear(ReadYear(c), c.month, c.day);
    hide DayFromYear, MakeDay;
  }

  lemma DayNearItsYear(year: int, month: int, day: int)
    requires 1 <= month <= 12 && 1 <= day <= 31
    ensures DayFromYear(year) <= MakeDay(year, month - 1, day) < DayFromYear(year) + 397
  {
    MakeDayInYear(year, month - 1, day);
    MonthsIncrease(MonthLengths(IsLeap(year)), month - 1, 12);
    TwelveMonths(IsLeap(year));
    hide DayFromYear, MonthLengths, DaysBefore, IsLeap, MakeDay;
  }

  /** A rebuilt time is never in the years before 100. Those of the year 99 are rebuilt about 1900 years
      late, and those before 1700 BC in the same year of our era. */
  lemma Rebuilt(t: int)
    ensures var utc := DateUtc(Displayed(FromTime(t)));
            && utc >= YEAR_100
            && (DayFromYear(99) * MS_PER_DAY <= t < YEAR_100 ==>
                  DayFromYear(1999) * MS_PER_DAY <= utc < (DayFromYear(1999) + 397) * MS_PER_DAY)
            && (t < DayFromYear(-1700) * MS_PER_DAY ==> utc >= DayFromYear(1700) * MS_PER_DAY)
  {
    var c := Displayed(FromTime(t));
    FromTimeIsValid(t);
    RebuiltNearItsYear(c);
    YearsIncrease(100, ReadYear(c));
    var d := t / MS_PER_DAY;
    if DayFromYear(99) * MS_PER_DAY <= t < YEAR_100 {
      YearIsUnique(d, 99);
    } else if t < DayFromYear(-1700) * MS_PER_DAY {
      if FromTime(t).year > -1701 { YearsIncrease(-1700, FromTime(t).year); }
      YearsIncrease(1700, ReadYear(c));
    }
  }

  /** Formats a candidate as Chilean time and rebuilds that with Date.UTC. */
  method Reread(candidate: int, zone: Zone) returns (shownUtc: int)
    ensures var t := candidate + zone(candidate);
            && shownUtc >= YEAR_100
            && (t % 1000 == 0 && t >= YEAR_100 ==> shownUtc == t)
            && (DayFromYear(99) * MS_PER_DAY <= t < YEAR_100 ==>
                  DayFromYear(1999) * MS_PER_DAY <= shownUtc < (DayFromYear(1999) + 397) * MS_PER_DAY)
            && (t < DayFromYear(-1700) * MS_PER_DAY ==> shownUtc >= DayFromYear(1700) * MS_PER_DAY)
  {
    hide DayFromYear, FromTime, DateUtc;
    var shown := Shown(candidate, zone);
    shownUtc := DateUtc(shown);
    ghost var t := candidate + zone(candidate);
    Rebuilt(t);
    if t % 1000 == 0 && t >= YEAR_100 {
      ShownIsExact(t);
    }
  }

  /** The loop has left the days around the desired time: a misread year sent it 1900 years back. */
  predicate Astray(desired: int, candidate: int) {
    desired < YEAR_100 + MS_PER_HOUR && -MAX_TIME <= candidate < DayFromYear(-1700) * MS_PER_DAY - MS_PER_HOUR
  }

  /** The correction loop. */
  method Correct(desired: int, zone: Zone) returns (r: Conversion)
    ensures ChileanZone(zone) && desired % 1000 == 0 ==> IsConversion(desired, zone, r)
  {
    hide DateUtc, FromTime;
    if !(-MAX_TIME <= desired <= MAX_TIME) {
      return InvalidTime;
    }
    var candidate := desired + 4 * 60 * 60 * 1000;
    var attempt := 0;
    ghost var normal := ChileanZone(zone) && desired % 1000 == 0 && YEAR_100 <= desired <= MAX_TIME + WINTER;
    while attempt < 3
      invariant 0 <= attempt <= 3
      invariant attempt == 0 ==> candidate == desired - WINTER
      invariant attempt >= 1 ==> desired - WINTER <= MAX_TIME
      invariant normal ==>
                  && (attempt >= 1 ==> zone(desired - WINTER) == SUMMER)
                  && (attempt >= 2 ==> zone(desired - SUMMER) == WINTER)
                  && (candidate == desired - (if attempt % 2 == 0 then WINTER else SUMMER)
                      || (attempt >= 2 && Astray(desired, candidate))
                      || attempt == 3)
    {
      if !(-MAX_TIME <= candidate <= MAX_TIME) {
        return InvalidTime;
      }
      var shownUtc := Reread(candidate, zone);
      var delta := desired - shownUtc;
      if delta == 0 {
        return Instant(candidate);
      }
      candidate := candidate + delta;
      attempt := attempt + 1;
    }
    return NonExistentTime;
  }

  method ChileLocalToIso(v: string, number: Numbers, zone: Zone) returns (r: Conversion)
    ensures ChileanZone(zone) ==> Converts(v, number, zone, r)
  {
    if !Matches(v) {
      return InvalidText;
    }
    var wall := Parse(v, number);
    if wall.None? {
      return InvalidTime;
    }
    WholeSeconds(wall.value);
    r := Correct(DateUtc(wall.value), zone);
  }

  lemma WholeSeconds(c: Civil)
    ensures DateUtc(c) % 1000 == 0
  {
    hide MakeDay;
    var d := MakeDay(ReadYear(c), c.month - 1, c.day);
    var seconds := 86_400 * d + 3600 * c.hour + 60 * c.minute + c.second;
    assert DateUtc(c) == AtTime(d, c.hour, c.minute, c.second) == 1000 * seconds;
    hide DateUtc, AtTime;
    Division.Unique(1000, seconds, 0);
  }

  // ---------------------------------------------------------------------
  // What the result means.
  // ---------------------------------------------------------------------

  /** t shows the wall-clock time whose UTC reading is desired. */
  predicate Shows(t: int, desired: int, zone: Zone) {
    t + zone(t) == desired
  }

  /** Total correctness: from year 100 to the end of time values, conversion returns the latest instant
      that shows the time, and fails with NonExistentTime exactly when no instant does. */
  lemma ConversionIsCorrect(desired: int, zone: Zone, r: Conversion)
    requires ChileanZone(zone) && IsConversion(desired, zone, r)
    ensures r.Instant? <==> YEAR_100 <= desired <= MAX_TIME + WINTER && exists u :: Shows(u, desired, zone)
    ensures r.Instant? ==> Shows(r.ms, desired, zone) && forall u :: Shows(u, desired, zone) ==> u <= r.ms
    ensures YEAR_100 <= desired <= MAX_TIME + WINTER ==> (r.NonExistentTime? <==> forall u :: !Shows(u, desired, zone))
  {
    hide DayFromYear;
    forall u | Shows(u, desired, zone) ensures u == desired - WINTER || u == desired - SUMMER {
      assert zone(u) == WINTER || zone(u) == SUMMER;
    }
    assert Shows(desired - WINTER, desired, zone) <==> zone(desired - WINTER) == WINTER;
    assert Shows(desired - SUMMER, desired, zone) <==> zone(desired - SUMMER) == SUMMER;
  }

  /** The instant a calendar minute converts to, by its day number and the offset in force. */
  lemma ConvertedInstant(v: string, number: Numbers, zone: Zone, t: int, d: int)
    requires |v| == 16 && Matches(v) && ReadsDecimals(number) && Converts(v, number, zone, Instant(t))
    requires Valid(Fields(v)) && Fields(v).year >= 100 && ChileanZone(zone)
    requires DateOfDay(d) == Date(Fields(v).year, Fields(v).month, Fields(v).day)
    ensures zone(t) == -14_400_000 || zone(t) == -10_800_000
    ensures t == 86_400_000 * d + 3_600_000 * Fields(v).hour + 60_000 * Fields(v).minute - zone(t)
  {
    hide Matches, ReadsDecimals, DateOfDay, DateUtc, DayFromYear;
    ParseMinute(v, number);
    DateUtcIs(Fields(v), d);
  }

  /** Year 0 is shown as 1, year -1 as 2, and every year of our era as it is. */
  lemma DisplayedYears(c: Civil)
    ensures Displayed(c).year >= 1 && (c.year >= 1 ==> Displayed(c) == c)
    ensures c.year <= 0 ==> Displayed(c).year + c.year == 1
  {
  }

  /** Time values reach 100 million days to either side of the epoch. */
  lemma TimeRange()
    ensures MAX_TIME == 100_000_000 * 86_400_000
  {
  }

  /** Every calendar time of the years 0 to 9999 lies in that range: it converts exactly when some instant shows it. */
  lemma CalendarTimesConvert(c: Civil, zone: Zone, r: Conversion)
    requires ChileanZone(zone) && Valid(c) && 0 <= c.year <= 9999 && IsConversion(DateUtc(c), zone, r)
    ensures r.Instant? <==> exists u :: Shows(u, DateUtc(c), zone)
    ensures r.Instant? || r == NonExistentTime
  {
    CalendarRange(c);
    ConversionIsCorrect(DateUtc(c), zone, r);
  }

  lemma CalendarRange(c: Civil)
    requires Valid(c) && 0 <= c.year <= 9999
    ensures YEAR_100 <= DateUtc(c) <= MAX_TIME + WINTER
  {
    assert c.day <= 31;
    RebuiltNearItsYear(c);
    YearsIncrease(100, ReadYear(c));
    YearsIncrease(ReadYear(c), 9999);
  }

  /** For a valid date, an instant of our era shows its UTC reading if and only if it shows its fields. */
  lemma ShowsTheFields(c: Civil, t: int, zone: Zone)
    requires Valid(c) && c.year >= 100 && (t + zone(t)) % 1000 == 0 && FromTime(t + zone(t)).year >= 1
    ensures Shows(t, DateUtc(c), zone) <==> Shown(t, zone) == c
  {
    hide FromTime, DateUtc;
    if t + zone(t) == DateUtc(c) {
      FieldsRoundTrip(c);
    } else if Shown(t, zone) == c {
      TimeRoundTrip(t + zone(t));
    }
  }

  // ---------------------------------------------------------------------
  // Round trips.
  // ---------------------------------------------------------------------

  /** The fields of a text that ends with its minutes. */
  function Fields(v: string): Civil
    requires |v| == 16
  {
    Civil(NatValue(v[..4]), NatValue(v[5..7]), NatValue(v[8..10]), NatValue(v[11..13]), NatValue(v[14..16]), 0)
  }

  lemma ParseMinute(v: string, number: Numbers)
    requires |v| == 16 && Matches(v) && ReadsDecimals(number)
    ensures Parse(v, number) == Some(Fields(v))
    ensures InRange(Fields(v)) && 0 <= Fields(v).year <= 9999
  {
    hide NatValue;
    PartsExist(v);
    NumeralRange(v[..4]);
    NumeralRange(v[5..7]);
    NumeralRange(v[8..10]);
    NumeralRange(v[11..13]);
    NumeralRange(v[14..16]);
  }

  /** Some reader of numbers reads decimals and refuses everything else. */
  lemma AReaderOfDecimals()
    ensures ReadsDecimals(s => if IsNumeral(s) && |s| <= 15 then Some(NatValue(s)) else None)
  {
  }

  /** Seconds after the minutes are read as such, and make the text invalid when they are no number. */
  lemma ParseSeconds(v: string, seconds: string, number: Numbers)
    requires |v| == 16 && Matches(v) && ReadsDecimals(number) && ':' !in seconds && 'T' !in seconds
    ensures Matches(v + ":" + seconds)
    ensures Parse(v + ":" + seconds, number) == match number(seconds) case None => None case Some(n) => Some(Fields(v).(second := n))
  {
    hide NatValue, Split;
    ParseMinute(v, number);
    Longer(v, ":" + seconds);
    assert v + ":" + seconds == v + (":" + seconds);
    NumeralsHaveNoSeparators(v[11..13]);
    NumeralsHaveNoSeparators(v[14..16]);
    PartsOfLonger(v, ":" + seconds);
    var minute := v[14..16];
    assert minute + (":" + seconds) == minute + [':'] + seconds;
    SplitFirst(minute, seconds, ':');
    SplitNothing(seconds, ':');
    NumeralRange(v[..4]);
  }

  /** Anything else after the minutes is read with them. */
  lemma ParseTrailing(v: string, more: string, number: Numbers)
    requires |v| == 16 && Matches(v) && ReadsDecimals(number) && ':' !in more && 'T' !in more
    ensures Matches(v + more)
    ensures Parse(v + more, number) == match number(v[14..16] + more) case None => None case Some(n) => Some(Fields(v).(minute := n))
  {
    hide NatValue, Split;
    ParseMinute(v, number);
    Longer(v, more);
    NumeralsHaveNoSeparators(v[11..13]);
    NumeralsHaveNoSeparators(v[14..16]);
    PartsOfLonger(v, more);
    SplitNothing(v[14..16] + more, ':');
  }

  lemma Longer(v: string, more: string)
    requires |v| == 16 && Matches(v)
    ensures var w := v + more;
            && Matches(w) && w[..4] == v[..4] && w[5..7] == v[5..7] && w[8..10] == v[8..10] && w[11..13] == v[11..13] && w[14..16] == v[14..16]
  {
    var w := v + more;
    assert w[..4] == v[..4] && w[5..7] == v[5..7] && w[8..10] == v[8..10] && w[11..13] == v[11..13] && w[14..16] == v[14..16];
  }

  lemma PartsOfLonger(v: string, more: string)
    requires |v| == 16 && Matches(v) && 'T' !in more
    ensures Matches(v + more)
    ensures var parts := Split(v + more, 'T');
            |parts| == 2 && Split(parts[0], '-') == [v[..4], v[5..7], v[8..10]]
            && Split(parts[1], ':') == [v[11..13]] + Split(v[14..16] + more, ':')
  {
    hide Split;
    Longer(v, more);
    DateParts(v);
    NumeralsHaveNoSeparators(v[11..13]);
    NumeralsHaveNoSeparators(v[14..16]);
    var day, clock := v[..10], v[11..13] + [':'] + (v[14..16] + more);
    assert v + more == day + ['T'] + clock;
    SplitFirst(day, clock, 'T');
    SplitNothing(clock, 'T');
    SplitFirst(v[11..13], v[14..16] + more, ':');
  }

  lemma FieldsAreInjective(v: string, w: string)
    requires |v| == |w| == 16 && Matches(v) && Matches(w) && Fields(v) == Fields(w)
    ensures v == w
  {
    hide NatValue;
    NumeralsOfOneLength(v[..4], w[..4]);
    NumeralsOfOneLength(v[5..7], w[5..7]);
    NumeralsOfOneLength(v[8..10], w[8..10]);
    NumeralsOfOneLength(v[11..13], w[11..13]);
    NumeralsOfOneLength(v[14..16], w[14..16]);
    Pieces(v);
    Pieces(w);
  }

  lemma Pieces(v: string)
    requires |v| == 16 && Matches(v)
    ensures v == v[..4] + "-" + v[5..7] + "-" + v[8..10] + "T" + v[11..13] + ":" + v[14..16]
  {
  }

  lemma FieldsOfFormat(c: Civil)
    requires InRange(c) && 1000 <= c.year <= 9999
    ensures var v := FormatMinute(c);
            |v| == 16 && Matches(v) && Fields(v) == c.(second := 0)
  {
    var year, month, day, hour, minute := IntText(c.year), Pad2(c.month), Pad2(c.day), Pad2(c.hour), Pad2(c.minute);
    FourDigits(c.year);
    NatTextValue(c.year);
    assert NatValue(year) == c.year && IsNumeral(year);
    hide IntText, NatText, Pad2, NatValue, IsNumeral;
    Assembled(year, month, day, hour, minute);
  }

  lemma Assembled(year: string, month: string, day: string, hour: string, minute: string)
    requires |year| == 4 && |month| == |day| == |hour| == |minute| == 2
    ensures var v := year + "-" + month + "-" + day + "T" + hour + ":" + minute;
            && |v| == 16
            && v[..4] == year && v[5..7] == month && v[8..10] == day && v[11..13] == hour && v[14..16] == minute
            && v[4] == '-' && v[7] == '-' && v[10] == 'T' && v[13] == ':'
  {
  }

  /** Only four-digit years format to a text of sixteen characters. */
  lemma FormatHasFourDigits(c: Civil)
    requires InRange(c) && |FormatMinute(c)| == 16 && Matches(FormatMinute(c))
    ensures 1000 <= c.year <= 9999
  {
    var v, year := FormatMinute(c), IntText(c.year);
    assert |v| == |year| + 12;
    assert v[0] == year[0] && v[..4][0] == v[0] && IsDigit(v[..4][0]);
    Sign(c.year);
    FourDigits(c.year);
  }

  lemma LateFieldsAreDisplayed(x: int)
    requires x >= YEAR_100
    ensures FromTime(x).year >= 100 && Displayed(FromTime(x)) == FromTime(x)
  {
    hide DayFromYear, FromTime;
    LaterTimesLaterYears(x, 100);
  }

  /** Local text to instant and back: the text returns if and only if it names a date and time
      of the calendar, in a four-digit year. Any other date silently becomes another one. */
  lemma LocalRoundTrip(v: string, number: Numbers, zone: Zone, t: int)
    requires |v| == 16 && Matches(v) && ReadsDecimals(number) && Converts(v, number, zone, Instant(t))
    ensures IsoToChileLocalInput(t, zone) == v <==> Valid(Fields(v)) && Fields(v).year >= 1000
  {
    hide FromTime, DateUtc, DayFromYear, Matches, FormatMinute, ReadsDecimals;
    var c, x := Fields(v), t + zone(t);
    ParseMinute(v, number);
    assert x == DateUtc(c);
    LateFieldsAreDisplayed(x);
    ShownInRange(t, zone);
    var shown := Shown(t, zone);
    if Valid(c) && c.year >= 1000 {
      FieldsRoundTrip(c);
      FieldsOfFormat(c);
      FieldsAreInjective(FormatMinute(c), v);
    } else if FormatMinute(shown) == v {
      FormatHasFourDigits(shown);
      FieldsOfFormat(shown);
      FromTimeIsValid(x);
    }
  }

  /** Instant to local text and back, in the years 1000 to 9999: a whole minute returns unchanged,
      except in the first pass of a repeated hour, where it returns one hour later. */
  lemma InstantRoundTrip(t: int, number: Numbers, zone: Zone)
    requires ChileanZone(zone) && ReadsDecimals(number)
    requires t % MS_PER_MINUTE == 0 && 1000 <= FromTime(t + zone(t)).year <= 9999
    ensures Converts(IsoToChileLocalInput(t, zone), number, zone,
                     Instant(if zone(t) == SUMMER && zone(t + MS_PER_HOUR) == WINTER then t + MS_PER_HOUR else t))
  {
    hide FromTime, DateUtc, DayFromYear, Resolve, FormatMinute, ReadsDecimals, Matches, Parse, InRange;
    var x := t + zone(t);
    OffsetsAreWholeMinutes(t, zone);
    WholeMinute(x);
    ShownInRange(t, zone);
    FieldsOfFormat(Shown(t, zone));
    ParseMinute(IsoToChileLocalInput(t, zone), number);
    TimeRoundTrip(x);
    FromTimeIsValid(x);
    CalendarRange(FromTime(x));
    ResolveBack(t, zone);
  }

  lemma OffsetsAreWholeMinutes(t: int, zone: Zone)
    requires ChileanZone(zone) && t % MS_PER_MINUTE == 0
    ensures (t + zone(t)) % MS_PER_MINUTE == 0
  {
  }

  lemma WholeMinute(x: int)
    requires x % MS_PER_MINUTE == 0
    ensures x % 1000 == 0 && FromTime(x).second == 0
  {
    var m := x / MS_PER_MINUTE;
    assert x == 1000 * (60 * m);
    Division.Unique(1000, 60 * m, 0);
    Division.Unique(60, m, 0);
  }

  lemma ResolveBack(t: int, zone: Zone)
    requires ChileanZone(zone)
    ensures Resolve(t + zone(t), zone)
         == Instant(if zone(t) == SUMMER && zone(t + MS_PER_HOUR) == WINTER then t + MS_PER_HOUR else t)
  {
  }

  /** 31 February is taken for 3 March, in every zone. */
  lemma NonexistentDatesAreAccepted(number: Numbers, zone: Zone, r: Conversion)
    requires ReadsDecimals(number)
    ensures Converts("2026-02-31T10:00", number, zone, r) <==> Converts("2026-03-03T10:00", number, zone, r)
    ensures Converts("2026-02-31T10:00", number, zone, r) ==> r != InvalidText && r != InvalidTime
  {
    hide FromTime, DateUtc, DayFromYear, Parse, ReadsDecimals, FormatMinute;
    var february, march := Civil(2026, 2, 31, 10, 0, 0), Civil(2026, 3, 3, 10, 0, 0);
    FieldsOfFormat(february);
    FieldsOfFormat(march);
    FormattedDates();
    ParseMinute("2026-02-31T10:00", number);
    ParseMinute("2026-03-03T10:00", number);
    OverflowIntoMarch();
    CalendarRange(march);
  }

  /** Noon on 15 July and on 15 January 2026, at the winter and at the summer offset. */
  lemma WinterAndSummerNoon(number: Numbers, zone: Zone, r: Conversion)
    requires ReadsDecimals(number) && ChileanZone(zone)
    requires zone(1_784_131_200_000) == -14_400_000
    requires zone(1_768_489_200_000) == -10_800_000 && zone(1_768_492_800_000) == -10_800_000
    ensures Converts("2026-07-15T12:00", number, zone, r) <==> r == Instant(1_784_131_200_000)
    ensures Converts("2026-01-15T12:00", number, zone, r) <==> r == Instant(1_768_489_200_000)
  {
    hide FromTime, DateUtc, Parse, ReadsDecimals, FormatMinute, DayFromYear;
    var july, january := Civil(2026, 7, 15, 12, 0, 0), Civil(2026, 1, 15, 12, 0, 0);
    FieldsOfFormat(july);
    FieldsOfFormat(january);
    FormattedNoons();
    ParseMinute("2026-07-15T12:00", number);
    ParseMinute("2026-01-15T12:00", number);
    NoonsUtc();
    CalendarRange(july);
    CalendarRange(january);
  }

  lemma FormattedNoons()
    ensures FormatMinute(Civil(2026, 7, 15, 12, 0, 0)) == "2026-07-15T12:00"
    ensures FormatMinute(Civil(2026, 1, 15, 12, 0, 0)) == "2026-01-15T12:00"
  {
    hide IntText;
    Year2026();
    assert Pad2(0) == "00" && Pad2(1) == "01" && Pad2(7) == "07" && Pad2(12) == "12" && Pad2(15) == "15" by { hide NatValue; }
    hide Pad2;
  }

  lemma NoonsUtc()
    ensures DateUtc(Civil(2026, 7, 15, 12, 0, 0)) == 1_784_116_800_000
    ensures DateUtc(Civil(2026, 1, 15, 12, 0, 0)) == 1_768_478_400_000
  {
    MakeDayInYear(2026, 6, 15);
    MakeDayInYear(2026, 0, 15);
    DaysBeforeJuly();
    assert DayFromYear(2026) == 20_454;
    hide DayFromYear, MakeDay;
  }

  lemma DaysBeforeJuly()
    ensures DaysBefore(MonthLengths(IsLeap(2026)), 6) == 181 && DaysBefore(MonthLengths(IsLeap(2026)), 0) == 0
  {
    var lengths := MonthLengths(IsLeap(2026));
    assert DaysBefore(lengths, 2) == 59;
    assert DaysBefore(lengths, 4) == 120;
    assert DaysBefore(lengths, 6) == 181;
  }

  lemma FormattedDates()
    ensures FormatMinute(Civil(2026, 2, 31, 10, 0, 0)) == "2026-02-31T10:00"
    ensures FormatMinute(Civil(2026, 3, 3, 10, 0, 0)) == "2026-03-03T10:00"
  {
    Year2026();
    Pads();
    hide IntText, Pad2;
  }

  lemma Pads()
    ensures Pad2(0) == "00" && Pad2(2) == "02" && Pad2(3) == "03" && Pad2(10) == "10" && Pad2(31) == "31"
  {
    hide NatValue;
  }

  lemma Year2026()
    ensures IntText(2026) == "2026"
  {
    assert NatText(20) == "20";
    assert NatText(202) == NatText(20) + "2";
    assert NatText(2026) == NatText(202) + "6";
  }

  lemma OverflowIntoMarch()
    ensures DateUtc(Civil(2026, 2, 31, 10, 0, 0)) == DateUtc(Civil(2026, 3, 3, 10, 0, 0))
  {
    MakeDayInYear(2026, 1, 31);
    MakeDayInYear(2026, 2, 3);
    var lengths := MonthLengths(IsLeap(2026));
    assert DaysBefore(lengths, 2) == DaysBefore(lengths, 1) + lengths[1];
  }
}
