/**
 Time values and the proleptic Gregorian calendar, as in section 21.4.1 of
 ECMA-262: time values are milliseconds since 1 January 1970 UTC.
 */
module Calendar {
  import Division

  const MS_PER_DAY := 86_400_000
  const MS_PER_HOUR := 3_600_000
  const MS_PER_MINUTE := 60_000

  /** Calendar fields; months count from 1. */
  datatype Civil = Civil(year: int, month: int, day: int, hour: int, minute: int, second: int)

  predicate IsLeap(y: int) {
    IsMultiple(y, 4) && (!IsMultiple(y, 100) || IsMultiple(y, 400))
  }

  function DaysInYear(y: int): int {
    if IsLeap(y) then 366 else 365
  }

  function DayFromYear(y: int): int {
    365 * (y - 1970) + Quotient(y - 1969, 4) - Quotient(y - 1901, 100) + Quotient(y - 1601, 400)
  }

  /** Month lengths of a common or leap year. */
  function MonthLengths(leap: bool): (lengths: seq<nat>)
    ensures |lengths| == 12
  {
    [31, if leap then 29 else 28, 31, 30, 31, 30, 31, 31, 30, 31, 30, 31]
  }

  /** Days before month m, counting months from 0. */
  function DaysBefore(lengths: seq<nat>, m: nat): nat
    requires m <= |lengths|
  {
    if m == 0 then 0 else DaysBefore(lengths, m - 1) + lengths[m - 1]
  }

  function DaysInMonth(year: int, month: int): nat
    requires 1 <= month <= 12
  {
    MonthLengths(IsLeap(year))[month - 1]
  }

  lemma TwelveMonths(leap: bool)
    ensures DaysBefore(MonthLengths(leap), 12) == if leap then 366 else 365
  {
    var lengths := MonthLengths(leap);
    assert DaysBefore(lengths, 1) == 31;
    assert DaysBefore(lengths, 2) == if leap then 60 else 59;
    assert DaysBefore(lengths, 3) == if leap then 91 else 90;
    assert DaysBefore(lengths, 4) == if leap then 121 else 120;
    assert DaysBefore(lengths, 5) == if leap then 152 else 151;
    assert DaysBefore(lengths, 6) == if leap then 182 else 181;
    assert DaysBefore(lengths, 7) == if leap then 213 else 212;
    assert DaysBefore(lengths, 8) == if leap then 244 else 243;
    assert DaysBefore(lengths, 9) == if leap then 274 else 273;
    assert DaysBefore(lengths, 10) == if leap then 305 else 304;
    assert DaysBefore(lengths, 11) == if leap then 335 else 334;
    assert DaysBefore(lengths, 12) == if leap then 366 else 365;
  }

  lemma YearLength(y: int)
    ensures DayFromYear(y + 1) == DayFromYear(y) + DaysInYear(y)
  {
    Every4(y);
    Every100(y);
    Every400(y);
    Centuries(y);
    hide IsMultiple, Quotient;
  }

  predicate IsMultiple(y: int, n: int)
    requires n > 0
  {
    y % n == 0
  }

  function Quotient(a: int, n: int): int
    requires n > 0
  {
    a / n
  }

  lemma Every4(y: int)
    ensures Quotient(y - 1968, 4) == Quotient(y - 1969, 4) + if IsMultiple(y, 4) then 1 else 0
  {
  }

  lemma Every100(y: int)
    ensures Quotient(y - 1900, 100) == Quotient(y - 1901, 100) + if IsMultiple(y, 100) then 1 else 0
  {
  }

  lemma Every400(y: int)
    ensures Quotient(y - 1600, 400) == Quotient(y - 1601, 400) + if IsMultiple(y, 400) then 1 else 0
  {
  }

  lemma Centuries(y: int)
    ensures (IsMultiple(y, 100) ==> IsMultiple(y, 4)) && (IsMultiple(y, 400) ==> IsMultiple(y, 100))
  {
  }

  lemma {:induction false} YearsIncrease(y: int, z: int)
    requires y <= z
    ensures DayFromYear(y) + 365 * (z - y) <= DayFromYear(z)
    decreases z - y
  {
    if y < z {
      YearLength(y);
      YearsIncrease(y + 1, z);
    }
  }

  function YearUp(d: int, y: int): (r: int)
    requires DayFromYear(y) <= d
    ensures DayFromYear(r) <= d < DayFromYear(r + 1)
    decreases d - DayFromYear(y)
  {
    YearLength(y);
    if d < DayFromYear(y + 1) then y else YearUp(d, y + 1)
  }

  function YearDown(d: int, y: int): (r: int)
    requires d < DayFromYear(y)
    ensures DayFromYear(r) <= d < DayFromYear(r + 1)
    decreases DayFromYear(y) - d
  {
    YearLength(y - 1);
    if DayFromYear(y - 1) <= d then y - 1 else YearDown(d, y - 1)
  }

  /** YearFromTime: the year whose first day is the last one not after d. */
  function YearFromDay(d: int): (y: int)
    ensures DayFromYear(y) <= d < DayFromYear(y + 1)
  {
    if DayFromYear(1970) <= d then YearUp(d, 1970) else YearDown(d, 1970)
  }

  lemma YearIsUnique(d: int, y: int)
    requires DayFromYear(y) <= d < DayFromYear(y + 1)
    ensures YearFromDay(d) == y
  {
    hide DayFromYear;
    var z := YearFromDay(d);
    if z < y { YearsIncrease(z + 1, y); }
    if y < z { YearsIncrease(y + 1, z); }
  }

  /** MonthFromTime, counting from 0, for the k-th day of a year: the search starts at month m. */
  function MonthOf(k: int, lengths: seq<nat>, m: nat): (r: nat)
    requires m < |lengths| && DaysBefore(lengths, m) <= k < DaysBefore(lengths, |lengths|)
    ensures r < |lengths| && DaysBefore(lengths, r) <= k < DaysBefore(lengths, r) + lengths[r]
    decreases |lengths| - m
  {
    if k < DaysBefore(lengths, m + 1) then m else MonthOf(k, lengths, m + 1)
  }

  datatype Date = Date(year: int, month: int, day: int)

  function DateOfDay(d: int): Date {
    var y := YearFromDay(d);
    YearLength(y);
    TwelveMonths(IsLeap(y));
    var k, lengths := d - DayFromYear(y), MonthLengths(IsLeap(y));
    var m := MonthOf(k, lengths, 0);
    Date(y, m + 1, k - DaysBefore(lengths, m) + 1)
  }

  function FromTime(t: int): Civil {
    var date := DateOfDay(t / MS_PER_DAY);
    Civil(date.year, date.month, date.day, t / MS_PER_HOUR % 24, t / MS_PER_MINUTE % 60, t / 1000 % 60)
  }

  /** MakeDay: months outside 0..11 and days outside the month overflow into their neighbours. */
  function MakeDay(year: int, month: int, date: int): int {
    var y, m := year + month / 12, month % 12;
    DayFromYear(y) + DaysBefore(MonthLengths(IsLeap(y)), m) + date - 1
  }

  /** Date.UTC: years 0 to 99 mean 1900 to 1999. */
  function DateUtc(c: Civil): int {
    var year := if 0 <= c.year <= 99 then 1900 + c.year else c.year;
    AtTime(MakeDay(year, c.month - 1, c.day), c.hour, c.minute, c.second)
  }

  predicate Valid(c: Civil) {
    && 1 <= c.month <= 12 && 1 <= c.day <= DaysInMonth(c.year, c.month)
    && 0 <= c.hour < 24 && 0 <= c.minute < 60 && 0 <= c.second < 60
  }

  lemma FromTimeIsValid(t: int)
    ensures Valid(FromTime(t)) && FromTime(t).day <= 31
  {
    var date := DateOfDay(t / MS_PER_DAY);
    assert DaysInMonth(date.year, date.month) <= 31;
  }

  function AtTime(day: int, h: int, mi: int, s: int): int {
    day * MS_PER_DAY + h * MS_PER_HOUR + mi * MS_PER_MINUTE + s * 1000
  }

  lemma TimeOfDay(day: int, h: int, mi: int, s: int)
    requires 0 <= h < 24 && 0 <= mi < 60 && 0 <= s < 60
    ensures var t := AtTime(day, h, mi, s);
            t / MS_PER_DAY == day && t / MS_PER_HOUR % 24 == h && t / MS_PER_MINUTE % 60 == mi && t / 1000 % 60 == s
  {
    Division.Unique(MS_PER_DAY, day, AtTime(0, h, mi, s));
    Division.Unique(MS_PER_HOUR, 24 * day + h, AtTime(0, 0, mi, s));
    Division.Unique(24, day, h);
    Division.Unique(MS_PER_MINUTE, 60 * (24 * day + h) + mi, s * 1000);
    Division.Unique(60, 24 * day + h, mi);
    Division.Unique(1000, 60 * (60 * (24 * day + h) + mi) + s, 0);
    Division.Unique(60, 60 * (24 * day + h) + mi, s);
  }

  lemma FieldsAtTime(day: int, h: int, mi: int, s: int)
    requires 0 <= h < 24 && 0 <= mi < 60 && 0 <= s < 60
    ensures var date := DateOfDay(day);
            FromTime(AtTime(day, h, mi, s)) == Civil(date.year, date.month, date.day, h, mi, s)
  {
    TimeOfDay(day, h, mi, s);
  }

  lemma {:induction false} LaterMonth(lengths: seq<nat>, m: nat, n: nat)
    requires m < n <= |lengths|
    ensures DaysBefore(lengths, m) + lengths[m] <= DaysBefore(lengths, n)
  {
    if m + 1 < n {
      LaterMonth(lengths, m, n - 1);
    }
  }

  lemma SameMonth(k: int, lengths: seq<nat>, m: nat, n: nat)
    requires m < |lengths| && DaysBefore(lengths, m) <= k < DaysBefore(lengths, m) + lengths[m]
    requires n < |lengths| && DaysBefore(lengths, n) <= k < DaysBefore(lengths, n) + lengths[n]
    ensures m == n
  {
    hide DaysBefore;
    if m < n { LaterMonth(lengths, m, n); }
    if n < m { LaterMonth(lengths, n, m); }
  }

  lemma MonthIsUnique(k: int, lengths: seq<nat>, m: nat)
    requires m < |lengths| && DaysBefore(lengths, m) <= k < DaysBefore(lengths, m) + lengths[m]
    ensures 0 <= k < DaysBefore(lengths, |lengths|) && MonthOf(k, lengths, 0) == m
  {
    MonthsIncrease(lengths, m + 1, |lengths|);
    SameMonth(k, lengths, m, MonthOf(k, lengths, 0));
  }

  lemma {:induction false} MonthsIncrease(lengths: seq<nat>, a: nat, b: nat)
    requires a <= |lengths| && b <= |lengths|
    ensures a <= b ==> DaysBefore(lengths, a) <= DaysBefore(lengths, b)
    decreases b - a
  {
    if a < b { MonthsIncrease(lengths, a + 1, b); }
  }

  lemma MakeDayInYear(year: int, m: int, day: int)
    requires 0 <= m < 12
    ensures MakeDay(year, m, day) == DayFromYear(year) + DaysBefore(MonthLengths(IsLeap(year)), m) + day - 1
  {
    hide DayFromYear, DaysBefore, MonthLengths;
    assert m / 12 == 0 && m % 12 == m;
  }

  lemma DateOfDayIs(d: int, y: int, m: nat)
    requires DayFromYear(y) <= d < DayFromYear(y + 1)
    requires var lengths := MonthLengths(IsLeap(y));
             m < 12 && DaysBefore(lengths, m) <= d - DayFromYear(y) < DaysBefore(lengths, m) + lengths[m]
    ensures DateOfDay(d) == Date(y, m + 1, d - DayFromYear(y) - DaysBefore(MonthLengths(IsLeap(y)), m) + 1)
  {
    hide DayFromYear, IsLeap, DaysBefore, MonthLengths, MonthOf, YearFromDay;
    YearIsUnique(d, y);
    MonthIsUnique(d - DayFromYear(y), MonthLengths(IsLeap(y)), m);
  }

  lemma DateRoundTrip(year: int, month: int, day: int)
    requires 1 <= month <= 12 && 1 <= day <= DaysInMonth(year, month)
    ensures DateOfDay(MakeDay(year, month - 1, day)) == Date(year, month, day)
  {
    var leap, m := IsLeap(year), month - 1;
    MakeDayInYear(year, m, day);
    MonthsIncrease(MonthLengths(leap), month, 12);
    TwelveMonths(leap);
    YearLength(year);
    DateOfDayIs(MakeDay(year, m, day), year, m);
  }

  /** Reading the fields of a valid date back. */
  lemma FieldsRoundTrip(c: Civil)
    requires Valid(c) && !(0 <= c.year <= 99)
    ensures FromTime(DateUtc(c)) == c
  {
    var d := MakeDay(c.year, c.month - 1, c.day);
    assert DateUtc(c) == AtTime(d, c.hour, c.minute, c.second);
    DateRoundTrip(c.year, c.month, c.day);
    FieldsAtTime(d, c.hour, c.minute, c.second);
  }

  lemma Recompose(t: int)
    requires t % 1000 == 0
    ensures t == t / MS_PER_DAY * MS_PER_DAY + t / MS_PER_HOUR % 24 * MS_PER_HOUR
                 + t / MS_PER_MINUTE % 60 * MS_PER_MINUTE + t / 1000 % 60 * 1000
  {
    Division.Nested(t, 1000, 60, MS_PER_MINUTE);
    Division.Nested(t, MS_PER_MINUTE, 60, MS_PER_HOUR);
    Division.Nested(t, MS_PER_HOUR, 24, MS_PER_DAY);
    var seconds, minutes, hours := t / 1000, t / MS_PER_MINUTE, t / MS_PER_HOUR;
    assert t == 1000 * seconds;
    assert seconds == 60 * minutes + seconds % 60;
    assert minutes == 60 * hours + minutes % 60;
    assert hours == 24 * (t / MS_PER_DAY) + hours % 24;
  }

  lemma DayRoundTrip(d: int)
    ensures var date := DateOfDay(d); MakeDay(date.year, date.month - 1, date.day) == d
  {
    var date := DateOfDay(d);
    MakeDayInYear(date.year, date.month - 1, date.day);
  }

  /** Rebuilding a whole-second time from its fields. */
  lemma TimeRoundTrip(t: int)
    requires t % 1000 == 0 && FromTime(t).year >= 100
    ensures DateUtc(FromTime(t)) == t
  {
    Recompose(t);
    DayRoundTrip(t / MS_PER_DAY);
  }

  lemma LaterTimesLaterYears(t: int, y: int)
    requires t >= DayFromYear(y) * MS_PER_DAY
    ensures FromTime(t).year >= y
  {
    var z := YearFromDay(t / MS_PER_DAY);
    if z < y { YearsIncrease(z + 1, y); }
  }

  // ---------------------------------------------------------------------
  // Absolute dates: the epoch, and each day's successor.
  // ---------------------------------------------------------------------

  /** Time 0 is the beginning of 1970. */
  lemma Epoch()
    ensures FromTime(0) == Civil(1970, 1, 1, 0, 0, 0) && DateUtc(Civil(1970, 1, 1, 0, 0, 0)) == 0
  {
    FirstOfJanuary(1970);
    DayZero();
    hide DateOfDay, DayFromYear, MakeDay, FromTime, DateUtc;
    ClockFields(0, 0, 0, 0, 0);
    DateUtcIs(Civil(1970, 1, 1, 0, 0, 0), 0);
  }

  lemma DayZero()
    ensures DayFromYear(1970) == 0
  {
  }

  /** Day d + 1 is the calendar day after day d. With Epoch this fixes the date of every day. */
  lemma NextDay(d: int)
    ensures var a, b := DateOfDay(d), DateOfDay(d + 1);
            var leap := a.year % 4 == 0 && (a.year % 100 != 0 || a.year % 400 == 0);
            var last := if a.month in {4, 6, 9, 11} then 30 else if a.month == 2 then (if leap then 29 else 28) else 31;
            && 1 <= a.month <= 12 && 1 <= a.day <= last
            && b == if a.day < last then Date(a.year, a.month, a.day + 1)
                    else if a.month < 12 then Date(a.year, a.month + 1, 1)
                    else Date(a.year + 1, 1, 1)
  {
    StepDay(d);
    MonthLengthsAre(DateOfDay(d).year, DateOfDay(d).month);
    hide DateOfDay, MonthLengths, IsLeap;
  }

  lemma StepDay(d: int)
    ensures var a, b := DateOfDay(d), DateOfDay(d + 1);
            && 1 <= a.month <= 12
            && var last := MonthLengths(IsLeap(a.year))[a.month - 1];
               && 1 <= a.day <= last
               && b == if a.day < last then Date(a.year, a.month, a.day + 1)
                       else if a.month < 12 then Date(a.year, a.month + 1, 1)
                       else Date(a.year + 1, 1, 1)
  {
    var a := DateOfDay(d);
    DayWithinMonth(d);
    hide DateOfDay, DayFromYear, DaysBefore, MonthLengths, IsLeap;
    if a.day < MonthLengths(IsLeap(a.year))[a.month - 1] {
      DayOfMonth(a.year, a.month - 1, a.day + 1);
    } else if a.month < 12 {
      FirstOfMonth(a.year, a.month);
    } else {
      EndOfYear(a.year);
      FirstOfJanuary(a.year + 1);
    }
  }

  /** Counting months from 0. */
  lemma DayOfMonth(y: int, m: nat, day: int)
    requires m < 12 && 1 <= day <= MonthLengths(IsLeap(y))[m]
    ensures DateOfDay(DayFromYear(y) + DaysBefore(MonthLengths(IsLeap(y)), m) + day - 1) == Date(y, m + 1, day)
  {
    hide DayFromYear, DaysBefore, MonthLengths, IsLeap, DateOfDay;
    MonthFits(y, m);
    DateOfDayIs(DayFromYear(y) + DaysBefore(MonthLengths(IsLeap(y)), m) + day - 1, y, m);
  }

  lemma MonthFits(y: int, m: nat)
    requires m < 12
    ensures var lengths := MonthLengths(IsLeap(y));
            DayFromYear(y) + DaysBefore(lengths, m) + lengths[m] <= DayFromYear(y + 1)
  {
    var lengths := MonthLengths(IsLeap(y));
    hide DayFromYear, DaysBefore, MonthLengths;
    YearLength(y);
    TwelveMonths(IsLeap(y));
    LaterMonth(lengths, m, 12);
  }

  lemma FirstOfMonth(y: int, m: nat)
    requires 1 <= m < 12
    ensures var lengths := MonthLengths(IsLeap(y));
            DateOfDay(DayFromYear(y) + DaysBefore(lengths, m - 1) + lengths[m - 1]) == Date(y, m + 1, 1)
  {
    hide DayFromYear, IsLeap, DateOfDay;
    NextMonthBegins(MonthLengths(IsLeap(y)), m);
    hide DaysBefore, MonthLengths;
    DayOfMonth(y, m, 1);
  }

  lemma NextMonthBegins(lengths: seq<nat>, m: nat)
    requires 1 <= m < |lengths|
    ensures DaysBefore(lengths, m) == DaysBefore(lengths, m - 1) + lengths[m - 1]
  {
  }

  lemma EndOfYear(y: int)
    ensures var lengths := MonthLengths(IsLeap(y));
            DayFromYear(y) + DaysBefore(lengths, 11) + lengths[11] == DayFromYear(y + 1)
  {
    var lengths := MonthLengths(IsLeap(y));
    YearLength(y);
    TwelveMonths(IsLeap(y));
    assert DaysBefore(lengths, 12) == DaysBefore(lengths, 11) + lengths[11];
    hide DayFromYear, DaysBefore, MonthLengths;
  }

  lemma DayWithinMonth(d: int)
    ensures var a := DateOfDay(d);
            && 1 <= a.month <= 12 && DayFromYear(a.year) <= d < DayFromYear(a.year + 1)
            && var lengths := MonthLengths(IsLeap(a.year));
               && 1 <= a.day <= lengths[a.month - 1] && |lengths| == 12
               && (forall i :: 0 <= i < 12 ==> lengths[i] >= 28)
               && d == DayFromYear(a.year) + DaysBefore(lengths, a.month - 1) + a.day - 1
  {
    hide DayFromYear, DaysBefore;
  }

  lemma MonthLengthsAre(year: int, month: int)
    requires 1 <= month <= 12
    ensures var leap := year % 4 == 0 && (year % 100 != 0 || year % 400 == 0);
            IsLeap(year) == leap
            && MonthLengths(leap)[month - 1]
               == if month in {4, 6, 9, 11} then 30 else if month == 2 then (if leap then 29 else 28) else 31
  {
  }

  lemma FirstOfJanuary(year: int)
    ensures DateOfDay(DayFromYear(year)) == Date(year, 1, 1)
  {
    var lengths := MonthLengths(IsLeap(year));
    YearLength(year);
    assert DaysBefore(lengths, 0) == 0;
    hide DayFromYear;
    DateOfDayIs(DayFromYear(year), year, 0);
  }

  lemma TimeOfDayWithMs(d: int, h: int, mi: int, s: int, ms: int)
    requires 0 <= h < 24 && 0 <= mi < 60 && 0 <= s < 60 && 0 <= ms < 1000
    ensures var t := 86_400_000 * d + 3_600_000 * h + 60_000 * mi + 1000 * s + ms;
            && t / 86_400_000 == d && t / 3_600_000 % 24 == h && t / 60_000 % 60 == mi && t / 1000 % 60 == s
  {
    var seconds := 86_400 * d + 3600 * h + 60 * mi + s;
    TimeOfDay(d, h, mi, s);
    Division.Unique(1000, seconds, ms);
    Division.Unique(1000, seconds, 0);
    Division.Nested(1000 * seconds + ms, 1000, 60, 60_000);
    Division.Nested(1000 * seconds, 1000, 60, 60_000);
    Division.Nested(1000 * seconds + ms, 1000, 3600, 3_600_000);
    Division.Nested(1000 * seconds, 1000, 3600, 3_600_000);
    Division.Nested(1000 * seconds + ms, 1000, 86_400, 86_400_000);
    Division.Nested(1000 * seconds, 1000, 86_400, 86_400_000);
  }

  /** The fields of every instant: its day's date and its time of day, in milliseconds. */
  lemma ClockFields(d: int, h: int, mi: int, s: int, ms: int)
    requires 0 <= h < 24 && 0 <= mi < 60 && 0 <= s < 60 && 0 <= ms < 1000
    ensures var date := DateOfDay(d);
            FromTime(86_400_000 * d + 3_600_000 * h + 60_000 * mi + 1000 * s + ms) == Civil(date.year, date.month, date.day, h, mi, s)
  {
    hide DateOfDay;
    TimeOfDayWithMs(d, h, mi, s, ms);
  }

  /** Date.UTC of a calendar time is its day and its time of day. */
  lemma DateUtcIs(c: Civil, d: int)
    requires Valid(c) && !(0 <= c.year <= 99)
    ensures DateOfDay(d) == Date(c.year, c.month, c.day) <==>
            DateUtc(c) == 86_400_000 * d + 3_600_000 * c.hour + 60_000 * c.minute + 1000 * c.second
  {
    hide MakeDay, DateOfDay, DaysInMonth;
    DateRoundTrip(c.year, c.month, c.day);
    DayRoundTrip(d);
    assert DateUtc(c) == AtTime(MakeDay(c.year, c.month - 1, c.day), c.hour, c.minute, c.second);
  }

  /** Months and days outside their range count on into the neighbouring years and months. */
  lemma Overflow(year: int, month: int, date: int)
    ensures MakeDay(year, month + 12, date) == MakeDay(year + 1, month, date)
    ensures MakeDay(year, month, date + 1) == MakeDay(year, month, date) + 1
  {
    hide DayFromYear, DaysBefore, MonthLengths, IsLeap;
    assert (month + 12) / 12 == month / 12 + 1 && (month + 12) % 12 == month % 12;
  }

  /** Date.UTC reads the years 0 to 99 as those of the twentieth century. */
  lemma TwoDigitYears(c: Civil)
    requires 0 <= c.year <= 99
    ensures DateUtc(c) == DateUtc(c.(year := 1900 + c.year))
  {
  }
}
