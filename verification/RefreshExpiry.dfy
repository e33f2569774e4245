/**
 `calculateRefreshExpiry` (server/src/auth/auth.service.ts): the Unix second of the tenant's
 next 04:00, or of the 04:00 after that when the local hour is already 03 or later.

 The tenant's zone is a fixed offset of whole minutes. Local calendar fields come from the
 proleptic Gregorian calendar of ECMAScript's Date; Intl's formatter is an oracle that prints
 those fields and, as `longOffset`, the offset.
 */
module RefreshExpiry {
  import opened Characters

  const MS_PER_MINUTE: int := 60000
  const MS_PER_HOUR: int := 3600000
  const MS_PER_DAY: int := 86400000

  // ---------------------------------------------------------------- the calendar

  predicate IsLeap(y: int) {
    y % 4 == 0 && (y % 100 != 0 || y % 400 == 0)
  }

  function DaysInYear(y: int): int {
    if IsLeap(y) then 366 else 365
  }

  /** Days from 1970-01-01 to the first of January of year y (section 21.4.1.3 of ECMA-262). */
  function DayFromYear(y: int): int {
    365 * (y - 1970) + (y - 1969) / 4 - (y - 1901) / 100 + (y - 1601) / 400
  }

  /** Days of year y before month m, January being 0. */
  function DaysBefore(y: int, m: int): int
    requires 0 <= m <= 12
  {
    [0, 31, 59, 90, 120, 151, 181, 212, 243, 273, 304, 334, 365][m] + (if m >= 2 && IsLeap(y) then 1 else 0)
  }

  /** A calendar date as the formatter's parts name it, months counted from 0. */
  datatype Date = Date(year: int, month: int, day: int) {
    predicate Valid() {
      0 <= month < 12 && 1 <= day <= DaysBefore(year, month + 1) - DaysBefore(year, month)
    }
  }

  /** ECMAScript's MakeDay: the day may lie outside its month and then carries over. */
  function MakeDay(year: int, month: int, day: int): int
    requires 0 <= month < 12
  {
    DayFromYear(year) + DaysBefore(year, month) + day - 1
  }

  /** Date.UTC at a full hour: the day number times a day, with the two-digit-year rule. */
  function DateUtc(year: int, month: int, day: int, hour: int): int
    requires 0 <= month < 12
  {
    MakeDay(if 0 <= year <= 99 then 1900 + year else year, month, day) * MS_PER_DAY + hour * MS_PER_HOUR
  }

  lemma YearLength(y: int)
    ensures DayFromYear(y + 1) == DayFromYear(y) + DaysInYear(y)
  {
    EveryFourth(y);
    EveryHundredth(y);
    EveryFourHundredth(y);
    Centuries(y);
  }

  lemma Centuries(y: int)
    ensures (y % 100 == 0 ==> y % 4 == 0) && (y % 400 == 0 ==> y % 100 == 0)
  {
    if y % 100 == 0 {
      TimesFour(y, 25 * (y / 100));
    }
    if y % 400 == 0 {
      TimesHundred(y, 4 * (y / 400));
    }
  }

  lemma TimesFour(y: int, q: int)
    requires y == 4 * q
    ensures y % 4 == 0
  {
  }

  lemma TimesHundred(y: int, q: int)
    requires y == 100 * q
    ensures y % 100 == 0
  {
  }

  lemma EveryFourth(y: int)
    ensures (y - 1968) / 4 == (y - 1969) / 4 + (if y % 4 == 0 then 1 else 0)
  {
  }

  lemma EveryHundredth(y: int)
    ensures (y - 1900) / 100 == (y - 1901) / 100 + (if y % 100 == 0 then 1 else 0)
  {
  }

  lemma EveryFourHundredth(y: int)
    ensures (y - 1600) / 400 == (y - 1601) / 400 + (if y % 400 == 0 then 1 else 0)
  {
  }

  function YearAfter(n: int, y: int): (year: int)
    requires DayFromYear(y) <= n
    ensures DayFromYear(year) <= n < DayFromYear(year + 1)
    decreases n - DayFromYear(y)
  {
    YearLength(y);
    if n < DayFromYear(y + 1) then y else YearAfter(n, y + 1)
  }

  function YearBefore(n: int, y: int): (year: int)
    requires n < DayFromYear(y + 1)
    ensures DayFromYear(year) <= n < DayFromYear(year + 1)
    decreases DayFromYear(y + 1) - n
  {
    YearLength(y);
    if n < DayFromYear(y) then YearBefore(n, y - 1) else y
  }

  /** YearFromTime: the year that day n lies in. */
  function YearOf(n: int): (year: int)
    ensures DayFromYear(year) <= n < DayFromYear(year + 1)
  {
    if n >= DayFromYear(1970) then YearAfter(n, 1970) else YearBefore(n, 1969)
  }

  function MonthFrom(y: int, dayOfYear: int, m: int): (month: int)
    requires 0 <= m < 12 && DaysBefore(y, m) <= dayOfYear < DaysInYear(y)
    ensures m <= month < 12 && DaysBefore(y, month) <= dayOfYear < DaysBefore(y, month + 1)
    decreases 12 - m
  {
    if dayOfYear < DaysBefore(y, m + 1) then m else MonthFrom(y, dayOfYear, m + 1)
  }

  /** The calendar date of day n since 1970-01-01. */
  function DateOf(n: int): (d: Date)
    ensures d.Valid() && MakeDay(d.year, d.month, d.day) == n
  {
    var y := YearOf(n);
    YearLength(y);
    var m := MonthFrom(y, n - DayFromYear(y), 0);
    Date(y, m, n - DayFromYear(y) - DaysBefore(y, m) + 1)
  }

  lemma {:induction false} YearsIncrease(y: int, z: int)
    requires y <= z
    ensures DayFromYear(y) <= DayFromYear(z)
    decreases z - y
  {
    if y < z {
      YearLength(y);
      YearsIncrease(y + 1, z);
    }
  }

  lemma YearIsUnique(n: int, y: int, z: int)
    requires DayFromYear(y) <= n < DayFromYear(y + 1) && DayFromYear(z) <= n < DayFromYear(z + 1)
    ensures y == z
  {
    if y < z {
      YearsIncrease(y + 1, z);
    } else if z < y {
      YearsIncrease(z + 1, y);
    }
  }

  lemma MonthsIncrease(y: int, m: int, n: int)
    requires 0 <= m <= n <= 12
    ensures DaysBefore(y, m) <= DaysBefore(y, n)
  {
  }

  lemma MonthIsUnique(y: int, dayOfYear: int, m: int, n: int)
    requires 0 <= m < 12 && DaysBefore(y, m) <= dayOfYear < DaysBefore(y, m + 1)
    requires 0 <= n < 12 && DaysBefore(y, n) <= dayOfYear < DaysBefore(y, n + 1)
    ensures m == n
  {
    if m < n {
      MonthsIncrease(y, m + 1, n);
    } else if n < m {
      MonthsIncrease(y, n + 1, m);
    }
  }

  lemma ValidDateInYear(d: Date)
    requires d.Valid()
    ensures DayFromYear(d.year) <= MakeDay(d.year, d.month, d.day) < DayFromYear(d.year + 1)
  {
    YearLength(d.year);
    MonthsIncrease(d.year, 0, d.month);
    MonthsIncrease(d.year, d.month + 1, 12);
  }

  /** The calendar is one: a day number has exactly one valid date, so the formatter's parts can
      be no other than DateOf's. */
  lemma DateIsUnique(d: Date)
    requires d.Valid()
    ensures DateOf(MakeDay(d.year, d.month, d.day)) == d
  {
    hide DayFromYear;
    hide DaysBefore;
    hide DateOf;
    var n := MakeDay(d.year, d.month, d.day);
    var e := DateOf(n);
    ValidDateInYear(d);
    ValidDateInYear(e);
    YearIsUnique(n, d.year, e.year);
    MonthIsUnique(d.year, n - DayFromYear(d.year), d.month, e.month);
  }

  lemma KnownYears()
    ensures DayFromYear(1900) == -25567 && DayFromYear(1970) == 0
    ensures DayFromYear(2000) == 10957 && DayFromYear(2023) == 19358
  {
  }

  /** Days of the Gregorian calendar, with a century that has no leap day and one that has. */
  lemma KnownDays()
    ensures MakeDay(1970, 0, 1) == 0
    ensures MakeDay(1900, 2, 1) == MakeDay(1900, 1, 28) + 1
    ensures MakeDay(2000, 2, 1) == MakeDay(2000, 1, 28) + 2 == 11017
    ensures MakeDay(2023, 10, 14) == 19675
  {
    hide DayFromYear;
    KnownYears();
  }

  // ---------------------------------------------------------------- the printed offset

  function TwoDigits(n: int): string
    requires 0 <= n < 100
  {
    [Digit(n / 10), Digit(n % 10)]
  }

  function Abs(n: int): int {
    if n < 0 then -n else n
  }

  /** Intl's `longOffset`: "GMT" alone for zero, else sign, hours and minutes. */
  function LongOffset(minutes: int): string
    requires -6000 < minutes < 6000
  {
    if minutes == 0 then "GMT"
    else "GMT" + [if minutes < 0 then '-' else '+'] + TwoDigits(Abs(minutes) / 60) + ":" + TwoDigits(Abs(minutes) % 60)
  }

  /** The match of /GMT([+-]\d{2}):?(\d{2})?/ at the start of the text, and the arithmetic on
      its groups: minutes take the sign of the hours, as parseInt read them. */
  function ParsedOffset(text: string): int {
    if |text| >= 6 && text[..3] == "GMT" && text[3] in "+-" && IsDigit(text[4]) && IsDigit(text[5]) then
      var magnitude := 10 * DigitValue(text[4]) + DigitValue(text[5]);
      var hours := if text[3] == '-' then -magnitude else magnitude;
      var rest := if |text| > 6 && text[6] == ':' then text[7..] else text[6..];
      var mins := if |rest| >= 2 && IsDigit(rest[0]) && IsDigit(rest[1])
                  then 10 * DigitValue(rest[0]) + DigitValue(rest[1]) else 0;
      hours * 60 + (if hours < 0 then -mins else mins)
    else 0
  }

  /** Offsets less than an hour west of Greenwich lose their sign with the hours' "-00". */
  predicate LosesSign(minutes: int) {
    -60 < minutes < 0
  }

  lemma PairReadBack(n: int)
    requires 0 <= n < 100
    ensures 10 * DigitValue(Digit(n / 10)) + DigitValue(Digit(n % 10)) == n
    ensures IsDigit(Digit(n / 10)) && IsDigit(Digit(n % 10))
  {
  }

  lemma LongOffsetText(minutes: int)
    requires -6000 < minutes < 6000 && minutes != 0
    ensures var text := LongOffset(minutes);
            && |text| == 9 && text[..3] == "GMT" && text[3] == (if minutes < 0 then '-' else '+')
            && text[4..6] == TwoDigits(Abs(minutes) / 60) && text[6] == ':'
            && text[7..] == TwoDigits(Abs(minutes) % 60)
  {
  }

  lemma OffsetReadBack(minutes: int)
    requires -6000 < minutes < 6000
    ensures ParsedOffset(LongOffset(minutes)) == if LosesSign(minutes) then -minutes else minutes
  {
    if minutes != 0 {
      var text, h, m := LongOffset(minutes), Abs(minutes) / 60, Abs(minutes) % 60;
      LongOffsetText(minutes);
      PairReadBack(h);
      PairReadBack(m);
      assert text[4] == text[4..6][0] && text[5] == text[4..6][1];
      assert Abs(minutes) == 60 * h + m;
    }
  }

  /** What the service takes the zone's offset to be. */
  method ReadOffset(minutes: int) returns (m: int)
    requires -6000 < minutes < 6000
    ensures m == if LosesSign(minutes) then -minutes else minutes
  {
    m := ParsedOffset(LongOffset(minutes));
    OffsetReadBack(minutes);
  }

  // ---------------------------------------------------------------- the expiry

  function LocalMs(ms: int, offset: int): int {
    ms + offset * MS_PER_MINUTE
  }

  predicate IsLocalFour(ms: int, offset: int) {
    LocalMs(ms, offset) % MS_PER_DAY == 4 * MS_PER_HOUR
  }

  /** The local 04:00 more than one and at most 25 hours ahead. */
  predicate IsNextFour(expMs: int, nowMs: int, offset: int) {
    IsLocalFour(expMs, offset) && MS_PER_HOUR < expMs - nowMs <= 25 * MS_PER_HOUR
  }

  lemma TimeOfDay(ms: int, day: int, time: int)
    requires 0 <= time < MS_PER_DAY && ms == day * MS_PER_DAY + time
    ensures ms / MS_PER_DAY == day && ms % MS_PER_DAY == time
  {
  }

  lemma NextFourIsUnique(a: int, b: int, nowMs: int, offset: int)
    requires IsNextFour(a, nowMs, offset) && IsNextFour(b, nowMs, offset)
    ensures a == b
  {
    var x, y := LocalMs(a, offset), LocalMs(b, offset);
    assert x == x / MS_PER_DAY * MS_PER_DAY + 4 * MS_PER_HOUR;
    assert y == y / MS_PER_DAY * MS_PER_DAY + 4 * MS_PER_HOUR;
  }

  /** The local day on whose 04:00 the token ends. */
  function TargetDay(nowMs: int, offset: int): int {
    var local := LocalMs(nowMs, offset);
    local / MS_PER_DAY + (if local % MS_PER_DAY / MS_PER_HOUR >= 3 then 1 else 0)
  }

  lemma TargetIsNextFour(nowMs: int, offset: int)
    ensures IsNextFour(TargetDay(nowMs, offset) * MS_PER_DAY + 4 * MS_PER_HOUR - offset * MS_PER_MINUTE, nowMs, offset)
  {
    var local := LocalMs(nowMs, offset);
    var target := TargetDay(nowMs, offset) * MS_PER_DAY + 4 * MS_PER_HOUR;
    assert local == local / MS_PER_DAY * MS_PER_DAY + local % MS_PER_DAY;
    assert LocalMs(target - offset * MS_PER_MINUTE, offset) == target;
    assert target % MS_PER_DAY == 4 * MS_PER_HOUR;
  }

  lemma RecentYears(n: int)
    requires n >= -365
    ensures DateOf(n).year >= 1969
  {
    var y := DateOf(n).year;
    if y < 1969 {
      YearsIncrease(y + 1, 1969);
    }
  }

  lemma UtcOfDate(n: int)
    requires n >= -365
    ensures var d, ms := DateOf(n), n * MS_PER_DAY + 4 * MS_PER_HOUR;
            DateUtc(d.year, d.month, d.day, 4) == ms && ms / MS_PER_DAY == n && ms % MS_PER_DAY == 4 * MS_PER_HOUR
  {
    RecentYears(n);
  }

  /** Date.UTC of the calendar fields of day n, at 04:00. */
  method FourOn(n: int) returns (ms: int)
    requires n >= -365
    ensures ms == n * MS_PER_DAY + 4 * MS_PER_HOUR
  {
    var d := DateOf(n);
    UtcOfDate(n);
    ms := DateUtc(d.year, d.month, d.day, 4);
  }

  /** Date.setUTCDate(getUTCDate() + 1), which carries over into the next month and year. */
  method OneDayLater(ms: int) returns (later: int)
    ensures later == ms + MS_PER_DAY
  {
    var d := DateOf(ms / MS_PER_DAY);
    var day := MakeDay(d.year, d.month, d.day + 1);
    assert day == MakeDay(d.year, d.month, d.day) + 1;
    later := day * MS_PER_DAY + ms % MS_PER_DAY;
  }

  lemma EndsEarly(day: int, offset: int)
    requires LosesSign(offset)
    ensures !IsLocalFour(day * MS_PER_DAY + 4 * MS_PER_HOUR + offset * MS_PER_MINUTE, offset)
  {
    var shift := 4 * MS_PER_HOUR + 2 * offset * MS_PER_MINUTE;
    TimeOfDay(day * MS_PER_DAY + shift, day, shift);
  }

  /** calculateRefreshExpiry at the clock reading `nowMs` in a zone `offset` minutes east: the
      next local 04:00, except that a zone which loses its sign ends early by twice its offset. */
  method CalculateRefreshExpiry(nowMs: int, offset: int) returns (exp: int)
    requires nowMs >= 0 && -6000 < offset < 6000
    ensures IsNextFour(exp * 1000 - (if LosesSign(offset) then 2 * offset * MS_PER_MINUTE else 0), nowMs, offset)
    ensures IsNextFour(exp * 1000, nowMs, offset) <==> !LosesSign(offset)
  {
    var local := LocalMs(nowMs, offset);
    var today, hour := local / MS_PER_DAY, local % MS_PER_DAY / MS_PER_HOUR;
    var targetDate := FourOn(today);
    if hour >= 3 {
      targetDate := OneDayLater(targetDate);
    }
    var targetMs := FourOn(targetDate / MS_PER_DAY);
    assert targetMs == TargetDay(nowMs, offset) * MS_PER_DAY + 4 * MS_PER_HOUR;
    var offsetMinutes := ReadOffset(offset);
    targetMs := targetMs - offsetMinutes * 60 * 1000;
    exp := targetMs / 1000;
    ExpiryIsNextFour(nowMs, offset, exp);
  }

  /** An input that loses its sign: 2023-11-14 22:13:20 UTC in the zone "-00:30". The token ends
      at 03:30 UTC, which is 03:00 in the zone; the zone's 04:00 is an hour later. */
  lemma HalfHourWest(exp: int)
    requires IsNextFour(exp * 1000 - 2 * -30 * MS_PER_MINUTE, 1700000000 * 1000, -30)
    ensures LongOffset(-30) == "GMT-00:30" && ParsedOffset("GMT-00:30") == 30
    ensures exp == 1700019000 && !IsNextFour(exp * 1000, 1700000000 * 1000, -30)
    ensures IsNextFour((exp + 3600) * 1000, 1700000000 * 1000, -30)
  {
    OffsetReadBack(-30);
    NextFourIsUnique(exp * 1000 - 2 * -30 * MS_PER_MINUTE, 1700022600 * 1000, 1700000000 * 1000, -30);
  }

  lemma WholeSeconds(day: int, applied: int)
    ensures (day * MS_PER_DAY + 4 * MS_PER_HOUR - applied * 60 * 1000) / 1000 * 1000 ==
            day * MS_PER_DAY + 4 * MS_PER_HOUR - applied * MS_PER_MINUTE
  {
    assert day * MS_PER_DAY + 4 * MS_PER_HOUR - applied * 60 * 1000 == 1000 * (day * 86400 + 14400 - applied * 60);
  }

  lemma ExpiryIsNextFour(nowMs: int, offset: int, exp: int)
    requires exp == (TargetDay(nowMs, offset) * MS_PER_DAY + 4 * MS_PER_HOUR -
                     (if LosesSign(offset) then -offset else offset) * 60 * 1000) / 1000
    ensures IsNextFour(exp * 1000 - (if LosesSign(offset) then 2 * offset * MS_PER_MINUTE else 0), nowMs, offset)
    ensures IsNextFour(exp * 1000, nowMs, offset) <==> !LosesSign(offset)
  {
    hide TargetDay;
    hide IsLocalFour;
    var day, applied := TargetDay(nowMs, offset), if LosesSign(offset) then -offset else offset;
    WholeSeconds(day, applied);
    TargetIsNextFour(nowMs, offset);
    if LosesSign(offset) {
      EndsEarly(day, offset);
      assert exp * 1000 == day * MS_PER_DAY + 4 * MS_PER_HOUR + offset * MS_PER_MINUTE;
    } else {
      assert exp * 1000 == day * MS_PER_DAY + 4 * MS_PER_HOUR - offset * MS_PER_MINUTE;
    }
  }
}
