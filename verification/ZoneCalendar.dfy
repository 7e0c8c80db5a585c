/** The daylight-saving rules by the calendar alone: which days they turn on,
    and at which clock time. */
module ZoneCalendar {
  import opened Wrappers
  import opened Arithmetic
  import opened Text
  import opened Civil
  import opened Temporal
  import opened TimeZone

  /** Day 3 is Sunday 1970-01-04, and Sundays come every seven days. */
  predicate IsSunday(days: int) {
    (days - 3) % 7 == 0
  }

  lemma WeekdayZeroIsSunday(days: int)
    ensures Weekday(days) == 0 <==> IsSunday(days)
    ensures 0 <= Weekday(days) < 7 && IsSunday(days - Weekday(days))
  {
    Quotient(days + 4, 7, (days - 3) / 7 + 1, (days - 3) % 7);
    Quotient(days - Weekday(days) - 3, 7, (days - 3) / 7, 0);
  }

  /** A Sunday of a month, with its day of the month and day count. */
  predicate SundayOn(year: int, month: nat, day: nat, days: int) {
    DaysFromCivil(year, month, day) == Some(days) && IsSunday(days)
  }

  /** Two Sundays of a month less than a week apart are one. */
  lemma OneSunday(year: int, month: nat, a: nat, b: nat, m: int, n: int)
    requires SundayOn(year, month, a, m) && SundayOn(year, month, b, n) && -7 < a - b < 7
    ensures a == b && m == n
  {
    SameMonth(year, month, b, a);
    assert m - n == a - b;
    assert m - n == 7 * ((m - 3) / 7 - (n - 3) / 7);
    NoMultiple((m - 3) / 7 - (n - 3) / 7, 7);
  }

  /** Every seven days in a row of a month have one Sunday. */
  lemma SundayIn(year: int, month: nat, from: nat) returns (day: nat, days: int)
    requires MIN_YEAR <= year <= MAX_YEAR && 1 <= month <= 12
    requires 1 <= from && from + 6 <= DaysInMonth(year, month).value
    ensures from <= day < from + 7 && SundayOn(year, month, day, days)
    ensures forall d, c | from <= d < from + 7 && SundayOn(year, month, d, c) :: d == day && c == days
  {
    hide DayNumber;
    var last := DayNumber(year, month, from + 6);
    WeekdayZeroIsSunday(last);
    day, days := from + 6 - Weekday(last), last - Weekday(last);
    SameMonth(year, month, from + 6, day);
    assert DaysFromCivil(year, month, day) == Some(days);
    hide Weekday;
    hide DaysFromCivil;
    forall d, c | from <= d < from + 7 && SundayOn(year, month, d, c) ensures d == day && c == days {
      OneSunday(year, month, d, day, c, days);
    }
  }

  lemma NthSundayOn(year: int, month: nat, n: nat, day: nat, days: int)
    requires MIN_YEAR <= year <= MAX_YEAR && 1 <= month <= 12 && 1 <= n <= 4
    requires 7 * (n - 1) < day <= 7 * n && SundayOn(year, month, day, days)
    ensures NthSunday(year, month, n) == Some(day)
  {
    hide DaysFromCivil;
    hide Weekday;
    NthSundayIs(year, month, n);
    var found := NthSunday(year, month, n).value;
    var count := DaysFromCivil(year, month, found).value;
    WeekdayZeroIsSunday(count);
    OneSunday(year, month, day, found, days, count);
  }

  lemma LastSundayOn(year: int, month: nat, day: nat, days: int)
    requires MIN_YEAR <= year <= MAX_YEAR && 1 <= month <= 12
    requires DaysInMonth(year, month).value - 7 < day <= DaysInMonth(year, month).value
    requires SundayOn(year, month, day, days)
    ensures LastSunday(year, month) == Some(day)
  {
    hide DaysFromCivil;
    hide Weekday;
    LastSundayIs(year, month);
    var found := LastSunday(year, month).value;
    var count := DaysFromCivil(year, month, found).value;
    WeekdayZeroIsSunday(count);
    OneSunday(year, month, day, found, days, count);
  }

  /** An instant of a year of the range. */
  predicate InYearOf(timestamp: int, year: int) {
    MIN_TIMESTAMP <= timestamp <= MAX_TIMESTAMP && CivilFromDays(timestamp / DAY_MS).year == year
  }

  /** The clock of a zone without and with daylight saving. */
  function StandardClock(zone: Zone, timestamp: int): int {
    timestamp + zone.baseOffset * 1_000
  }

  function SummerClock(zone: Zone, timestamp: int): int {
    timestamp + (zone.baseOffset + 3_600) * 1_000
  }

  lemma YearInRange(timestamp: int, year: int)
    requires InYearOf(timestamp, year)
    ensures MIN_YEAR <= year <= MAX_YEAR && YearOf(timestamp) == year
  {
    hide CivilFromDays;
    DayRoundTrip(timestamp / DAY_MS);
  }

  /** In the United States and Canada daylight saving runs from 02:00 standard
      time on the Sunday of March 8 to 14 to 02:00 summer time on the Sunday of
      November 1 to 7. */
  lemma UsCanadaByCalendar(zone: Zone, timestamp: int, year: int, s: nat, first: int, e: nat, last: int)
    requires zone.Known() && zone.rule == UsCanada && InYearOf(timestamp, year)
    requires 8 <= s <= 14 && SundayOn(year, 3, s, first)
    requires 1 <= e <= 7 && SundayOn(year, 11, e, last)
    ensures IsDstActive(zone, timestamp) <==>
              && first * DAY_MS + 7_200_000 <= StandardClock(zone, timestamp)
              && SummerClock(zone, timestamp) < last * DAY_MS + 7_200_000
  {
    YearInRange(timestamp, year);
    NthSundayOn(year, 3, 2, s, first);
    NthSundayOn(year, 11, 1, e, last);
    SplitIsExact(timestamp);
    hide NthSunday;
    hide DaysFromCivil;
    hide CivilFromDays;
  }

  /** In Europe it runs from 01:00 UTC on the Sunday of March 25 to 31 to 01:00 UTC
      on the Sunday of October 25 to 31. */
  lemma EuUkByCalendar(zone: Zone, timestamp: int, year: int, s: nat, first: int, e: nat, last: int)
    requires zone.Known() && zone.rule == EuUk && InYearOf(timestamp, year)
    requires 25 <= s <= 31 && SundayOn(year, 3, s, first)
    requires 25 <= e <= 31 && SundayOn(year, 10, e, last)
    ensures IsDstActive(zone, timestamp) <==> first * DAY_MS + 3_600_000 <= timestamp < last * DAY_MS + 3_600_000
  {
    YearInRange(timestamp, year);
    LastSundayOn(year, 3, s, first);
    LastSundayOn(year, 10, e, last);
    SplitIsExact(timestamp);
    hide LastSunday;
    hide DaysFromCivil;
    hide CivilFromDays;
  }

  /** In Brazil it ran, through UTC year 2018, except from 02:00 UTC on the Sunday of
      February 15 to 21 to 03:00 UTC on the Sunday of October 15 to 21. */
  lemma BrazilByCalendar(zone: Zone, timestamp: int, year: int, s: nat, first: int, e: nat, last: int)
    requires zone.Known() && zone.rule == Brazil && InYearOf(timestamp, year)
    requires 15 <= s <= 21 && SundayOn(year, 10, s, first)
    requires 15 <= e <= 21 && SundayOn(year, 2, e, last)
    ensures IsDstActive(zone, timestamp) <==>
              year <= 2018 && !(last * DAY_MS + 7_200_000 <= timestamp < first * DAY_MS + 10_800_000)
  {
    hide IsDstActive;
    hide CivilFromDays;
    hide DaysFromCivil;
    YearInRange(timestamp, year);
    NthSundayOn(year, 10, 3, s, first);
    NthSundayOn(year, 2, 3, e, last);
    hide NthSunday;
    SouthernTest(zone, timestamp, year, first * DAY_MS + 10_800_000, last * DAY_MS + 7_200_000);
  }

  /** In eastern Australia it runs except from 03:00 summer time on the Sunday of
      April 1 to 7 to 02:00 standard time on the Sunday of October 1 to 7; never in
      UTC year 9999. */
  lemma AuEastByCalendar(zone: Zone, timestamp: int, year: int, s: nat, first: int, e: nat, last: int)
    requires zone.Known() && zone.rule == AuEast && InYearOf(timestamp, year)
    requires 1 <= s <= 7 && SundayOn(year, 10, s, first)
    requires 1 <= e <= 7 && SundayOn(year, 4, e, last)
    ensures IsDstActive(zone, timestamp) <==>
              && year <= 9998
              && !(last * DAY_MS + 10_800_000 <= SummerClock(zone, timestamp) &&
                   StandardClock(zone, timestamp) < first * DAY_MS + 7_200_000)
  {
    hide IsDstActive;
    hide CivilFromDays;
    hide DaysFromCivil;
    YearInRange(timestamp, year);
    NthSundayOn(year, 10, 1, s, first);
    NthSundayOn(year, 4, 1, e, last);
    hide NthSunday;
    SouthernTest(zone, timestamp, year, first * DAY_MS + 7_200_000 - Standard(zone.baseOffset),
                 last * DAY_MS + 10_800_000 - Summer(zone.baseOffset));
  }

  /** In New Zealand the same, with its start on the Sunday of September 24 to 30. */
  lemma NzByCalendar(zone: Zone, timestamp: int, year: int, s: nat, first: int, e: nat, last: int)
    requires zone.Known() && zone.rule == Nz && InYearOf(timestamp, year)
    requires 24 <= s <= 30 && SundayOn(year, 9, s, first)
    requires 1 <= e <= 7 && SundayOn(year, 4, e, last)
    ensures IsDstActive(zone, timestamp) <==>
              && year <= 9998
              && !(last * DAY_MS + 10_800_000 <= SummerClock(zone, timestamp) &&
                   StandardClock(zone, timestamp) < first * DAY_MS + 7_200_000)
  {
    hide IsDstActive;
    hide CivilFromDays;
    hide DaysFromCivil;
    YearInRange(timestamp, year);
    LastSundayOn(year, 9, s, first);
    NthSundayOn(year, 4, 1, e, last);
    hide NthSunday;
    hide LastSunday;
    SouthernTest(zone, timestamp, year, first * DAY_MS + 7_200_000 - Standard(zone.baseOffset),
                 last * DAY_MS + 10_800_000 - Summer(zone.baseOffset));
  }

  /** Nothing of the next year is reached within this one. */
  lemma NextYearIsLater(zone: Zone, timestamp: int, year: int)
    requires zone.Known() && zone.rule != NoDst && InYearOf(timestamp, year) && year < MAX_YEAR
    ensures Start(zone, year + 1).Some? && End(zone, year + 1).Some? && timestamp < End(zone, year + 1).value
  {
    hide CivilFromDays;
    hide NewYear;
    hide Start;
    hide End;
    YearInRange(timestamp, year);
    TransitionsInYear(zone, year + 1);
    YearOfInstant(timestamp, year);
  }

  /** Between a year's two transitions a southern zone is off daylight saving, and
      for the rest of that year on it. */
  lemma SouthernTest(zone: Zone, timestamp: int, year: int, start: int, end: int)
    requires zone.Known() && Southern(zone) && InYearOf(timestamp, year)
    requires Start(zone, year) == Some(start) && End(zone, year) == Some(end)
    ensures IsDstActive(zone, timestamp) <==>
              year <= (if zone.rule == Brazil then 2018 else 9998) && !(end <= timestamp < start)
  {
    hide CivilFromDays;
    hide Start;
    hide End;
    YearInRange(timestamp, year);
    SplitIsExact(timestamp);
    if year < MAX_YEAR {
      NextYearIsLater(zone, timestamp, year);
    } else {
      NoTransitionsOutside(zone, year + 1);
    }
  }

  /** A zone without a rule never changes its clock, and no zone does outside the
      civil range. */
  lemma OtherwiseStandard(zone: Zone, timestamp: int)
    requires zone.rule == NoDst || timestamp < MIN_TIMESTAMP || timestamp > MAX_TIMESTAMP
    ensures !IsDstActive(zone, timestamp) && Offset(zone, timestamp) == zone.baseOffset
  {
    SplitIsExact(timestamp);
  }

  // ----- the text of a zone's clock ----------------------------------------------------------

  lemma ShownClock(days: int, millis: nat)
    requires MIN_DAY <= days <= MAX_DAY && millis < DAY_MS
    ensures Exists(CivilFromDays(days))
    ensures |DateText(CivilFromDays(days))| == 10 && |FormatTime(millis)| == 12
  {
    hide CivilFromDays;
    DayRoundTrip(days);
    DateTextParses(CivilFromDays(days));
    FormatTimeParses(millis, false);
  }

  /** The text of an instant in a zone shows the zone's clock: its date and time are
      those of the canonical text of the local time, and what follows is `Z` at
      offset 0 and otherwise the offset, with its sign. */
  lemma ZoneTextShowsLocalTime(zone: Zone, timestamp: int)
    requires zone.Known() && FormatAtZone(zone, timestamp).Some?
    ensures var offset := if IsDstActive(zone, timestamp) then zone.baseOffset + 3_600 else zone.baseOffset;
            var text, local := FormatAtZone(zone, timestamp).value, timestamp + offset * 1_000;
            && |text| > 23 && Rfc3339(local) == Some(text[..23] + "Z")
            && (offset == 0 ==> text[23..] == "Z")
            && (offset != 0 ==> SplitOffset(text[11..]) == Some((text[11..23], offset * 1_000)) && text[23..] != "Z")
  {
    hide IsDstActive;
    hide FormatAtZone;
    hide CivilFromDays;
    hide DateText;
    hide FormatTime;
    hide InRange;
    hide ZoneSuffix;
    hide SplitOffset;
    hide ZeroPad;
    var offset := Offset(zone, timestamp);
    var local := timestamp + offset * 1_000;
    FormattedIsLocal(zone, timestamp);
    SplitIsExact(local);
    var (days, millis) := Split(local).value;
    ShownClock(days, millis);
    var date, time := DateText(CivilFromDays(days)), FormatTime(millis);
    FormatOffset(zone, timestamp, time);
    FormatIs(zone, timestamp, offset, days, millis);
    Sliced(date, time, ZoneSuffix(offset));
    Sliced(date, time, "Z");
    assert Rfc3339(local) == Some(date + "T" + time + "Z");
    SuffixIs(offset, time);
  }

  lemma FormattedIsLocal(zone: Zone, timestamp: int)
    requires FormatAtZone(zone, timestamp).Some?
    ensures var local := timestamp + Offset(zone, timestamp) * 1_000;
            IsI64(local) && Split(local).Some?
  {
    hide Offset;
    hide Split;
    hide ZeroPad;
    hide DateText;
    hide FormatTime;
  }

  function ZoneSuffix(offset: int): string
    requires -15 * HOUR_SECS <= offset <= 15 * HOUR_SECS
  {
    var magnitude := if offset < 0 then -offset else offset;
    if offset == 0 then "Z"
    else [if offset < 0 then '-' else '+'] + ZeroPad(magnitude / HOUR_SECS, 2) + ":" +
         ZeroPad(magnitude % HOUR_SECS / 60, 2)
  }

  lemma FormatIs(zone: Zone, timestamp: int, offset: int, days: int, millis: nat)
    requires offset == Offset(zone, timestamp) && -15 * HOUR_SECS <= offset <= 15 * HOUR_SECS
    requires Split(timestamp + offset * 1_000) == Some((days, millis)) && Exists(CivilFromDays(days))
    requires IsI64(timestamp + offset * 1_000)
    ensures FormatAtZone(zone, timestamp) ==
            Some(DateText(CivilFromDays(days)) + "T" + FormatTime(millis) + ZoneSuffix(offset))
  {
    hide Offset;
    hide Split;
    hide CivilFromDays;
    hide DateText;
    hide FormatTime;
    hide InRange;
    hide ZeroPad;
    var magnitude := if offset < 0 then -offset else offset;
    Grouped(DateText(CivilFromDays(days)) + "T" + FormatTime(millis), [if offset < 0 then '-' else '+'],
            ZeroPad(magnitude / HOUR_SECS, 2), ZeroPad(magnitude % HOUR_SECS / 60, 2));
  }

  lemma Grouped(clock: string, sign: string, h: string, m: string)
    ensures clock + sign + h + ":" + m == clock + (sign + h + ":" + m)
  {
  }

  lemma SuffixIs(offset: int, time: string)
    requires -15 * HOUR_SECS <= offset <= 15 * HOUR_SECS
    ensures offset == 0 ==> ZoneSuffix(offset) == "Z"
    ensures offset != 0 ==>
              var magnitude := if offset < 0 then -offset else offset;
              && ZoneSuffix(offset) != "Z"
              && time + ZoneSuffix(offset) ==
                 time + [if offset < 0 then '-' else '+'] + ZeroPad(magnitude / HOUR_SECS, 2) + ":" +
                 ZeroPad(magnitude % HOUR_SECS / 60, 2)
  {
    hide ZeroPad;
    if offset != 0 {
      var magnitude := if offset < 0 then -offset else offset;
      Grouped(time, [if offset < 0 then '-' else '+'], ZeroPad(magnitude / HOUR_SECS, 2),
              ZeroPad(magnitude % HOUR_SECS / 60, 2));
      assert ZoneSuffix(offset)[0] == if offset < 0 then '-' else '+';
    }
  }

  lemma Sliced(date: string, time: string, suffix: string)
    requires |date| == 10 && |time| == 12
    ensures var text := date + "T" + time + suffix;
            && |text| == 23 + |suffix| && text[..23] == date + "T" + time && text[23..] == suffix
            && text[11..] == time + suffix && text[11..23] == time
  {
  }
}
