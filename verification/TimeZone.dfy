/** Daylight saving rules, zone offsets, and conversion between local civil
    time and UTC.  A zone is a base offset in seconds and a rule. */
module TimeZone {
  import opened Wrappers
  import opened Arithmetic
  import opened Text
  import opened Civil
  import opened Temporal

  const HOUR_SECS: int := 3_600
  const HOUR_MS: int := 3_600_000

  datatype DstRule = NoDst | UsCanada | EuUk | Brazil | AuEast | Nz

  datatype Zone = Zone(baseOffset: int, rule: DstRule) {
    /** What every entry of the zone table satisfies. */
    predicate Known() {
      -14 * HOUR_SECS <= baseOffset <= 14 * HOUR_SECS && baseOffset % 60 == 0
    }
  }

  // ----- Sundays -------------------------------------------------------------------------

  /** 0 is Sunday; 1970-01-01 was a Thursday. */
  function Weekday(days: int): nat {
    (days + 4) % 7
  }

  function NthSunday(year: int, month: nat, n: nat): Option<nat>
    requires n > 0
  {
    var first :- DaysFromCivil(year, month, 1);
    Some(1 + (7 - Weekday(first)) % 7 + (n - 1) * 7)
  }

  function LastSunday(year: int, month: nat): Option<nat> {
    var last :- DaysInMonth(year, month);
    var days :- DaysFromCivil(year, month, last);
    Some(last - Weekday(days))
  }

  lemma WeekdayShift(days: int, weeks: int)
    ensures Weekday(days + weeks * 7) == Weekday(days)
  {
    Quotient(days + weeks * 7 + 4, 7, (days + 4) / 7 + weeks, Weekday(days));
  }

  /** The nearest Sunday on or after a day, and on or before it. */
  lemma NearestSundays(days: int)
    ensures Weekday(days + (7 - Weekday(days)) % 7) == 0
    ensures Weekday(days - Weekday(days)) == 0
  {
    var w := Weekday(days);
    Quotient(days - w + 4, 7, (days + 4) / 7, 0);
    if w > 0 {
      Quotient(days + (7 - w) + 4, 7, (days + 4) / 7 + 1, 0);
    }
  }

  /** The n-th Sunday is a Sunday in the n-th week of its month. */
  lemma NthSundayIs(year: int, month: nat, n: nat)
    requires MIN_YEAR <= year <= MAX_YEAR && 1 <= month <= 12 && 1 <= n <= 4
    ensures var day := NthSunday(year, month, n);
            && day.Some? && 7 * (n - 1) < day.value <= 7 * n
            && DaysFromCivil(year, month, day.value).Some?
            && Weekday(DaysFromCivil(year, month, day.value).value) == 0
  {
    hide DayNumber;
    var first := DayNumber(year, month, 1);
    NearestSundays(first);
    var shift := (7 - Weekday(first)) % 7;
    WeekdayShift(first + shift, n - 1);
    SameMonth(year, month, 1, 1 + shift + (n - 1) * 7);
    hide Weekday;
    assert DaysFromCivil(year, month, 1) == Some(first);
  }

  /** The last Sunday is a Sunday in the last seven days of its month. */
  lemma LastSundayIs(year: int, month: nat)
    requires MIN_YEAR <= year <= MAX_YEAR && 1 <= month <= 12
    ensures var day := LastSunday(year, month);
            var length := DaysInMonth(year, month).value;
            && day.Some? && length - 7 < day.value <= length
            && DaysFromCivil(year, month, day.value).Some?
            && Weekday(DaysFromCivil(year, month, day.value).value) == 0
  {
    hide DayNumber;
    var length := DaysInMonth(year, month).value;
    var last := DayNumber(year, month, length);
    NearestSundays(last);
    SameMonth(year, month, length, length - Weekday(last));
    assert 0 <= Weekday(last) < 7;
    hide Weekday;
    assert DaysFromCivil(year, month, length) == Some(last);
  }

  lemma SameMonth(year: int, month: int, a: int, b: int)
    ensures DayNumber(year, month, b) - DayNumber(year, month, a) == b - a
  {
  }

  // ----- the rules -----------------------------------------------------------------------

  /** The instant `ms` milliseconds after the midnight that starts a Sunday. */
  function Instant(year: int, month: nat, sunday: Option<nat>, ms: int): Option<int> {
    var day :- sunday;
    var days :- DaysFromCivil(year, month, day);
    Some(days * DAY_MS + ms)
  }

  function Standard(baseOffset: int): int { baseOffset * 1_000 }

  function Summer(baseOffset: int): int { (baseOffset + HOUR_SECS) * 1_000 }

  /** When daylight saving starts in `year`. */
  function Start(zone: Zone, year: int): Option<int> {
    match zone.rule
    case NoDst => None
    case UsCanada => Instant(year, 3, NthSunday(year, 3, 2), 2 * HOUR_MS - Standard(zone.baseOffset))
    case EuUk => Instant(year, 3, LastSunday(year, 3), HOUR_MS)
    case Brazil => Instant(year, 10, NthSunday(year, 10, 3), 3 * HOUR_MS)
    case AuEast => Instant(year, 10, NthSunday(year, 10, 1), 2 * HOUR_MS - Standard(zone.baseOffset))
    case Nz => Instant(year, 9, LastSunday(year, 9), 2 * HOUR_MS - Standard(zone.baseOffset))
  }

  /** When daylight saving ends in `year`. */
  function End(zone: Zone, year: int): Option<int> {
    match zone.rule
    case NoDst => None
    case UsCanada => Instant(year, 11, NthSunday(year, 11, 1), 2 * HOUR_MS - Summer(zone.baseOffset))
    case EuUk => Instant(year, 10, LastSunday(year, 10), HOUR_MS)
    case Brazil => Instant(year, 2, NthSunday(year, 2, 3), 2 * HOUR_MS)
    case AuEast => Instant(year, 4, NthSunday(year, 4, 1), 3 * HOUR_MS - Summer(zone.baseOffset))
    case Nz => Instant(year, 4, NthSunday(year, 4, 1), 3 * HOUR_MS - Summer(zone.baseOffset))
  }

  /** The United States, Canada and Europe: one interval inside the year. */
  predicate NorthernDst(zone: Zone, year: int, timestamp: int) {
    var start, end := Start(zone, year), End(zone, year);
    start.Some? && end.Some? && start.value <= timestamp < end.value
  }

  /** Brazil, Australia and New Zealand: the interval that starts in this
      year, or the tail of the one that started in the year before. */
  predicate SouthernDst(zone: Zone, year: int, timestamp: int) {
    var start, end, previousEnd := Start(zone, year), End(zone, year + 1), End(zone, year);
    && start.Some? && end.Some?
    && (start.value <= timestamp < end.value || (previousEnd.Some? && timestamp < previousEnd.value))
  }

  predicate IsDstActive(zone: Zone, timestamp: int) {
    var parts := Split(timestamp);
    && parts.Some?
    && var year := CivilFromDays(parts.value.0).year;
       match zone.rule
       case NoDst => false
       case UsCanada => NorthernDst(zone, year, timestamp)
       case EuUk => NorthernDst(zone, year, timestamp)
       case Brazil => year < 2019 && SouthernDst(zone, year, timestamp)
       case AuEast => SouthernDst(zone, year, timestamp)
       case Nz => SouthernDst(zone, year, timestamp)
  }

  // ----- what the rules mean ------------------------------------------------------------------

  predicate Southern(zone: Zone) {
    zone.rule in {Brazil, AuEast, Nz}
  }

  /** Daylight saving starts in spring and, in the south, ends in the year
      after; no interval is cut at a New Year. */
  ghost predicate InInterval(zone: Zone, timestamp: int) {
    exists y | MIN_YEAR <= y <= MAX_YEAR :: InIntervalOf(zone, y, timestamp)
  }

  predicate InIntervalOf(zone: Zone, y: int, timestamp: int) {
    var start, end := Start(zone, y), End(zone, if Southern(zone) then y + 1 else y);
    start.Some? && end.Some? && start.value <= timestamp < end.value
  }

  /** Well inside a UTC year: a day or more from both New Years. */
  predicate InYear(year: int, timestamp: int) {
    NewYear(year) * DAY_MS + DAY_MS <= timestamp < NewYear(year + 1) * DAY_MS - DAY_MS
  }

  lemma InstantInYear(year: int, month: nat, sunday: Option<nat>, ms: int)
    requires MIN_YEAR <= year <= MAX_YEAR && 2 <= month <= 11 && -DAY_MS < ms < DAY_MS
    requires sunday.Some? && DaysFromCivil(year, month, sunday.value).Some?
    ensures Instant(year, month, sunday, ms).Some? && InYear(year, Instant(year, month, sunday, ms).value)
  {
    MidYear(CivilDate(year, month, sunday.value));
    hide DayNumber;
  }

  /** Both ends of a rule exist in every year and fall inside that UTC year. */
  lemma TransitionsInYear(zone: Zone, year: int)
    requires zone.Known() && zone.rule != NoDst && MIN_YEAR <= year <= MAX_YEAR
    ensures Start(zone, year).Some? && InYear(year, Start(zone, year).value)
    ensures End(zone, year).Some? && InYear(year, End(zone, year).value)
  {
    hide DaysFromCivil;
    hide NthSunday;
    hide LastSunday;
    hide Instant;
    hide Weekday;
    hide NewYear;
    var b := zone.baseOffset;
    match zone.rule
    case UsCanada =>
      NthSundayIs(year, 3, 2);
      NthSundayIs(year, 11, 1);
      InstantInYear(year, 3, NthSunday(year, 3, 2), 2 * HOUR_MS - Standard(b));
      InstantInYear(year, 11, NthSunday(year, 11, 1), 2 * HOUR_MS - Summer(b));
    case EuUk =>
      LastSundayIs(year, 3);
      LastSundayIs(year, 10);
      InstantInYear(year, 3, LastSunday(year, 3), HOUR_MS);
      InstantInYear(year, 10, LastSunday(year, 10), HOUR_MS);
    case Brazil =>
      NthSundayIs(year, 10, 3);
      NthSundayIs(year, 2, 3);
      InstantInYear(year, 10, NthSunday(year, 10, 3), 3 * HOUR_MS);
      InstantInYear(year, 2, NthSunday(year, 2, 3), 2 * HOUR_MS);
    case AuEast =>
      NthSundayIs(year, 10, 1);
      NthSundayIs(year, 4, 1);
      InstantInYear(year, 10, NthSunday(year, 10, 1), 2 * HOUR_MS - Standard(b));
      InstantInYear(year, 4, NthSunday(year, 4, 1), 3 * HOUR_MS - Summer(b));
    case Nz =>
      LastSundayIs(year, 9);
      NthSundayIs(year, 4, 1);
      InstantInYear(year, 9, LastSunday(year, 9), 2 * HOUR_MS - Standard(b));
      InstantInYear(year, 4, NthSunday(year, 4, 1), 3 * HOUR_MS - Summer(b));
    case _ =>
  }

  lemma NoTransitionsOutside(zone: Zone, year: int)
    requires !(MIN_YEAR <= year <= MAX_YEAR)
    ensures Start(zone, year).None? && End(zone, year).None?
  {
  }

  /** The UTC year of an instant is the one whose New Years enclose it. */
  lemma YearOfInstant(timestamp: int, year: int)
    requires MIN_TIMESTAMP <= timestamp <= MAX_TIMESTAMP && MIN_YEAR <= year <= MAX_YEAR
    ensures NewYear(year) * DAY_MS <= timestamp <==> year <= CivilFromDays(timestamp / DAY_MS).year
    ensures timestamp < NewYear(year + 1) * DAY_MS <==> CivilFromDays(timestamp / DAY_MS).year <= year
  {
    hide CivilFromDays;
    hide NewYear;
    YearOfDay(timestamp / DAY_MS, year);
  }

  function YearOf(timestamp: int): int {
    CivilFromDays(timestamp / DAY_MS).year
  }

  lemma NewYearsAscend(a: int, b: int)
    requires MIN_YEAR <= a <= b <= MAX_YEAR + 1
    ensures NewYear(a) <= NewYear(b)
  {
    hide DayNumber;
    if a < b {
      if b <= MAX_YEAR {
        DatesOrderDays(CivilDate(a, 1, 1), CivilDate(b, 1, 1));
      } else {
        NewYears();
        DateRoundTrip(CivilDate(a, 1, 1));
      }
    }
  }

  /** An interval that holds an instant starts in the instant's UTC year or,
      in the south, in the year before. */
  lemma IntervalYears(zone: Zone, timestamp: int, y: int)
    requires zone.Known() && MIN_TIMESTAMP <= timestamp <= MAX_TIMESTAMP && MIN_YEAR <= y <= MAX_YEAR
    requires InIntervalOf(zone, y, timestamp)
    ensures YearOf(timestamp) == y || (Southern(zone) && YearOf(timestamp) == y + 1)
  {
    hide NewYear;
    hide Start;
    hide End;
    IntervalHasRule(zone, y, timestamp);
    TransitionsInYear(zone, y);
    YearOfInstant(timestamp, y);
    if Southern(zone) && y < MAX_YEAR {
      TransitionsInYear(zone, y + 1);
      YearOfInstant(timestamp, y + 1);
    }
  }

  lemma IntervalHasRule(zone: Zone, y: int, timestamp: int)
    requires InIntervalOf(zone, y, timestamp)
    ensures zone.rule != NoDst
    ensures Southern(zone) ==> y + 1 <= MAX_YEAR
  {
    if y + 1 > MAX_YEAR {
      NoTransitionsOutside(zone, y + 1);
    }
  }

  /** The per-UTC-year test of the northern rules is interval membership. */
  lemma NorthernExact(zone: Zone, timestamp: int)
    requires zone.Known() && zone.rule in {UsCanada, EuUk}
    requires MIN_TIMESTAMP <= timestamp <= MAX_TIMESTAMP
    ensures IsDstActive(zone, timestamp) <==> InInterval(zone, timestamp)
  {
    hide CivilFromDays;
    hide Start;
    hide End;
    SplitIsExact(timestamp);
    var year := YearOf(timestamp);
    DayRoundTrip(timestamp / DAY_MS);
    if InInterval(zone, timestamp) {
      var y :| MIN_YEAR <= y <= MAX_YEAR && InIntervalOf(zone, y, timestamp);
      IntervalYears(zone, timestamp, y);
    } else {
      assert !InIntervalOf(zone, year, timestamp);
    }
  }

  /** The southern test is interval membership, except that it fails in the
      year 9999, whose interval would end in a year that does not exist, and
      that it holds at the start of the year 1, whose interval would have
      started in one. */
  lemma SouthernExact(zone: Zone, timestamp: int)
    requires zone.Known() && Southern(zone)
    requires MIN_TIMESTAMP <= timestamp <= MAX_TIMESTAMP
    ensures var year := YearOf(timestamp);
            SouthernDst(zone, year, timestamp) <==>
              year <= 9998 && (InInterval(zone, timestamp) || (year == 1 && timestamp < End(zone, 1).value))
  {
    hide CivilFromDays;
    hide Start;
    hide End;
    hide NewYear;
    var year := YearOf(timestamp);
    DayRoundTrip(timestamp / DAY_MS);
    TransitionsInYear(zone, year);
    if year == MAX_YEAR {
      NoTransitionsOutside(zone, year + 1);
    } else {
      TransitionsInYear(zone, year + 1);
      if year > 1 && timestamp < End(zone, year).value {
        TransitionsInYear(zone, year - 1);
        YearOfInstant(timestamp, year);
        assert InIntervalOf(zone, year - 1, timestamp);
      }
      if InInterval(zone, timestamp) {
        var y :| MIN_YEAR <= y <= MAX_YEAR && InIntervalOf(zone, y, timestamp);
        IntervalYears(zone, timestamp, y);
      } else {
        assert !InIntervalOf(zone, year, timestamp);
      }
    }
  }

  lemma AustralasiaExact(zone: Zone, timestamp: int)
    requires zone.Known() && zone.rule in {AuEast, Nz}
    requires MIN_TIMESTAMP <= timestamp <= MAX_TIMESTAMP
    ensures var year := YearOf(timestamp);
            IsDstActive(zone, timestamp) <==>
              year <= 9998 && (InInterval(zone, timestamp) || (year == 1 && timestamp < End(zone, 1).value))
  {
    hide SouthernDst;
    hide InInterval;
    hide End;
    hide CivilFromDays;
    SplitIsExact(timestamp);
    SouthernExact(zone, timestamp);
  }

  lemma BrazilExact(zone: Zone, timestamp: int)
    requires zone.Known() && zone.rule == Brazil
    requires MIN_TIMESTAMP <= timestamp <= MAX_TIMESTAMP
    ensures var year := YearOf(timestamp);
            IsDstActive(zone, timestamp) <==>
              year < 2019 && (InInterval(zone, timestamp) || (year == 1 && timestamp < End(zone, 1).value))
  {
    hide SouthernDst;
    hide InInterval;
    hide End;
    hide CivilFromDays;
    SplitIsExact(timestamp);
    SouthernExact(zone, timestamp);
  }

  /** Brazil's last interval is cut at the UTC New Year of 2019: the instant
      before it is in daylight saving, it is not, and the interval goes on. */
  lemma BrazilIsCut(zone: Zone)
    requires zone.Known() && zone.rule == Brazil
    ensures var cut := NewYear(2019) * DAY_MS;
            && InInterval(zone, cut) && !IsDstActive(zone, cut)
            && InInterval(zone, cut - 1) && IsDstActive(zone, cut - 1)
  {
    hide CivilFromDays;
    hide NewYear;
    hide Start;
    hide End;
    var cut := NewYear(2019) * DAY_MS;
    NewYears();
    NewYearsAscend(1, 2018);
    NewYearsAscend(2020, 10_000);
    TransitionsInYear(zone, 2018);
    TransitionsInYear(zone, 2019);
    assert InIntervalOf(zone, 2018, cut) && InIntervalOf(zone, 2018, cut - 1);
    YearOfInstant(cut, 2019);
    YearOfInstant(cut - 1, 2018);
    BrazilExact(zone, cut);
    BrazilExact(zone, cut - 1);
  }

  // ----- offsets, and local time -----------------------------------------------------------------

  /** Offset from UTC in seconds at an instant. */
  function Offset(zone: Zone, timestamp: int): int {
    if IsDstActive(zone, timestamp) then zone.baseOffset + HOUR_SECS else zone.baseOffset
  }

  function FormatAtZone(zone: Zone, timestamp: int): Option<string> {
    var offset := Offset(zone, timestamp);
    var local := timestamp + offset * 1_000;
    if !IsI64(local) then None
    else
      var (days, millis) :- Split(local);
      InRangeIsExact(days);
      DayRoundTrip(days);
      var text := DateText(CivilFromDays(days)) + "T" + FormatTime(millis);
      if offset == 0 then Some(text + "Z")
      else
        var magnitude := if offset < 0 then -offset else offset;
        Some(text + [if offset < 0 then '-' else '+'] + ZeroPad(magnitude / HOUR_SECS, 2) + ":" +
             ZeroPad(magnitude % HOUR_SECS / 60, 2))
  }

  function TimestampFromLocal(zone: Zone, days: int, millis: int): Option<int> {
    var local := ToTimestamp(days, millis);
    var offset1 := Offset(zone, local - zone.baseOffset * 1_000);
    var utc1 := local - offset1 * 1_000;
    var offset2 := Offset(zone, utc1);
    var utc := if offset2 == offset1 then utc1 else local - offset2 * 1_000;
    var _ :- Split(utc);
    Some(utc)
  }

  /** A civil instant whose wall clock in the zone shows `local`. */
  predicate Reads(zone: Zone, utc: int, local: int) {
    MIN_TIMESTAMP <= utc <= MAX_TIMESTAMP && utc + Offset(zone, utc) * 1_000 == local
  }

  lemma NoDstAtEnd(zone: Zone, timestamp: int)
    requires zone.Known() && MAX_TIMESTAMP - DAY_MS < timestamp <= MAX_TIMESTAMP
    ensures !IsDstActive(zone, timestamp)
  {
    hide CivilFromDays;
    hide NewYear;
    hide Start;
    hide End;
    NewYears();
    YearOfInstant(timestamp, 9999);
    DayRoundTrip(timestamp / DAY_MS);
    if Southern(zone) {
      SouthernExact(zone, timestamp);
    } else if zone.rule != NoDst {
      TransitionsInYear(zone, 9999);
    }
  }

  /** Which instant a local time becomes.  If one instant reads as it, that
      one; if two do, the standard-time one; if none does, local time minus
      the standard offset.  Nothing outside the civil range is returned. */
  lemma LocalToUtc(zone: Zone, days: int, millis: int)
    requires zone.Known()
    ensures var local := ToTimestamp(days, millis);
            var standard, summer := local - Standard(zone.baseOffset), local - Summer(zone.baseOffset);
            var r := TimestampFromLocal(zone, days, millis);
            && (forall utc | Reads(zone, utc, local) :: utc == standard || utc == summer)
            && (Reads(zone, standard, local) ==> r == Some(standard))
            && (!Reads(zone, standard, local) && Reads(zone, summer, local) ==> r == Some(summer))
            && (!Reads(zone, standard, local) && !Reads(zone, summer, local) ==>
                  r == if MIN_TIMESTAMP <= standard <= MAX_TIMESTAMP then Some(standard) else None)
  {
    hide IsDstActive;
    hide Split;
    var local := ToTimestamp(days, millis);
    var standard, summer := local - Standard(zone.baseOffset), local - Summer(zone.baseOffset);
    SplitIsExact(standard);
    SplitIsExact(summer);
    DstOnlyInRange(zone, standard);
    DstOnlyInRange(zone, summer);
    if summer <= MAX_TIMESTAMP < standard {
      NoDstAtEnd(zone, summer);
    }
  }

  lemma DstOnlyInRange(zone: Zone, timestamp: int)
    ensures IsDstActive(zone, timestamp) ==> MIN_TIMESTAMP <= timestamp <= MAX_TIMESTAMP
  {
    hide CivilFromDays;
    SplitIsExact(timestamp);
  }

  lemma FormatOffset(zone: Zone, timestamp: int, time: string)
    requires zone.Known() && |time| >= 8
    ensures var offset := Offset(zone, timestamp);
            var magnitude := if offset < 0 then -offset else offset;
            && -15 * HOUR_SECS <= offset <= 15 * HOUR_SECS
            && SplitOffset(time + [if offset < 0 then '-' else '+'] + ZeroPad(magnitude / HOUR_SECS, 2) + ":" +
                           ZeroPad(magnitude % HOUR_SECS / 60, 2)) == Some((time, offset * 1_000))
  {
    hide IsDstActive;
    hide SplitOffset;
    hide ZeroPad;
    var offset := Offset(zone, timestamp);
    var magnitude := if offset < 0 then -offset else offset;
    WholeMinutes(zone.baseOffset);
    SplitOffsetSigned(time, if offset < 0 then '-' else '+', magnitude / HOUR_SECS, magnitude % HOUR_SECS / 60);
  }

  lemma WholeMinutes(baseOffset: int)
    requires -15 * HOUR_SECS <= baseOffset <= 15 * HOUR_SECS && baseOffset % 60 == 0
    ensures forall n | n in {baseOffset, -baseOffset, baseOffset + HOUR_SECS, -(baseOffset + HOUR_SECS)} && n >= 0 ::
              n / HOUR_SECS * 3_600_000 + n % HOUR_SECS / 60 * 60_000 == n * 1_000
  {
  }

  /** Zone text covers exactly the instants whose local day is in the civil
      range, and parses back to the instant, exactly when that is too. */
  lemma ZoneTextRoundTrip(zone: Zone, timestamp: int)
    requires zone.Known() && IsI64(timestamp)
    ensures var local := timestamp + Offset(zone, timestamp) * 1_000;
            var text := FormatAtZone(zone, timestamp);
            && (text.Some? <==> MIN_TIMESTAMP <= local <= MAX_TIMESTAMP)
            && (text.Some? ==>
                  (ParseRfc3339(text.value) ==
                   if MIN_TIMESTAMP <= timestamp <= MAX_TIMESTAMP then Some(timestamp) else None))
  {
    hide IsDstActive;
    hide CivilFromDays;
    hide InRange;
    hide ParseRfc3339;
    hide SplitOffset;
    hide DateText;
    hide FormatTime;
    hide ZeroPad;
    var offset := Offset(zone, timestamp);
    var local := timestamp + offset * 1_000;
    SplitIsExact(local);
    if Split(local).Some? {
      var (days, millis) := Split(local).value;
      InRangeIsExact(days);
      DayRoundTrip(days);
      var d, time := CivilFromDays(days), FormatTime(millis);
      FormatTimeParses(millis, false);
      FormatOffset(zone, timestamp, time);
      if offset == 0 {
        SplitOffsetZ(time);
        TextParses(days, millis, "Z", 0);
      } else {
        var magnitude := if offset < 0 then -offset else offset;
        var h, m := ZeroPad(magnitude / HOUR_SECS, 2), ZeroPad(magnitude % HOUR_SECS / 60, 2);
        var sign := [if offset < 0 then '-' else '+'];
        var offsetText := sign + h + ":" + m;
        assert time + offsetText == time + sign + h + ":" + m;
        TextParses(days, millis, offsetText, offset * 1_000);
        assert DateText(d) + "T" + time + offsetText == DateText(d) + "T" + time + sign + h + ":" + m;
      }
    }
  }
}
