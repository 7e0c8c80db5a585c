/** Civil date arithmetic: a day count since 1970-01-01 and the proleptic
    Gregorian date, for `DATE`, `TIME` and `TIMESTAMP`. */
module Civil {
  import opened Wrappers
  import opened Arithmetic

  const DAY_MS: int := 86_400_000
  const MIN_YEAR: int := 1
  const MAX_YEAR: int := 9999
  const I32_MAX: int := 0x7FFF_FFFF
  const MIN_DAY: int := -719_162
  const MAX_DAY: int := 2_932_896

  predicate IsI32(n: int) { -0x8000_0000 <= n <= I32_MAX }

  predicate IsI64(n: int) { -0x8000_0000_0000_0000 <= n <= 0x7FFF_FFFF_FFFF_FFFF }

  datatype CivilDate = CivilDate(year: int, month: int, day: int)

  // ----- the code --------------------------------------------------------------

  /** `u32::try_from(n).unwrap_or(0)`. */
  function ToU32(n: int): int {
    if 0 <= n < 0x1_0000_0000 then n else 0
  }

  function YearOfEra(doe: int): int {
    (doe - doe / 1_460 + doe / 36_524 - doe / 146_096) / 365
  }

  function DateOfEraDay(era: int, doe: int): CivilDate {
    var yoe := YearOfEra(doe);
    var year := yoe + era * 400;
    var doy := doe - (365 * yoe + yoe / 4 - yoe / 100);
    var monthPrime := (5 * doy + 2) / 153;
    var day := doy - (153 * monthPrime + 2) / 5 + 1;
    var month := if monthPrime < 10 then monthPrime + 3 else monthPrime - 9;
    var civilYear := year + if month <= 2 then 1 else 0;
    CivilDate(if IsI32(civilYear) then civilYear else I32_MAX, month, day)
  }

  /** The era formula of the code, which leaves the Gregorian calendar for
      negative `z`: it both subtracts 146096 and rounds down. */
  function EraOf(z: int): int {
    (if z >= 0 then z else z - 146_096) / 146_097
  }

  function CivilFromDays(days: int): CivilDate {
    var z := days + 719_468;
    DateOfEraDay(EraOf(z), ToU32(z - EraOf(z) * 146_097))
  }

  predicate InRange(days: int) {
    MIN_YEAR <= CivilFromDays(days).year <= MAX_YEAR
  }

  predicate IsLeap(year: int) {
    year % 4 == 0 && (year % 100 != 0 || year % 400 == 0)
  }

  function DaysInMonth(year: int, month: int): Option<int> {
    if month in {1, 3, 5, 7, 8, 10, 12} then Some(31)
    else if month in {4, 6, 9, 11} then Some(30)
    else if month == 2 then Some(if IsLeap(year) then 29 else 28)
    else None
  }

  /** The day count of a date by the era formula, with no checks. */
  function DayNumber(year: int, month: int, day: int): int {
    var y := if month <= 2 then year - 1 else year;
    var era := (if y >= 0 then y else y - 399) / 400;
    var yoe := y - era * 400;
    var monthIndex := if month > 2 then month - 3 else month + 9;
    var doy := (153 * monthIndex + 2) / 5 + day - 1;
    var doe := yoe * 365 + yoe / 4 - yoe / 100 + doy;
    era * 146_097 + doe - 719_468
  }

  function DaysFromCivil(year: int, month: nat, day: nat): Option<int> {
    if !(MIN_YEAR <= year <= MAX_YEAR) || !(1 <= month <= 12) || day == 0 then None
    else if day > DaysInMonth(year, month).value then None
    else Some(DayNumber(year, month, day))
  }

  // ----- the Gregorian calendar ----------------------------------------------------

  /** A date of the Gregorian calendar, in any year. */
  predicate IsDate(d: CivilDate) {
    1 <= d.month <= 12 && 1 <= d.day <= DaysInMonth(d.year, d.month).value
  }

  /** A date that exists, in the years the language supports. */
  predicate Exists(d: CivilDate) {
    MIN_YEAR <= d.year <= MAX_YEAR && IsDate(d)
  }

  /** The day after `d`, by the month table alone. */
  function Successor(d: CivilDate): CivilDate
    requires IsDate(d)
  {
    if d.day < DaysInMonth(d.year, d.month).value then d.(day := d.day + 1)
    else if d.month < 12 then CivilDate(d.year, d.month + 1, 1)
    else CivilDate(d.year + 1, 1, 1)
  }

  predicate Before(a: CivilDate, b: CivilDate) {
    a.year < b.year || (a.year == b.year && (a.month < b.month || (a.month == b.month && a.day < b.day)))
  }

  // ----- the era formula -------------------------------------------------------------

  function YearStart(yoe: int): int {
    365 * yoe + yoe / 4 - yoe / 100
  }

  function YearLength(yoe: int): (days: int)
    ensures days == 365 || days == 366
  {
    if yoe % 4 == 3 && (yoe % 100 != 99 || yoe == 399) then 366 else 365
  }

  /** A year of an era is `c` centuries, `q` olympiads and `r` years in. */
  lemma YearForm(c: int, q: int, r: int)
    requires 0 <= c < 4 && 0 <= q < 25 && 0 <= r < 4
    ensures var yoe := 100 * c + 4 * q + r;
            && YearStart(yoe) == 36_524 * c + 1_461 * q + 365 * r
            && YearLength(yoe) == if r == 3 && (q != 24 || c == 3) then 366 else 365
  {
    var yoe := 100 * c + 4 * q + r;
    Quotient(yoe, 100, c, 4 * q + r);
    Quotient(yoe, 4, 25 * c + q, r);
  }

  lemma YearOfForm(c: int, q: int, r: int, doy: int)
    requires 0 <= c < 4 && 0 <= q < 25 && 0 <= r < 4
    requires 0 <= doy < if r == 3 && (q != 24 || c == 3) then 366 else 365
    ensures YearOfEra(36_524 * c + 1_461 * q + 365 * r + doy) == 100 * c + 4 * q + r
    ensures 0 <= 36_524 * c + 1_461 * q + 365 * r + doy < 146_097
  {
    var doe := 36_524 * c + 1_461 * q + 365 * r + doy;
    var last := if c == 3 && q == 24 && r == 3 && doy == 365 then 1 else 0;
    Quotient(doe, 36_524, c + last, doe - 36_524 * (c + last));
    Quotient(doe, 146_096, last, doe - 146_096 * last);
    var rest := 24 * c + q + 365 * r + doy;
    var extra := if rest >= 1_460 then 1 else 0;
    Quotient(doe, 1_460, 25 * c + q + extra, rest - 1_460 * extra);
    var yoe := 100 * c + 4 * q + r;
    Quotient(365 * yoe + doy - extra, 365, yoe, doy - extra);
  }

  lemma YoeDigits(yoe: int) returns (c: int, q: int, r: int)
    requires 0 <= yoe < 400
    ensures yoe == 100 * c + 4 * q + r && 0 <= c < 4 && 0 <= q < 25 && 0 <= r < 4
  {
    c, q, r := yoe / 100, yoe % 100 / 4, yoe % 100 % 4;
  }

  /** The year-of-era formula finds the year whose span holds the day. */
  lemma YearOfEraFinds(yoe: int, doy: int)
    requires 0 <= yoe < 400 && 0 <= doy < YearLength(yoe)
    ensures YearOfEra(YearStart(yoe) + doy) == yoe
    ensures 0 <= YearStart(yoe) + doy < 146_097
  {
    hide YearOfEra;
    hide YearStart;
    hide YearLength;
    var c, q, r := YoeDigits(yoe);
    YearForm(c, q, r);
    YearOfForm(c, q, r, doy);
  }

  lemma YearStarts(yoe: int)
    requires 0 <= yoe < 400
    ensures YearStart(yoe + 1) == YearStart(yoe) + YearLength(yoe) - if yoe == 399 then 1 else 0
  {
    var c, q, r := YoeDigits(yoe);
    YearForm(c, q, r);
    if r < 3 {
      YearForm(c, q, r + 1);
    } else if q < 24 {
      YearForm(c, q + 1, 0);
    } else if c < 3 {
      YearForm(c + 1, 0, 0);
    }
  }

  /** Every day of an era lies in exactly one year of it. */
  lemma EraDayHasYear(doe: int) returns (yoe: int, doy: int)
    requires 0 <= doe < 146_097
    ensures 0 <= yoe < 400 && 0 <= doy < YearLength(yoe) && doe == YearStart(yoe) + doy
  {
    yoe := 0;
    while doe >= YearStart(yoe) + YearLength(yoe)
      invariant 0 <= yoe < 400 && YearStart(yoe) <= doe
      decreases 400 - yoe
    {
      YearStarts(yoe);
      yoe := yoe + 1;
    }
    doy := doe - YearStart(yoe);
  }

  // ----- the two directions -----------------------------------------------------------

  function MonthIndex(month: int): int {
    if month > 2 then month - 3 else month + 9
  }

  /** March-based year of a date, and its day within that year. */
  function MarchYear(d: CivilDate): int {
    if d.month <= 2 then d.year - 1 else d.year
  }

  function DayOfYear(d: CivilDate): int {
    (153 * MonthIndex(d.month) + 2) / 5 + d.day - 1
  }

  lemma MonthDayRoundTrip(d: CivilDate)
    requires 1 <= d.month <= 12 && 1 <= d.day <= DaysInMonth(d.year, d.month).value
    ensures 0 <= DayOfYear(d) < if IsLeap(MarchYear(d) + 1) then 366 else 365
    ensures (5 * DayOfYear(d) + 2) / 153 == MonthIndex(d.month)
  {
    Quotient(5 * DayOfYear(d) + 2, 153, MonthIndex(d.month), 5 * DayOfYear(d) + 2 - 153 * MonthIndex(d.month));
  }

  lemma LeapOfYoe(yoe: int)
    requires 0 <= yoe < 400
    ensures IsLeap(yoe + 1) <==> YearLength(yoe) == 366
  {
    assert yoe % 4 == 3 <==> (yoe + 1) % 4 == 0;
    assert yoe % 100 == 99 <==> (yoe + 1) % 100 == 0;
    assert yoe == 399 <==> (yoe + 1) % 400 == 0;
  }

  lemma LeapIsLongYear(era: int, yoe: int)
    requires 0 <= yoe < 400
    ensures IsLeap(era * 400 + yoe + 1) <==> YearLength(yoe) == 366
  {
    var year, n := era * 400 + yoe + 1, yoe + 1;
    Quotient(year, 4, era * 100 + n / 4, n % 4);
    Quotient(year, 100, era * 4 + n / 100, n % 100);
    Quotient(year, 400, era + n / 400, n % 400);
    LeapOfYoe(yoe);
  }

  lemma DayNumberParts(d: CivilDate, era: int, yoe: int)
    requires MarchYear(d) == era * 400 + yoe && 0 <= yoe < 400 && era >= 0
    ensures DayNumber(d.year, d.month, d.day) == era * 146_097 + YearStart(yoe) + DayOfYear(d) - 719_468
  {
    Quotient(MarchYear(d), 400, era, yoe);
  }

  lemma FromEraDay(d: CivilDate, era: int, yoe: int)
    requires Exists(d) && MarchYear(d) == era * 400 + yoe && 0 <= yoe < 400
    ensures 0 <= YearStart(yoe) + DayOfYear(d) < 146_097
    ensures DateOfEraDay(era, YearStart(yoe) + DayOfYear(d)) == d
  {
    hide YearOfEra;
    hide YearLength;
    LeapIsLongYear(era, yoe);
    MonthDayRoundTrip(d);
    YearOfEraFinds(yoe, DayOfYear(d));
  }

  lemma DayNumberBounds(d: CivilDate, era: int, yoe: int)
    requires Exists(d) && MarchYear(d) == era * 400 + yoe && 0 <= yoe < 400
    ensures MIN_DAY <= era * 146_097 + YearStart(yoe) + DayOfYear(d) - 719_468 <= MAX_DAY
  {
    assert 0 <= era <= 24;
    if era == 24 && yoe == 399 {
      assert d.month > 2;
    }
  }

  /** Reading a date's day count gives the date back. */
  lemma DateRoundTrip(d: CivilDate)
    requires Exists(d)
    ensures CivilFromDays(DayNumber(d.year, d.month, d.day)) == d
    ensures MIN_DAY <= DayNumber(d.year, d.month, d.day) <= MAX_DAY
  {
    var era, yoe := MarchYear(d) / 400, MarchYear(d) % 400;
    DayNumberParts(d, era, yoe);
    FromEraDay(d, era, yoe);
    DayNumberBounds(d, era, yoe);
    var doe := YearStart(yoe) + DayOfYear(d);
    FromParts(DayNumber(d.year, d.month, d.day), era, doe);
  }

  lemma FromParts(days: int, era: int, doe: int)
    requires era >= 0 && 0 <= doe < 146_097 && days + 719_468 == era * 146_097 + doe
    ensures CivilFromDays(days) == DateOfEraDay(era, doe)
  {
    Quotient(days + 719_468, 146_097, era, doe);
  }

  /** The month table inverts: each day of a March-based year is one date. */
  lemma DayOfYearHasDate(era: int, yoe: int, doy: int) returns (d: CivilDate)
    requires 0 <= era <= 25 && 0 <= yoe < 400 && 0 <= doy < YearLength(yoe)
    ensures d == DateOfEraDay(era, YearStart(yoe) + doy)
    ensures MarchYear(d) == era * 400 + yoe && DayOfYear(d) == doy
    ensures 1 <= d.month <= 12 && 1 <= d.day <= DaysInMonth(d.year, d.month).value
    ensures d.month <= 2 <==> doy >= 306
  {
    YearOfEraFinds(yoe, doy);
    LeapIsLongYear(era, yoe);
    d := DateOfEraDay(era, YearStart(yoe) + doy);
    MonthOfDay(doy);
  }

  lemma MonthOfDay(doy: int)
    requires 0 <= doy < 366
    ensures var mp := (5 * doy + 2) / 153;
            var day := doy - (153 * mp + 2) / 5 + 1;
            && 0 <= mp <= 11 && 1 <= day <= 31
            && (mp in {1, 3, 6, 8} ==> day <= 30)
            && (mp == 11 ==> day <= 29 && (doy < 365 ==> day <= 28))
            && (mp >= 10 <==> doy >= 306)
  {
  }

  lemma EraDaySplit(z: int) returns (era: int, yoe: int, doy: int)
    requires 0 <= z
    ensures era >= 0 && 0 <= yoe < 400 && 0 <= doy < YearLength(yoe)
    ensures z == era * 146_097 + YearStart(yoe) + doy
    ensures CivilFromDays(z - 719_468) == DateOfEraDay(era, YearStart(yoe) + doy)
  {
    era := z / 146_097;
    yoe, doy := EraDayHasYear(z % 146_097);
    FromParts(z - 719_468, era, z % 146_097);
  }

  /** Reading a day count gives an existing date with that day count. */
  lemma DayRoundTrip(days: int)
    requires MIN_DAY <= days <= MAX_DAY
    ensures var d := CivilFromDays(days);
            Exists(d) && DaysFromCivil(d.year, d.month, d.day) == Some(days)
  {
    hide CivilFromDays;
    hide DateOfEraDay;
    hide DayNumber;
    var era, yoe, doy := EraDaySplit(days + 719_468);
    assert era <= 24;
    var d := DayOfYearHasDate(era, yoe, doy);
    DayNumberParts(d, era, yoe);
    if era == 0 && yoe == 0 {
      assert doy >= 306;
    }
    if era == 24 && yoe == 399 {
      assert doy < 306;
    }
  }

  lemma MonthEndStep(d: CivilDate)
    requires Exists(d) && d.day == DaysInMonth(d.year, d.month).value
    ensures d.month != 2 ==>
              var s := Successor(d);
              MarchYear(s) == MarchYear(d) && DayOfYear(s) == DayOfYear(d) + 1
    ensures d.month == 2 ==>
              && MarchYear(Successor(d)) == MarchYear(d) + 1 && DayOfYear(Successor(d)) == 0
              && DayOfYear(d) == if IsLeap(d.year) then 365 else 364
  {
  }

  lemma NextMarchYear(d: CivilDate, era: int, yoe: int)
    requires Exists(d) && d.month == 2 && d.day == DaysInMonth(d.year, 2).value
    requires MarchYear(d) == era * 400 + yoe && 0 <= yoe < 400
    ensures DayNumber(d.year, 3, 1) == DayNumber(d.year, 2, d.day) + 1
  {
    hide DayNumber;
    var s := CivilDate(d.year, 3, 1);
    LeapIsLongYear(era, yoe);
    YearStarts(yoe);
    DayNumberParts(d, era, yoe);
    if yoe < 399 {
      DayNumberParts(s, era, yoe + 1);
    } else {
      DayNumberParts(s, era + 1, 0);
    }
  }

  /** Counting one day is stepping to the next Gregorian date. */
  lemma NextDayIsSuccessor(d: CivilDate)
    requires Exists(d) && Exists(Successor(d))
    ensures var s := Successor(d);
            DaysFromCivil(s.year, s.month, s.day) == Some(DaysFromCivil(d.year, d.month, d.day).value + 1)
  {
    hide DayNumber;
    var s := Successor(d);
    var era, yoe := MarchYear(d) / 400, MarchYear(d) % 400;
    if d.day < DaysInMonth(d.year, d.month).value {
      DayNumberParts(d, era, yoe);
      DayNumberParts(s, era, yoe);
    } else if d.month != 2 {
      MonthEndStep(d);
      DayNumberParts(d, era, yoe);
      DayNumberParts(s, era, yoe);
    } else {
      NextMarchYear(d, era, yoe);
    }
  }

  lemma LastDate(d: CivilDate)
    requires Exists(d) && !Exists(Successor(d))
    ensures DayNumber(d.year, d.month, d.day) == MAX_DAY
  {
    assert d == CivilDate(9999, 12, 31);
  }

  /** The date of the next day count is the next Gregorian date. */
  lemma SuccessorIsNextDay(days: int)
    requires MIN_DAY <= days < MAX_DAY
    ensures Exists(CivilFromDays(days)) && Exists(CivilFromDays(days + 1))
    ensures CivilFromDays(days + 1) == Successor(CivilFromDays(days))
  {
    hide CivilFromDays;
    hide DayNumber;
    DayRoundTrip(days);
    var d := CivilFromDays(days);
    if !Exists(Successor(d)) {
      LastDate(d);
    }
    NextDayIsSuccessor(d);
    DateRoundTrip(Successor(d));
  }

  /** Day counts order dates. */
  lemma {:induction false} DayNumberOrders(a: int, b: int)
    requires MIN_DAY <= a < b <= MAX_DAY
    ensures Before(CivilFromDays(a), CivilFromDays(b))
    decreases b - a
  {
    hide CivilFromDays;
    SuccessorIsNextDay(a);
    if a + 1 < b {
      DayNumberOrders(a + 1, b);
    }
  }

  /** Dates order day counts. */
  lemma DatesOrderDays(a: CivilDate, b: CivilDate)
    requires Exists(a) && Exists(b) && Before(a, b)
    ensures DayNumber(a.year, a.month, a.day) < DayNumber(b.year, b.month, b.day)
  {
    hide CivilFromDays;
    hide DayNumber;
    var m, n := DayNumber(a.year, a.month, a.day), DayNumber(b.year, b.month, b.day);
    DateRoundTrip(a);
    DateRoundTrip(b);
    if n < m {
      DayNumberOrders(n, m);
    }
  }

  /** January 1st of a year; of year 10000 for the end of the range. */
  function NewYear(year: int): int {
    DayNumber(year, 1, 1)
  }

  lemma NewYears()
    ensures NewYear(1) == MIN_DAY && NewYear(10_000) == MAX_DAY + 1
  {
    hide DayNumber;
    DayNumberParts(CivilDate(1, 1, 1), 0, 0);
    DayNumberParts(CivilDate(10_000, 1, 1), 24, 399);
  }

  /** Days from February to November keep a month from both ends of their year. */
  lemma MidYear(d: CivilDate)
    requires Exists(d) && 2 <= d.month <= 11
    ensures NewYear(d.year) + 31 <= DayNumber(d.year, d.month, d.day) <= NewYear(d.year + 1) - 32
  {
    hide DayNumber;
    var first, last := CivilDate(d.year, 2, 1), CivilDate(d.year, 11, 30);
    FebruaryFirst(d.year);
    NovemberLast(d.year);
    if first != d {
      DatesOrderDays(first, d);
    }
    if last != d {
      DatesOrderDays(d, last);
    }
  }

  lemma FebruaryFirst(year: int)
    requires 1 <= year
    ensures DayNumber(year, 2, 1) == NewYear(year) + 31
  {
    var era, yoe := (year - 1) / 400, (year - 1) % 400;
    hide DayNumber;
    DayNumberParts(CivilDate(year, 2, 1), era, yoe);
    DayNumberParts(CivilDate(year, 1, 1), era, yoe);
  }

  lemma NovemberLast(year: int)
    requires 1 <= year
    ensures DayNumber(year, 11, 30) == NewYear(year + 1) - 32
  {
    var era, yoe := year / 400, year % 400;
    hide DayNumber;
    DayNumberParts(CivilDate(year, 11, 30), era, yoe);
    DayNumberParts(CivilDate(year + 1, 1, 1), era, yoe);
  }

  /** A day's year is the one whose New Years enclose it. */
  lemma YearOfDay(days: int, year: int)
    requires MIN_DAY <= days <= MAX_DAY && MIN_YEAR <= year <= MAX_YEAR
    ensures NewYear(year) <= days <==> year <= CivilFromDays(days).year
    ensures days < NewYear(year + 1) <==> CivilFromDays(days).year <= year
  {
    hide CivilFromDays;
    hide DayNumber;
    NewYears();
    AfterNewYear(days, year);
    if year < MAX_YEAR {
      AfterNewYear(days, year + 1);
    } else {
      DayRoundTrip(days);
    }
  }

  lemma AfterNewYear(days: int, year: int)
    requires MIN_DAY <= days <= MAX_DAY && MIN_YEAR <= year <= MAX_YEAR
    ensures NewYear(year) <= days <==> year <= CivilFromDays(days).year
  {
    hide CivilFromDays;
    hide DayNumber;
    DateRoundTrip(CivilDate(year, 1, 1));
    DayRoundTrip(days);
    if NewYear(year) < days {
      DayNumberOrders(NewYear(year), days);
    } else if days < NewYear(year) {
      DayNumberOrders(days, NewYear(year));
    }
  }

  lemma BeyondRange(era: int, yoe: int, doy: int)
    requires 0 <= era && 0 <= yoe < 400 && 0 <= doy < YearLength(yoe)
    ensures var year := DateOfEraDay(era, YearStart(yoe) + doy).year;
            && (era * 146_097 + YearStart(yoe) + doy < 306 ==> year == 0)
            && (era * 146_097 + YearStart(yoe) + doy > MAX_DAY + 719_468 ==> year > 9999)
  {
    YearOfEraFinds(yoe, doy);
    MonthOfDay(doy);
    if era * 146_097 + YearStart(yoe) + doy > MAX_DAY + 719_468 && era < 25 {
      assert era == 24 && yoe == 399;
    }
  }

  lemma YearOfEraBound(doe: int)
    requires 0 <= doe < 292_193
    ensures YearOfEra(doe) <= 799
    ensures doe < 146_097 ==> YearOfEra(doe) <= 399
  {
  }

  lemma YearOfEraDay(era: int, doe: int)
    requires IsI32(YearOfEra(doe) + era * 400 + 1) && IsI32(YearOfEra(doe) + era * 400)
    ensures DateOfEraDay(era, doe).year <= YearOfEra(doe) + era * 400 + 1
  {
  }

  lemma NegativeEra(z: int)
    requires -0x9000_0000 <= z < 0
    ensures DateOfEraDay(EraOf(z), ToU32(z - EraOf(z) * 146_097)).year <= 0
  {
    var era := EraOf(z);
    var doe := z - era * 146_097;
    assert 0 <= doe < 292_193;
    YearOfEraBound(doe);
    assert 0 <= YearOfEra(doe);
    YearOfEraDay(era, doe);
    assert era <= -2 || doe < 146_097;
  }

  /** The range test is exact on every 32-bit day count, although the era
      formula is not the Gregorian calendar before 0000-03-01. */
  lemma InRangeIsExact(days: int)
    requires IsI32(days)
    ensures InRange(days) <==> MIN_DAY <= days <= MAX_DAY
  {
    var z := days + 719_468;
    if MIN_DAY <= days <= MAX_DAY {
      DayRoundTrip(days);
    } else if z >= 0 {
      var era, yoe, doy := EraDaySplit(z);
      BeyondRange(era, yoe, doy);
    } else {
      NegativeEra(z);
    }
  }

  // ----- before 0000-03-01 -------------------------------------------------------------

  /** The date with the era rounded down alone, which is the Gregorian calendar
      for every day count. */
  function Gregorian(days: int): CivilDate {
    var z := days + 719_468;
    DateOfEraDay(z / 146_097, z % 146_097)
  }

  function Shift(d: CivilDate, eras: int): CivilDate {
    CivilDate(d.year + 400 * eras, d.month, d.day)
  }

  /** The calendar repeats every 400 years. */
  lemma ShiftKeepsCalendar(d: CivilDate, eras: int)
    requires IsDate(d)
    ensures IsDate(Shift(d, eras)) && Successor(Shift(d, eras)) == Shift(Successor(d), eras)
  {
    Quotient(d.year + 400 * eras, 4, d.year / 4 + 100 * eras, d.year % 4);
    Quotient(d.year + 400 * eras, 100, d.year / 100 + 4 * eras, d.year % 100);
    Quotient(d.year + 400 * eras, 400, d.year / 400 + eras, d.year % 400);
  }

  /** A day of any era of the 32-bit range is a date of the sixth, shifted. */
  lemma EraShift(era: int, doe: int)
    requires -20_000 <= era <= 20_000 && 0 <= doe < 146_097
    ensures DateOfEraDay(era, doe) == Shift(DateOfEraDay(5, doe), era - 5)
    ensures Exists(DateOfEraDay(5, doe)) && CivilFromDays(5 * 146_097 + doe - 719_468) == DateOfEraDay(5, doe)
  {
    FromParts(5 * 146_097 + doe - 719_468, 5, doe);
    DayRoundTrip(5 * 146_097 + doe - 719_468);
    YearOfEraBound(doe);
  }

  lemma GregorianIs(days: int, era: int, doe: int)
    requires days + 719_468 == era * 146_097 + doe && 0 <= doe < 146_097
    ensures Gregorian(days) == DateOfEraDay(era, doe)
  {
    hide DateOfEraDay;
    Quotient(days + 719_468, 146_097, era, doe);
  }

  lemma NextOfEra(era: int, doe: int)
    requires -20_000 <= era < 20_000 && 0 <= doe < 146_097
    ensures var d := DateOfEraDay(era, doe);
            && IsDate(d)
            && Successor(d) == if doe < 146_096 then DateOfEraDay(era, doe + 1) else DateOfEraDay(era + 1, 0)
  {
    hide DateOfEraDay;
    hide CivilFromDays;
    hide IsDate;
    hide Successor;
    var day := 5 * 146_097 + doe - 719_468;
    EraShift(era, doe);
    SuccessorIsNextDay(day);
    ShiftKeepsCalendar(DateOfEraDay(5, doe), era - 5);
    if doe < 146_096 {
      EraShift(era, doe + 1);
    } else {
      EraShift(era + 1, 0);
      NextEraStarts();
    }
  }

  /** The floor-era dates are the Gregorian calendar over the whole 32-bit range:
      1970-01-01 is day 0, and each next day is the successor date. */
  lemma GregorianIsCalendar(days: int)
    requires IsI32(days)
    ensures Gregorian(0) == CivilDate(1970, 1, 1)
    ensures IsDate(Gregorian(days)) && Gregorian(days + 1) == Successor(Gregorian(days))
  {
    hide Gregorian;
    hide DateOfEraDay;
    hide IsDate;
    hide Successor;
    var era, doe := (days + 719_468) / 146_097, (days + 719_468) % 146_097;
    EpochDay();
    NextOfEra(era, doe);
    GregorianIs(days, era, doe);
    if doe < 146_096 {
      GregorianIs(days + 1, era, doe + 1);
    } else {
      GregorianIs(days + 1, era + 1, 0);
    }
  }

  lemma NextEraStarts()
    ensures CivilFromDays(6 * 146_097 - 719_468) == Shift(DateOfEraDay(5, 0), 1)
  {
    FromParts(6 * 146_097 - 719_468, 6, 0);
    EraShift(6, 0);
  }

  lemma EpochDay()
    ensures Gregorian(0) == CivilDate(1970, 1, 1)
  {
    hide Gregorian;
    hide CivilFromDays;
    hide DateOfEraDay;
    DateRoundTrip(CivilDate(1970, 1, 1));
    FromParts(0, 4, 135_080);
    GregorianIs(0, 4, 135_080);
    assert DayNumber(1970, 1, 1) == 0;
  }

  /** The year formula one era too far is 400 years on, except on the last day. */
  lemma YearOfFormNextEra(c: int, q: int, r: int, doy: int)
    requires 0 <= c < 4 && 0 <= q < 25 && 0 <= r < 4
    requires 0 <= doy < if r == 3 && (q != 24 || c == 3) then 366 else 365
    requires !(c == 3 && q == 24 && r == 3 && doy == 365)
    ensures YearOfEra(146_097 + 36_524 * c + 1_461 * q + 365 * r + doy) == 400 + 100 * c + 4 * q + r
  {
    var doe := 146_097 + 36_524 * c + 1_461 * q + 365 * r + doy;
    var carry := if q == 24 && r == 3 && doy == 364 then 1 else 0;
    var last := if carry == 1 && c == 3 then 1 else 0;
    Quotient(doe, 36_524, 4 + c + carry, doe - 36_524 * (4 + c + carry));
    Quotient(doe, 146_096, 1 + last, doe - 146_096 * (1 + last));
    var rest := 97 + 24 * c + q + 365 * r + doy;
    var extra := if rest >= 1_460 then 1 else 0;
    Quotient(doe, 1_460, 100 + 25 * c + q + extra, rest - 1_460 * extra);
    var yoe := 400 + 100 * c + 4 * q + r;
    Quotient(365 * yoe + doy - extra + carry - last, 365, yoe, doy - extra + carry - last);
  }

  /** One era too far, the formula still finds the year and lands a day late in it. */
  lemma NextEraIsDayLate(yoe: int, doy: int)
    requires 0 <= yoe < 400 && 0 <= doy < YearLength(yoe) && YearStart(yoe) + doy != 146_096
    ensures YearOfEra(146_097 + YearStart(yoe) + doy) == 400 + yoe
    ensures 146_097 + YearStart(yoe) + doy - YearStart(400 + yoe) == doy + 1
  {
    hide YearOfEra;
    hide YearLength;
    var c, q, r := YoeDigits(yoe);
    YearForm(c, q, r);
    YearOfFormNextEra(c, q, r, doy);
  }

  /** Different days of a March-based year have different month and day. */
  lemma DayLateDiffers(era: int, yoe: int, doy: int)
    requires 0 <= yoe < 400 && 0 <= doy < YearLength(yoe) && YearStart(yoe) + doy != 146_096
    ensures DateOfEraDay(era - 1, 146_097 + YearStart(yoe) + doy) != DateOfEraDay(era, YearStart(yoe) + doy)
  {
    YearOfEraFinds(yoe, doy);
    NextEraIsDayLate(yoe, doy);
    hide YearOfEra;
    hide YearLength;
  }

  /** The code's dates are the Gregorian ones exactly from 0000-03-01 on, and
      before it on the last day of each 400-year era alone. */
  lemma EraFormulaIsExact(days: int)
    requires IsI32(days)
    ensures CivilFromDays(days) == Gregorian(days) <==> days >= -719_468 || (days + 719_468) % 146_097 == 146_096
  {
    hide DateOfEraDay;
    var era, doe := (days + 719_468) / 146_097, (days + 719_468) % 146_097;
    if days + 719_468 < 0 {
      NegativeEraOf(days + 719_468, era, doe);
      if doe < 146_096 {
        var yoe, doy := EraDayHasYear(doe);
        DayLateDiffers(era, yoe, doy);
      }
    }
  }

  /** Below zero the code's era is one too far, except on the last day of an era. */
  lemma NegativeEraOf(z: int, era: int, doe: int)
    requires z < 0 && z == era * 146_097 + doe && 0 <= doe < 146_097
    ensures EraOf(z) == if doe == 146_096 then era else era - 1
    ensures ToU32(z - EraOf(z) * 146_097) == if doe == 146_096 then doe else 146_097 + doe
  {
    if doe == 146_096 {
      Quotient(z - 146_096, 146_097, era, 0);
    } else {
      Quotient(z - 146_096, 146_097, era - 1, doe + 1);
    }
  }

  /** Right before 0000-03-01 two day counts read as the same date: the second
      is the last day of its era, the first is read a day late. */
  lemma EraFormulaLeavesCalendar()
    ensures CivilFromDays(-719_470) == CivilFromDays(-719_469) == CivilDate(0, 2, 29)
    ensures Gregorian(-719_470) == CivilDate(0, 2, 28) && Gregorian(-719_469) == CivilDate(0, 2, 29)
  {
    assert EraOf(-2) == -2 && EraOf(-1) == -1;
    assert YearOfEra(292_192) == 799 && YearOfEra(146_096) == YearOfEra(146_095) == 399;
    assert DateOfEraDay(-2, 292_192) == CivilDate(0, 2, 29);
    assert DateOfEraDay(-1, 146_096) == CivilDate(0, 2, 29);
    assert DateOfEraDay(-1, 146_095) == CivilDate(0, 2, 28);
  }

  // ----- counted days ------------------------------------------------------------------

  /** The days of the years before `year`, counted year by year. */
  function DaysBeforeYear(year: nat): nat {
    if year <= 1 then 0 else DaysBeforeYear(year - 1) + if IsLeap(year - 1) then 366 else 365
  }

  /** The days of the months before `month`, counted month by month. */
  function DaysBeforeMonth(year: int, month: nat): int
    requires 1 <= month <= 12
  {
    if month == 1 then 0 else DaysBeforeMonth(year, month - 1) + DaysInMonth(year, month - 1).value
  }

  lemma DaysOfMonth(year: int, month: int, day: int)
    ensures DayNumber(year, month, day) == DayNumber(year, month, 1) + day - 1
  {
  }

  lemma {:induction false} MonthsAreCounted(year: nat, month: nat)
    requires MIN_YEAR <= year <= MAX_YEAR && 1 <= month <= 12
    ensures DayNumber(year, month, 1) == NewYear(year) + DaysBeforeMonth(year, month)
    decreases month
  {
    hide DayNumber;
    if month > 1 {
      MonthsAreCounted(year, month - 1);
      var last := DaysInMonth(year, month - 1).value;
      NextDayIsSuccessor(CivilDate(year, month - 1, last));
      DaysOfMonth(year, month - 1, last);
    }
  }

  lemma {:induction false} YearsAreCounted(year: nat)
    requires MIN_YEAR <= year <= MAX_YEAR
    ensures NewYear(year) == MIN_DAY + DaysBeforeYear(year)
    decreases year
  {
    hide DayNumber;
    if year == 1 {
      NewYears();
    } else {
      YearsAreCounted(year - 1);
      MonthsAreCounted(year - 1, 12);
      YearIsItsMonths(year - 1);
      NextDayIsSuccessor(CivilDate(year - 1, 12, 31));
      DaysOfMonth(year - 1, 12, 31);
    }
  }

  lemma YearIsItsMonths(year: int)
    ensures DaysBeforeMonth(year, 12) + 31 == if IsLeap(year) then 366 else 365
  {
    hide IsLeap;
    assert DaysBeforeMonth(year, 2) == 31;
    assert DaysBeforeMonth(year, 3) == if IsLeap(year) then 60 else 59;
    assert DaysBeforeMonth(year, 5) == DaysBeforeMonth(year, 3) + 61;
    assert DaysBeforeMonth(year, 7) == DaysBeforeMonth(year, 5) + 61;
    assert DaysBeforeMonth(year, 9) == DaysBeforeMonth(year, 7) + 62;
    assert DaysBeforeMonth(year, 11) == DaysBeforeMonth(year, 9) + 61;
  }

  /** The day count of a date is the number of days since 0001-01-01, counted
      year by year, month by month and day by day. */
  lemma DayNumberCounts(d: CivilDate)
    requires Exists(d)
    ensures DaysFromCivil(d.year, d.month, d.day) ==
            Some(MIN_DAY + DaysBeforeYear(d.year) + DaysBeforeMonth(d.year, d.month) + d.day - 1)
  {
    hide DayNumber;
    YearsAreCounted(d.year);
    MonthsAreCounted(d.year, d.month);
    DaysOfMonth(d.year, d.month, d.day);
  }

  // ----- dates that do not exist ---------------------------------------------------------

  /** A day of the month exists exactly when counting on from the first reaches it
      before the first of the next month, so that it reads back as itself. */
  lemma NoOtherDateHasDay(year: int, month: nat, day: nat)
    ensures DaysFromCivil(year, month, day).Some? <==>
              && MIN_DAY <= DayNumber(year, month, day) <= MAX_DAY
              && CivilFromDays(DayNumber(year, month, day)) == CivilDate(year, month, day)
  {
    hide CivilFromDays;
    hide DayNumber;
    var d := CivilDate(year, month, day);
    if DaysFromCivil(year, month, day).Some? {
      DateRoundTrip(d);
    } else if MIN_DAY <= DayNumber(year, month, day) <= MAX_DAY {
      DayRoundTrip(DayNumber(year, month, day));
    }
  }

  /** April 31st, February 29th of a common year, month 13, day 0 and year 0 are no
      dates; February 29th of a leap year is. */
  lemma SomeDates()
    ensures DaysFromCivil(2024, 4, 31) == DaysFromCivil(2023, 2, 29) == DaysFromCivil(1900, 2, 29) == None
    ensures DaysFromCivil(2024, 13, 1) == DaysFromCivil(2024, 1, 0) == DaysFromCivil(0, 12, 31) == None
    ensures DaysFromCivil(2024, 2, 29) == Some(19_782) && DaysFromCivil(2000, 2, 29) == Some(11_016)
    ensures DaysFromCivil(1, 1, 1) == Some(-719_162) && DaysFromCivil(9999, 12, 31) == Some(2_932_896)
  {
  }
}
