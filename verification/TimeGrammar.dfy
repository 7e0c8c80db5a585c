/** Exactly which texts the temporal parsers accept, and what they name: the
    date and time of section 5.6 of RFC 3339, with a fraction of any length
    that names whole milliseconds. */
module TimeGrammar {
  import opened Wrappers
  import opened Arithmetic
  import opened Chars
  import opened Text
  import opened Civil
  import opened Temporal

  // ----- fractions of a second --------------------------------------------------------------

  /** `ms` milliseconds are the fraction written `0.f` of a second. */
  predicate IsFraction(f: string, ms: int) {
    AllDigits(f) && ms * Pow10(|f|) == DigitsValue(f) * 1_000
  }

  lemma OneFraction(f: string, a: int, b: int)
    requires IsFraction(f, a) && IsFraction(f, b)
    ensures a == b
  {
    SameFactor(a, b, Pow10(|f|));
  }

  lemma SameFactor(a: int, b: int, p: int)
    requires p > 0 && a * p == b * p
    ensures a == b
  {
    assert (a - b) * p == 0;
    NoMultiple(a - b, p);
  }

  /** The accepted fractions are those that name whole milliseconds, and they
      are read as them. */
  lemma FractionExact(f: string)
    requires f != [] && AllDigits(f)
    ensures |f| <= 3 ==> IsFraction(f, FractionMillis(f))
    ensures |f| > 3 && (forall c <- f[3..] :: c == '0') ==> IsFraction(f, FractionMillis(f))
    ensures |f| > 3 && (exists c <- f[3..] :: c != '0') ==> forall ms: int :: !IsFraction(f, ms)
  {
    if |f| <= 3 {
      ShortFraction(f);
    } else {
      LongFraction(f);
    }
  }

  lemma ShortFraction(f: string)
    requires 0 < |f| <= 3 && AllDigits(f)
    ensures IsFraction(f, FractionMillis(f))
  {
    var k := 3 - |f|;
    assert FractionMillis(f) == DigitsValue(f + Zeros(k)) by {
      assert f == if |f| < 3 then f else f[..3];
    }
    ZeroIsZeros(Zeros(k));
    DigitsJoin(f, Zeros(k));
    assert Pow10(1) == 10 && Pow10(2) == 100 && Pow10(3) == 1_000;
  }

  lemma LongFraction(f: string)
    requires |f| > 3 && AllDigits(f)
    ensures (forall c <- f[3..] :: c == '0') ==> IsFraction(f, FractionMillis(f))
    ensures (exists c <- f[3..] :: c != '0') ==> forall ms: int :: !IsFraction(f, ms)
  {
    var head, tail := f[..3], f[3..];
    var h, t, p := DigitsValue(head), DigitsValue(tail), Pow10(|tail|);
    HeadIsRead(f);
    assert f == head + tail;
    DigitsJoin(head, tail);
    DigitsBound(tail);
    ZeroIsZeros(tail);
    Pow10Adds(3, |tail|);
    assert Pow10(3) == 1_000;
    hide DigitsValue;
    hide Pow10;
    hide FractionMillis;
    WholeMillis(h, t, p);
  }

  lemma HeadIsRead(f: string)
    requires |f| > 3 && AllDigits(f)
    ensures FractionMillis(f) == DigitsValue(f[..3])
  {
    assert f[..3] + Zeros(0) == f[..3];
  }

  /** A head of whole milliseconds and a tail below one are a whole number of them
      only without the tail. */
  lemma WholeMillis(h: nat, t: nat, p: nat)
    requires t < p
    ensures t == 0 ==> h * (1_000 * p) == (h * p + t) * 1_000
    ensures t != 0 ==> forall ms: int :: ms * (1_000 * p) != (h * p + t) * 1_000
  {
    forall ms: int | ms * (1_000 * p) == (h * p + t) * 1_000 ensures t == 0 {
      assert ms * (1_000 * p) == 1_000 * (ms * p);
      assert (ms - h) * p == ms * p - h * p;
      NoMultiple(ms - h, p);
    }
  }

  // ----- times of day ----------------------------------------------------------------------

  function ClockText(hour: nat, minute: nat, second: nat): string {
    ZeroPad(hour, 2) + ":" + ZeroPad(minute, 2) + ":" + ZeroPad(second, 2)
  }

  function FractionText(f: string): string {
    if f == [] then [] else "." + f
  }

  function ClockMillis(hour: nat, minute: nat, second: nat): nat {
    hour * 3_600_000 + minute * 60_000 + second * 1_000
  }

  datatype Clock = Clock(hour: nat, minute: nat, second: nat, fraction: string) {
    predicate Legal() {
      hour < 24 && minute < 60 && second < 60 && AllDigits(fraction)
    }

    function Text(): string {
      ClockText(hour, minute, second) + FractionText(fraction)
    }

    /** Whether the clock shows `millis` milliseconds after midnight. */
    predicate Shows(millis: int) {
      IsFraction(fraction, millis - ClockMillis(hour, minute, second))
    }
  }

  lemma ClockSlices(h: string, m: string, s: string, rest: string)
    requires |h| == |m| == |s| == 2
    ensures var text := h + ":" + m + ":" + s + rest;
            && |text| == 8 + |rest| && text[2] == ':' && text[5] == ':'
            && text[0..2] == h && text[3..5] == m && text[6..8] == s && text[8..] == rest
  {
  }

  lemma TwoDigits(n: nat)
    requires n < 100
    ensures |ZeroPad(n, 2)| == 2 && ParseDigits(ZeroPad(n, 2)) == Some(n)
  {
    assert Pow10(2) == 100;
    ZeroPadRoundTrip(n, 2);
  }

  /** What follows the seconds: nothing, or a point and a fraction. */
  lemma RestExact(text: string, requireMillis: bool, f: string)
    requires |text| >= 8 && text[8..] == FractionText(f) && AllDigits(f)
    ensures ParseFraction(text, requireMillis).Some? <==>
              (exists ms :: IsFraction(f, ms)) && (requireMillis ==> |f| == 3)
    ensures ParseFraction(text, requireMillis).Some? ==> IsFraction(f, ParseFraction(text, requireMillis).value)
  {
    if f == [] {
      assert |text| == 8 && IsFraction(f, 0);
    } else {
      assert text[8] == text[8..][0] == '.' && text[9..] == text[8..][1..] == f;
      FractionExact(f);
    }
  }

  lemma RestIsFraction(text: string, requireMillis: bool) returns (f: string)
    requires |text| >= 8 && ParseFraction(text, requireMillis).Some?
    ensures AllDigits(f) && text[8..] == FractionText(f)
  {
    if |text| == 8 {
      f := [];
    } else {
      f := text[9..];
      assert text[8..] == [text[8]] + f;
    }
  }

  /** Every legal clock text whose fraction names whole milliseconds parses to the
      time it shows, in the strict form only with three digits. */
  lemma ClockParses(c: Clock, requireMillis: bool)
    requires c.Legal()
    ensures ParseHms(c.Text(), requireMillis).Some? <==>
              (exists ms :: c.Shows(ms)) && (requireMillis ==> |c.fraction| == 3)
    ensures ParseHms(c.Text(), requireMillis).Some? ==> c.Shows(ParseHms(c.Text(), requireMillis).value)
  {
    TwoDigits(c.hour);
    TwoDigits(c.minute);
    TwoDigits(c.second);
    var text, base := c.Text(), ClockMillis(c.hour, c.minute, c.second);
    hide ZeroPad;
    hide ParseDigits;
    ClockSlices(ZeroPad(c.hour, 2), ZeroPad(c.minute, 2), ZeroPad(c.second, 2), FractionText(c.fraction));
    hide ParseFraction;
    RestExact(text, requireMillis, c.fraction);
    hide IsFraction;
    forall ms: int | IsFraction(c.fraction, ms) ensures c.Shows(base + ms) {
      assert base + ms - base == ms;
    }
    assert forall ms :: c.Shows(ms) ==> IsFraction(c.fraction, ms - base);
  }

  /** Nothing else parses as a time. */
  lemma ParsedIsClock(text: string, requireMillis: bool) returns (c: Clock)
    requires ParseHms(text, requireMillis).Some?
    ensures c.Legal() && c.Text() == text
  {
    var h, m, s := ParseDigits(text[0..2]).value, ParseDigits(text[3..5]).value, ParseDigits(text[6..8]).value;
    DigitsParseExactly(text[0..2], h);
    DigitsParseExactly(text[3..5], m);
    DigitsParseExactly(text[6..8], s);
    var f := RestIsFraction(text, requireMillis);
    c := Clock(h, m, s, f);
    assert c.Legal();
    hide *;
    assert c.Text() == ZeroPad(h, 2) + ":" + ZeroPad(m, 2) + ":" + ZeroPad(s, 2) + FractionText(f) by {
      ClockTextIs(c);
    }
    TextInParts(text, 2, 5);
  }

  lemma ClockTextIs(c: Clock)
    ensures c.Text() == ZeroPad(c.hour, 2) + ":" + ZeroPad(c.minute, 2) + ":" + ZeroPad(c.second, 2) +
                        FractionText(c.fraction)
  {
  }

  lemma TextInParts(text: string, i: nat, j: nat)
    requires |text| >= 8 && i == 2 && j == 5 && text[2] == ':' && text[5] == ':'
    ensures text == text[0..2] + ":" + text[3..5] + ":" + text[6..8] + text[8..]
  {
  }

  /** A text is a time exactly when it is two digits each of hour, minute and
      second in range and, if any, a point and a fraction of any length that names
      whole milliseconds; the strict form asks for three digits of it. */
  lemma TimeExact(text: string, requireMillis: bool, millis: nat)
    ensures ParseHms(text, requireMillis) == Some(millis) <==>
            exists c: Clock :: c.Legal() && c.Text() == text && c.Shows(millis) && (requireMillis ==> |c.fraction| == 3)
  {
    hide ParseHms;
    if ParseHms(text, requireMillis).Some? {
      var c := ParsedIsClock(text, requireMillis);
      ClockParses(c, requireMillis);
      OneTime(c, millis, ParseHms(text, requireMillis).value);
    }
    forall c: Clock | c.Legal() && c.Text() == text && c.Shows(millis) && (requireMillis ==> |c.fraction| == 3)
      ensures ParseHms(text, requireMillis) == Some(millis)
    {
      ClockParses(c, requireMillis);
      OneTime(c, millis, ParseHms(text, requireMillis).value);
    }
  }

  lemma OneTime(c: Clock, a: int, b: int)
    ensures c.Shows(a) && c.Shows(b) ==> a == b
  {
    var base := ClockMillis(c.hour, c.minute, c.second);
    if c.Shows(a) && c.Shows(b) {
      OneFraction(c.fraction, a - base, b - base);
    }
  }

  // ----- dates --------------------------------------------------------------------------------

  function YmdText(year: nat, month: nat, day: nat): string {
    ZeroPad(year, 4) + "-" + ZeroPad(month, 2) + "-" + ZeroPad(day, 2)
  }

  /** A text reads as a date exactly when it is four, two and two digits with
      dashes between them. */
  lemma YmdExact(text: string, year: nat, month: nat, day: nat)
    ensures ParseYmd(text) == Some((year, month, day)) <==>
              year < 10_000 && month < 100 && day < 100 && text == YmdText(year, month, day)
  {
    if ParseYmd(text) == Some((year, month, day)) {
      var y, m, d := text[0..4], text[5..7], text[8..10];
      DigitsParseExactly(y, year);
      DigitsParseExactly(m, month);
      DigitsParseExactly(d, day);
      FitsDigits(y, year);
      FitsDigits(m, month);
      FitsDigits(d, day);
      assert Pow10(2) == 100 && Pow10(4) == 10_000;
      assert text == y + "-" + m + "-" + d;
    } else if year < 10_000 && month < 100 && day < 100 && text == YmdText(year, month, day) {
      assert Pow10(2) == 100 && Pow10(4) == 10_000;
      ZeroPadRoundTrip(year, 4);
      TwoDigits(month);
      TwoDigits(day);
      DigitsParseExactly(ZeroPad(year, 4), year);
      hide ZeroPad;
      hide ParseDigits;
      YmdSlices(ZeroPad(year, 4), ZeroPad(month, 2), ZeroPad(day, 2));
    }
  }

  lemma FitsDigits(text: string, n: nat)
    requires ParseDigits(text) == Some(n)
    ensures n < Pow10(|text|)
  {
    DigitsBound(text);
  }

  lemma YmdSlices(y: string, m: string, d: string)
    requires |y| == 4 && |m| == |d| == 2
    ensures var text := y + "-" + m + "-" + d;
            && |text| == 10 && text[4] == '-' && text[7] == '-'
            && text[0..4] == y && text[5..7] == m && text[8..10] == d
  {
  }

  // ----- offsets --------------------------------------------------------------------------------

  datatype Suffix = Zulu | Signed(plus: bool, hours: nat, minutes: nat) {
    predicate Legal() {
      Signed? ==> hours < 24 && minutes < 60
    }

    function Text(): string {
      if Zulu? then "Z" else [if plus then '+' else '-'] + ZeroPad(hours, 2) + ":" + ZeroPad(minutes, 2)
    }

    function Millis(): int {
      if Zulu? then 0
      else if plus then hours * 3_600_000 + minutes * 60_000
      else -(hours * 3_600_000 + minutes * 60_000)
    }
  }

  lemma SuffixSplits(time: string, suffix: Suffix)
    requires suffix.Legal() && (suffix.Signed? ==> |time| >= 8)
    ensures SplitOffset(time + suffix.Text()) == Some((time, suffix.Millis()))
  {
    if suffix.Zulu? {
      SplitOffsetZ(time);
    } else {
      var sign := if suffix.plus then '+' else '-';
      var h, m := ZeroPad(suffix.hours, 2), ZeroPad(suffix.minutes, 2);
      SplitOffsetSigned(time, sign, suffix.hours, suffix.minutes);
      hide ZeroPad;
      hide SplitOffset;
      assert time + ([sign] + h + ":" + m) == time + [sign] + h + ":" + m;
    }
  }

  lemma SplitIsSuffix(text: string) returns (suffix: Suffix)
    requires SplitOffset(text).Some?
    ensures var (time, offset) := SplitOffset(text).value;
            && suffix.Legal() && (suffix.Signed? ==> |time| >= 8)
            && text == time + suffix.Text() && offset == suffix.Millis()
  {
    if text[|text| - 1] == 'Z' {
      suffix := Zulu;
    } else {
      var at := LastSign(text).value;
      var offset := text[at + 1..];
      var h, m := ParseDigits(offset[0..2]).value, ParseDigits(offset[3..5]).value;
      suffix := Signed(text[at] == '+', h, m);
      DigitsParseExactly(offset[0..2], h);
      DigitsParseExactly(offset[3..5], m);
      hide ZeroPad;
      hide ParseDigits;
      hide LastSign;
      FiveCharacters(offset);
      assert text == text[..at] + ([text[at]] + offset);
      assert suffix.Text() == [text[at]] + offset[0..2] + ":" + offset[3..5];
      assert suffix.Text() == [text[at]] + offset;
    }
  }

  lemma FiveCharacters(s: string)
    requires |s| == 5 && s[2] == ':'
    ensures s == s[0..2] + ":" + s[3..5]
  {
  }

  // ----- timestamps -----------------------------------------------------------------------------

  /** A timestamp as it is written. */
  datatype Stamp = Stamp(year: nat, month: nat, day: nat, clock: Clock, suffix: Suffix) {
    predicate Legal() {
      Exists(CivilDate(year, month, day)) && clock.Legal() && suffix.Legal()
    }

    function Text(): string {
      YmdText(year, month, day) + "T" + clock.Text() + suffix.Text()
    }

    /** Whether it names the instant `utc`. */
    predicate Names(utc: int) {
      clock.Shows(utc + suffix.Millis() - DayNumber(year, month, day) * DAY_MS)
    }
  }

  lemma DateHasNoT(year: nat, month: nat, day: nat)
    ensures 'T' !in YmdText(year, month, day)
  {
  }

  lemma StampParts(date: string, time: string, suffix: string)
    requires 'T' !in date
    ensures var text := date + "T" + time + suffix;
            && Find(text, "T") == Some(|date|) && text[..|date|] == date && text[|date| + 1..] == time + suffix
  {
    var text := date + "T" + time + suffix;
    assert text == date + ['T'] + (time + suffix);
    FindChar(date, 'T', time + suffix);
  }

  lemma ClockIsLong(c: Clock)
    ensures c.Legal() ==> |c.Text()| >= 8
  {
    if c.Legal() {
      TwoDigits(c.hour);
      TwoDigits(c.minute);
      TwoDigits(c.second);
    }
  }

  /** A timestamp parses as its pieces do. */
  lemma PiecesParse(text: string, at: nat, time: string, offset: int, ymd: (nat, nat, nat), days: int)
    requires Find(text, "T") == Some(at) && at < |text| && SplitOffset(text[at + 1..]) == Some((time, offset))
    requires ParseYmd(text[..at]) == Some(ymd) && DaysFromCivil(ymd.0, ymd.1, ymd.2) == Some(days)
    requires MIN_DAY <= days <= MAX_DAY && -DAY_MS < offset < DAY_MS
    requires ParseHms(time, false).Some? ==> ParseHms(time, false).value < DAY_MS
    ensures ParseHms(time, false).None? ==> ParseRfc3339(text) == None
    ensures ParseHms(time, false).Some? ==>
              var utc := days * DAY_MS + ParseHms(time, false).value - offset;
              ParseRfc3339(text) == if MIN_TIMESTAMP <= utc <= MAX_TIMESTAMP then Some(utc) else None
  {
    hide Find;
    hide SplitOffset;
    hide ParseYmd;
    hide DaysFromCivil;
    hide ParseHms;
    hide InRange;
    if ParseHms(time, false).Some? {
      UtcInRange(days * DAY_MS + ParseHms(time, false).value - offset);
    }
  }

  /** What a written timestamp parses to. */
  lemma StampParses(st: Stamp)
    requires st.Legal()
    ensures var millis := ParseHms(st.clock.Text(), false);
            && (millis.None? ==> ParseRfc3339(st.Text()) == None)
            && (millis.Some? ==>
                  var utc := DayNumber(st.year, st.month, st.day) * DAY_MS + millis.value - st.suffix.Millis();
                  ParseRfc3339(st.Text()) == if MIN_TIMESTAMP <= utc <= MAX_TIMESTAMP then Some(utc) else None)
  {
    hide ParseHms;
    hide DayNumber;
    hide SplitOffset;
    hide ParseYmd;
    hide Find;
    hide ParseRfc3339;
    hide YmdText;
    var date, time := YmdText(st.year, st.month, st.day), st.clock.Text();
    YmdExact(date, st.year, st.month, st.day);
    DateHasNoT(st.year, st.month, st.day);
    StampParts(date, time, st.suffix.Text());
    ClockIsLong(st.clock);
    SuffixSplits(time, st.suffix);
    DateRoundTrip(CivilDate(st.year, st.month, st.day));
    if ParseHms(time, false).Some? {
      TimeBound(time, ParseHms(time, false).value);
    }
    PiecesParse(st.Text(), |date|, time, st.suffix.Millis(), (st.year, st.month, st.day),
                DayNumber(st.year, st.month, st.day));
  }

  /** No text shows more than the last millisecond of a day. */
  lemma TimeBound(text: string, millis: nat)
    requires ParseHms(text, false) == Some(millis)
    ensures millis < DAY_MS
  {
    hide ParseHms;
    var c := ParsedIsClock(text, false);
    ClockParses(c, false);
    hide *;
    ShownBound(c, millis);
  }

  lemma ShownBound(c: Clock, millis: nat)
    requires c.Legal() && c.Shows(millis)
    ensures ClockMillis(c.hour, c.minute, c.second) <= millis < DAY_MS
  {
    var base := ClockMillis(c.hour, c.minute, c.second);
    DigitsBound(c.fraction);
    BelowOne(millis - base, DigitsValue(c.fraction), Pow10(|c.fraction|));
  }

  lemma BelowOne(ms: int, n: nat, p: nat)
    requires n < p && ms * p == n * 1_000
    ensures 0 <= ms < 1_000
  {
    assert (1_000 - ms) * p == 1_000 * p - ms * p;
    PositiveFactor(1_000 - ms, p);
    assert (ms + 1) * p == ms * p + p;
    PositiveFactor(ms + 1, p);
  }

  /** Nothing else parses as a timestamp. */
  lemma ParsedIsStamp(text: string) returns (st: Stamp)
    requires ParseRfc3339(text).Some?
    ensures st.Legal() && st.Text() == text
  {
    hide ParseHms;
    hide ParseYmd;
    hide SplitOffset;
    hide DayNumber;
    hide CivilFromDays;
    var at := Find(text, "T").value;
    var (year, month, day) := ParseYmd(text[..at]).value;
    YmdExact(text[..at], year, month, day);
    var suffix := SplitIsSuffix(text[at + 1..]);
    var time := SplitOffset(text[at + 1..]).value.0;
    var c := ParsedIsClock(time, false);
    st := Stamp(year, month, day, c, suffix);
    assert text[at..at + 1] == "T";
    assert Exists(CivilDate(year, month, day));
    hide *;
    Reassemble(text, at, time, suffix.Text());
    StampTextIs(st);
  }

  lemma StampTextIs(st: Stamp)
    ensures st.Text() == YmdText(st.year, st.month, st.day) + "T" + st.clock.Text() + st.suffix.Text()
  {
  }

  lemma Reassemble(text: string, at: nat, time: string, suffix: string)
    requires at < |text| && text[at..at + 1] == "T" && text[at + 1..] == time + suffix
    ensures text == text[..at] + "T" + time + suffix
  {
  }

  /** A text parses to an instant exactly when it is a date that exists, `T`, a time
      and an offset in range, and the instant it names lies in years 1 to 9999. */
  lemma Rfc3339Exact(text: string, utc: int)
    ensures ParseRfc3339(text) == Some(utc) <==>
              && MIN_TIMESTAMP <= utc <= MAX_TIMESTAMP
              && exists st: Stamp :: st.Legal() && st.Text() == text && st.Names(utc)
  {
    hide ParseRfc3339;
    if ParseRfc3339(text).Some? {
      var st := ParsedIsStamp(text);
      StampNames(st, ParseRfc3339(text).value);
      StampNames(st, utc);
    }
    forall st: Stamp | st.Legal() && st.Text() == text && st.Names(utc)
      ensures ParseRfc3339(text) == if MIN_TIMESTAMP <= utc <= MAX_TIMESTAMP then Some(utc) else None
    {
      StampNames(st, utc);
    }
  }

  /** A written timestamp parses to the instant it names, and to nothing when it
      names none or one out of range. */
  lemma StampNames(st: Stamp, utc: int)
    requires st.Legal()
    ensures ParseRfc3339(st.Text()) == Some(utc) <==> MIN_TIMESTAMP <= utc <= MAX_TIMESTAMP && st.Names(utc)
    ensures st.Names(utc) && ParseRfc3339(st.Text()).Some? ==> ParseRfc3339(st.Text()) == Some(utc)
    ensures st.Names(utc) && !(MIN_TIMESTAMP <= utc <= MAX_TIMESTAMP) ==> ParseRfc3339(st.Text()) == None
  {
    hide ParseRfc3339;
    hide ParseHms;
    hide DayNumber;
    StampParses(st);
    ClockParses(st.clock, false);
    var millis := utc + st.suffix.Millis() - DayNumber(st.year, st.month, st.day) * DAY_MS;
    var parsed := ParseHms(st.clock.Text(), false);
    if parsed.Some? {
      OneTime(st.clock, millis, parsed.value);
    }
  }

  /** The canonical text of an instant is a written timestamp with milliseconds
      and `Z`, for every instant of the range. */
  lemma CanonicalText(timestamp: int) returns (st: Stamp)
    requires MIN_TIMESTAMP <= timestamp <= MAX_TIMESTAMP
    ensures Rfc3339(timestamp) == Some(st.Text()) && st.Legal() && st.Names(timestamp)
    ensures |st.clock.fraction| == 3 && st.suffix.Zulu?
  {
    hide CivilFromDays;
    hide DateText;
    hide ParseHms;
    hide ParseRfc3339;
    SplitIsExact(timestamp);
    Rfc3339RoundTrip(timestamp);
    var (days, millis) := Split(timestamp).value;
    var d, time := CivilFromDays(days), FormatTime(millis);
    DayRoundTrip(days);
    DateTextParses(d);
    YmdExact(DateText(d), d.year, d.month, d.day);
    FormatTimeParses(millis, true);
    TimeExact(time, true, millis);
    var strict: Clock :| strict.Legal() && strict.Text() == time && strict.Shows(millis) && |strict.fraction| == 3;
    st := Stamp(d.year, d.month, d.day, strict, Zulu);
    hide FormatTime;
    assert st.Text() == DateText(d) + "T" + time + "Z";
    StampNames(st, timestamp);
  }
}
