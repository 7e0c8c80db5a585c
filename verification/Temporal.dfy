/** RFC 3339 text of timestamps: formatting and parsing, and that parsing
    undoes formatting (date-time of section 5.6 of RFC 3339). */
module Temporal {
  import opened Wrappers
  import opened Arithmetic
  import opened Text
  import opened Civil

  const MIN_TIMESTAMP: int := MIN_DAY * DAY_MS
  const MAX_TIMESTAMP: int := (MAX_DAY + 1) * DAY_MS - 1

  // ----- days and milliseconds -------------------------------------------------------

  function ToTimestamp(days: int, millis: int): int {
    var ms := if millis >= 0 then millis else 0;
    var t := days * DAY_MS + ms;
    if IsI64(t) then t else 0
  }

  function Split(timestamp: int): Option<(int, nat)> {
    var days, millis := timestamp / DAY_MS, timestamp % DAY_MS;
    if IsI32(days) && InRange(days) then Some((days, millis)) else None
  }

  /** A timestamp splits exactly when its day is in years 0001 to 9999. */
  lemma SplitIsExact(timestamp: int)
    ensures Split(timestamp).Some? <==> MIN_TIMESTAMP <= timestamp <= MAX_TIMESTAMP
  {
    var days := timestamp / DAY_MS;
    if IsI32(days) {
      InRangeIsExact(days);
    }
  }

  /** A day and a time of day join to the timestamp they are split from; a negative
      time counts as midnight, and 32-bit values never overflow. */
  lemma JoinIsExact(timestamp: int, days: int, millis: int)
    requires IsI32(days) && IsI32(millis)
    ensures ToTimestamp(days, millis) == days * 86_400_000 + (if millis < 0 then 0 else millis)
    ensures Split(timestamp).Some? ==>
              var (d, m) := Split(timestamp).value;
              m < 86_400_000 && ToTimestamp(d, m) == timestamp
  {
    hide InRange;
  }

  // ----- formatting ----------------------------------------------------------------------

  /** `{year:04}`: the sign counts towards the width. */
  function PadYear(year: int): string {
    if year < 0 then "-" + ZeroPad(-year, 3) else ZeroPad(year, 4)
  }

  function DateText(d: CivilDate): string
    requires d.month >= 0 && d.day >= 0
  {
    PadYear(d.year) + "-" + ZeroPad(d.month, 2) + "-" + ZeroPad(d.day, 2)
  }

  function FormatTime(millis: nat): string {
    ZeroPad(millis / 3_600_000, 2) + ":" + ZeroPad(millis % 3_600_000 / 60_000, 2) + ":" +
    ZeroPad(millis % 60_000 / 1_000, 2) + "." + ZeroPad(millis % 1_000, 3)
  }

  function Rfc3339(timestamp: int): Option<string> {
    var (days, millis) :- Split(timestamp);
    InRangeIsExact(days);
    DayRoundTrip(days);
    Some(DateText(CivilFromDays(days)) + "T" + FormatTime(millis) + "Z")
  }

  // ----- parsing ---------------------------------------------------------------------------

  function ParseDigits(text: string): (r: Option<nat>)
    ensures r.Some? <==> text != [] && AllDigits(text) && IsI64(DigitsValue(text))
    ensures r.Some? ==> r.value == DigitsValue(text)
  {
    if text == [] || !AllDigits(text) then None
    else if IsI64(DigitsValue(text)) then Some(DigitsValue(text))
    else None
  }

  /** Exactly the zero-padded texts of 64-bit numbers parse, each to its number,
      at every width. */
  lemma DigitsParseExactly(text: string, n: nat)
    ensures ParseDigits(text) == Some(n) <==> IsI64(n) && text == ZeroPad(n, |text|)
  {
    if ParseDigits(text) == Some(n) {
      DigitsArePadded(text);
    } else if text == ZeroPad(n, |text|) {
      PaddedValue(n, |text|);
    }
  }

  function ParseYmd(text: string): Option<(nat, nat, nat)> {
    if |text| != 10 || text[4] != '-' || text[7] != '-' then None
    else
      var year :- ParseDigits(text[0..4]);
      var month :- ParseDigits(text[5..7]);
      var day :- ParseDigits(text[8..10]);
      Some((year, month, day))
  }

  /** Milliseconds of a fraction of a second: its first three digits, padded
      with zeros on the right. */
  function FractionMillis(fraction: string): nat
    requires AllDigits(fraction)
  {
    var digits := if |fraction| < 3 then fraction else fraction[..3];
    DigitsValue(digits + seq(3 - |digits|, _ => '0'))
  }

  function ParseFraction(text: string, requireMillis: bool): Option<nat>
    requires |text| >= 8
  {
    if |text| == 8 && !requireMillis then Some(0)
    else if |text| > 8 && text[8] == '.' then
      var fraction := text[9..];
      if fraction == [] || !AllDigits(fraction) || (requireMillis && |fraction| != 3)
         || (|fraction| > 3 && exists c <- fraction[3..] :: c != '0')
      then None
      else Some(FractionMillis(fraction))
    else None
  }

  function ParseHms(text: string, requireMillis: bool): Option<nat> {
    if |text| < 8 || text[2] != ':' || text[5] != ':' then None
    else
      var hour :- ParseDigits(text[0..2]);
      var minute :- ParseDigits(text[3..5]);
      var second :- ParseDigits(text[6..8]);
      if hour > 23 || minute > 59 || second > 59 then None
      else
        var millis :- ParseFraction(text, requireMillis);
        Some(hour * 3_600_000 + minute * 60_000 + second * 1_000 + millis)
  }

  predicate IsSign(c: char) { c == '+' || c == '-' }

  /** The position of the last sign in `s`. */
  function LastSign(s: string): (r: Option<nat>)
    ensures r.Some? ==> r.value < |s| && IsSign(s[r.value]) && forall i | r.value < i < |s| :: !IsSign(s[i])
    ensures r.None? ==> forall i | 0 <= i < |s| :: !IsSign(s[i])
  {
    if s == [] then None
    else if IsSign(s[|s| - 1]) then Some(|s| - 1)
    else LastSign(s[..|s| - 1])
  }

  /** The time part and the offset in milliseconds of the text after `T`. */
  function SplitOffset(text: string): Option<(string, int)> {
    if text != [] && text[|text| - 1] == 'Z' then Some((text[..|text| - 1], 0))
    else
      var at :- LastSign(text);
      if at < 8 then None
      else
        var offset := text[at + 1..];
        if |offset| != 5 || offset[2] != ':' then None
        else
          var hours :- ParseDigits(offset[0..2]);
          var minutes :- ParseDigits(offset[3..5]);
          if hours > 23 || minutes > 59 then None
          else
            var magnitude := hours * 3_600_000 + minutes * 60_000;
            Some((text[..at], if text[at] == '+' then magnitude else -magnitude))
  }

  function ParseRfc3339(text: string): Option<int> {
    var separator :- Find(text, "T");
    var (time, offset) :- SplitOffset(text[separator + 1..]);
    var (year, month, day) :- ParseYmd(text[..separator]);
    var days :- DaysFromCivil(year, month, day);
    var millis :- ParseHms(time, false);
    var utc := days * DAY_MS + millis - offset;
    if !IsI64(utc) || !IsI32(utc / DAY_MS) then None
    else if InRange(utc / DAY_MS) then Some(utc)
    else None
  }

  // ----- round trips -------------------------------------------------------------------------

  lemma DateTextParses(d: CivilDate)
    requires Exists(d)
    ensures |DateText(d)| == 10 && 'T' !in DateText(d)
    ensures ParseYmd(DateText(d)) == Some((d.year, d.month, d.day))
  {
    ZeroPadRoundTrip(d.year, 4);
    ZeroPadRoundTrip(d.month, 2);
    ZeroPadRoundTrip(d.day, 2);
    var text := DateText(d);
    assert text[0..4] == ZeroPad(d.year, 4);
    assert text[5..7] == ZeroPad(d.month, 2);
    assert text[8..10] == ZeroPad(d.day, 2);
  }

  lemma TimeParts(millis: nat)
    requires millis < DAY_MS
    ensures var hour, minute, second, ms :=
              millis / 3_600_000, millis % 3_600_000 / 60_000, millis % 60_000 / 1_000, millis % 1_000;
            && hour < 24 && minute < 60 && second < 60 && ms < 1_000
            && hour * 3_600_000 + minute * 60_000 + second * 1_000 + ms == millis
  {
    var inHour, inMinute := millis % 3_600_000, millis % 60_000;
    Quotient(millis, 60_000, millis / 3_600_000 * 60 + inHour / 60_000, inHour % 60_000);
    Quotient(millis, 1_000, millis / 60_000 * 60 + inMinute / 1_000, inMinute % 1_000);
  }

  lemma ThreeDigitFraction(text: string, fraction: string, requireMillis: bool)
    requires |text| == 12 && text[8] == '.' && text[9..] == fraction && AllDigits(fraction)
    ensures ParseFraction(text, requireMillis) == Some(DigitsValue(fraction))
  {
    assert fraction[..3] == fraction && fraction + seq(0, _ => '0') == fraction;
  }

  lemma ClockSlices(hour: string, minute: string, second: string, fraction: string)
    requires |hour| == |minute| == |second| == 2 && |fraction| == 3
    ensures var text := hour + ":" + minute + ":" + second + "." + fraction;
            && |text| == 12 && text[2] == ':' && text[5] == ':' && text[8] == '.'
            && text[0..2] == hour && text[3..5] == minute && text[6..8] == second && text[9..] == fraction
  {
    var a := hour + ":";
    var b := a + minute;
    var c := b + ":";
    var d := c + second;
    var e := d + ".";
    SliceRight(a, minute);
    SliceLeft(b, ":", 3, 5);
    SliceRight(c, second);
    SliceLeft(c, second, 3, 5);
    SliceLeft(d, ".", 3, 5);
    SliceLeft(d, ".", 6, 8);
    SliceLeft(e, fraction, 3, 5);
    SliceLeft(e, fraction, 6, 8);
    SliceRight(e, fraction);
  }

  /** Parsing reads a clock text field by field. */
  lemma HmsFields(text: string, requireMillis: bool)
    requires |text| == 12 && text[2] == ':' && text[5] == ':' && text[8] == '.'
    requires AllDigits(text[0..2]) && AllDigits(text[3..5]) && AllDigits(text[6..8]) && AllDigits(text[9..])
    requires DigitsValue(text[0..2]) < 24 && DigitsValue(text[3..5]) < 60 && DigitsValue(text[6..8]) < 60
    ensures ParseHms(text, requireMillis) ==
            Some(DigitsValue(text[0..2]) * 3_600_000 + DigitsValue(text[3..5]) * 60_000 +
                 DigitsValue(text[6..8]) * 1_000 + DigitsValue(text[9..]))
  {
    hide DigitsValue;
    ThreeDigitFraction(text, text[9..], requireMillis);
    hide ParseFraction;
  }

  lemma FormatTimeParses(millis: nat, requireMillis: bool)
    requires millis < DAY_MS
    ensures |FormatTime(millis)| == 12
    ensures ParseHms(FormatTime(millis), requireMillis) == Some(millis)
  {
    TimeParts(millis);
    var hour, minute, second, ms :=
      millis / 3_600_000, millis % 3_600_000 / 60_000, millis % 60_000 / 1_000, millis % 1_000;
    hide ParseHms;
    hide DigitsValue;
    ZeroPadRoundTrip(hour, 2);
    ZeroPadRoundTrip(minute, 2);
    ZeroPadRoundTrip(second, 2);
    ZeroPadRoundTrip(ms, 3);
    ClockSlices(ZeroPad(hour, 2), ZeroPad(minute, 2), ZeroPad(second, 2), ZeroPad(ms, 3));
    HmsFields(FormatTime(millis), requireMillis);
  }

  /** Text of an offset from UTC, as `SplitOffset` reads it. */
  lemma SplitOffsetZ(time: string)
    ensures SplitOffset(time + "Z") == Some((time, 0))
  {
    var text := time + "Z";
    assert text[..|text| - 1] == time;
  }

  lemma SignIsLast(s: string, at: nat)
    requires at < |s| && IsSign(s[at]) && forall i | at < i < |s| :: !IsSign(s[i])
    ensures LastSign(s) == Some(at)
  {
  }

  lemma SplitOffsetSigned(time: string, sign: char, hours: nat, minutes: nat)
    requires |time| >= 8 && IsSign(sign) && hours < 24 && minutes < 60
    ensures SplitOffset(time + [sign] + ZeroPad(hours, 2) + ":" + ZeroPad(minutes, 2)) ==
            var magnitude := hours * 3_600_000 + minutes * 60_000;
            Some((time, if sign == '+' then magnitude else -magnitude))
  {
    ZeroPadRoundTrip(hours, 2);
    ZeroPadRoundTrip(minutes, 2);
    var h, m := ZeroPad(hours, 2), ZeroPad(minutes, 2);
    hide ZeroPad;
    hide DigitsValue;
    hide SplitOffset;
    var offset := h + ":" + m;
    var text := time + [sign] + h + ":" + m;
    assert text == time + [sign] + offset;
    assert text == time + ([sign] + offset);
    SliceRight(time + [sign], offset);
    SliceLeft(time, [sign] + offset, 0, |time|);
    SliceRight(h + ":", m);
    assert offset[3..5] == m && offset[0..2] == h && offset[2] == ':';
    OffsetParses(text, |time|, hours, minutes);
  }

  lemma OffsetParses(text: string, at: nat, hours: nat, minutes: nat)
    requires 8 <= at && |text| == at + 6 && IsSign(text[at])
    requires var offset := text[at + 1..];
             && offset[2] == ':' && AllDigits(offset[0..2]) && AllDigits(offset[3..5])
             && DigitsValue(offset[0..2]) == hours && DigitsValue(offset[3..5]) == minutes
    requires hours < 24 && minutes < 60
    ensures SplitOffset(text) ==
            var magnitude := hours * 3_600_000 + minutes * 60_000;
            Some((text[..at], if text[at] == '+' then magnitude else -magnitude))
  {
    hide DigitsValue;
    var offset := text[at + 1..];
    var h, m := offset[0..2], offset[3..5];
    assert h[0] in h && h[1] in h && m[0] in m && m[1] in m;
    assert text[at + 1] == h[0] && text[at + 2] == h[1] && text[at + 3] == ':';
    assert text[at + 4] == m[0] && text[at + 5] == m[1];
    SignIsLast(text, at);
    hide LastSign;
  }

  lemma UtcInRange(utc: int)
    requires MIN_TIMESTAMP - DAY_MS <= utc <= MAX_TIMESTAMP + DAY_MS
    ensures IsI64(utc) && IsI32(utc / DAY_MS)
    ensures InRange(utc / DAY_MS) <==> MIN_TIMESTAMP <= utc <= MAX_TIMESTAMP
  {
    hide InRange;
    InRangeIsExact(utc / DAY_MS);
  }

  /** A formatted date, clock time and offset parse to the instant they name,
      exactly when that instant is in the civil range. */
  lemma TextParses(days: int, millis: nat, offsetText: string, offset: int)
    requires MIN_DAY <= days <= MAX_DAY && millis < DAY_MS && -DAY_MS < offset < DAY_MS
    requires SplitOffset(FormatTime(millis) + offsetText) == Some((FormatTime(millis), offset))
    ensures var d := CivilFromDays(days);
            var utc := days * DAY_MS + millis - offset;
            && Exists(d)
            && ParseRfc3339(DateText(d) + "T" + FormatTime(millis) + offsetText) ==
               if MIN_TIMESTAMP <= utc <= MAX_TIMESTAMP then Some(utc) else None
  {
    hide CivilFromDays;
    hide DayNumber;
    hide DateText;
    hide FormatTime;
    hide ParseYmd;
    hide ParseHms;
    hide SplitOffset;
    hide InRange;
    DayRoundTrip(days);
    var d := CivilFromDays(days);
    DateTextParses(d);
    FormatTimeParses(millis, false);
    var date, time := DateText(d), FormatTime(millis);
    var text := date + "T" + time + offsetText;
    assert text == date + ['T'] + (time + offsetText);
    FindChar(date, 'T', time + offsetText);
    hide Find;
    assert text[..|date|] == date && text[|date| + 1..] == time + offsetText;
    UtcInRange(days * DAY_MS + millis - offset);
  }

  /** Formatting covers exactly the civil range, and parsing undoes it. */
  lemma Rfc3339RoundTrip(timestamp: int)
    ensures Rfc3339(timestamp).Some? <==> MIN_TIMESTAMP <= timestamp <= MAX_TIMESTAMP
    ensures Rfc3339(timestamp).Some? ==> ParseRfc3339(Rfc3339(timestamp).value) == Some(timestamp)
  {
    hide CivilFromDays;
    hide InRange;
    hide FormatTime;
    hide DateText;
    hide ParseRfc3339;
    hide SplitOffset;
    SplitIsExact(timestamp);
    if Split(timestamp).Some? {
      var (days, millis) := Split(timestamp).value;
      InRangeIsExact(days);
      SplitOffsetZ(FormatTime(millis));
      TextParses(days, millis, "Z", 0);
    }
  }

  lemma ParsedInRange(text: string)
    requires ParseRfc3339(text).Some?
    ensures MIN_TIMESTAMP <= ParseRfc3339(text).value <= MAX_TIMESTAMP
  {
    hide InRange;
    hide SplitOffset;
    hide ParseYmd;
    hide ParseHms;
    hide DaysFromCivil;
    InRangeIsExact(ParseRfc3339(text).value / DAY_MS);
  }

  /** Whatever text an instant was read from, its canonical text reads as the
      same instant. */
  lemma ParsedIsCanonical(text: string)
    requires ParseRfc3339(text).Some?
    ensures Rfc3339(ParseRfc3339(text).value).Some?
    ensures ParseRfc3339(Rfc3339(ParseRfc3339(text).value).value) == ParseRfc3339(text)
  {
    hide Rfc3339;
    hide ParseRfc3339;
    ParsedInRange(text);
    Rfc3339RoundTrip(ParseRfc3339(text).value);
  }
}
