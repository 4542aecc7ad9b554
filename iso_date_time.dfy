/**
 * `java.time.LocalDateTime` and `java.time.YearMonth`, with the parser of
 * `DateTimeFormatter.ISO_LOCAL_DATE_TIME`: the extended calendar date-time format
 * `YYYY-MM-DDThh:mm[:ss[.f...]]` of section 4.3.2 of ISO 8601:2004, resolved strictly
 * against the proleptic Gregorian calendar. Years are the unsigned four-digit years
 * 0000..9999.
 */
module IsoDateTime {
  import opened Wrappers
  import opened Decimal

  datatype LocalTime = LocalTime(hour: int, minute: int, second: int, nano: int)

  datatype LocalDateTime = LocalDateTime(year: int, month: int, day: int, hour: int, minute: int, second: int, nano: int)

  /** A calendar month of a year, as `YearMonth.of` accepts it. */
  datatype YearMonth = YearMonth(year: int, month: int) {
    predicate Valid() {
      MinYear <= year <= MaxYear && 1 <= month <= 12
    }
  }

  const MinYear := -999_999_999
  const MaxYear := 999_999_999

  predicate IsLeapYear(year: int) {
    year % 4 == 0 && (year % 100 != 0 || year % 400 == 0)
  }

  function DaysInMonth(year: int, month: int): (n: int)
    requires 1 <= month <= 12
    ensures 28 <= n <= 31
  {
    if month == 2 then (if IsLeapYear(year) then 29 else 28)
    else if month == 4 || month == 6 || month == 9 || month == 11 then 30
    else 31
  }

  predicate ValidDate(year: int, month: int, day: int) {
    1 <= month <= 12 && 1 <= day <= DaysInMonth(year, month)
  }

  predicate ValidTime(hour: int, minute: int, second: int, nano: int) {
    0 <= hour < 24 && 0 <= minute < 60 && 0 <= second < 60 && 0 <= nano < 1_000_000_000
  }

  predicate ValidDateTime(dt: LocalDateTime) {
    ValidDate(dt.year, dt.month, dt.day) && ValidTime(dt.hour, dt.minute, dt.second, dt.nano)
  }

  /** The value of the digit field `s[i..i + n]`, if it is all digits. */
  function Field(s: string, i: nat, n: nat): (r: Option<nat>)
    requires i + n <= |s|
    ensures r.Some? ==> r.value < Pow10(n)
  {
    if AllDigits(s[i..i + n]) then DigitsBound(s[i..i + n]); Some(DigitsValue(s[i..i + n])) else None
  }

  lemma DigitsBound(s: string)
    requires AllDigits(s)
    ensures DigitsValue(s) < Pow10(|s|)
  {
    DigitsValueBound(s);
  }

  /**
   * The nanoseconds that a fraction of 0 to 9 digits denotes: the digits are the leading
   * digits of a nine-digit nanosecond count.
   */
  function FractionNanos(f: string): (n: nat)
    requires AllDigits(f) && |f| <= 9
    ensures n < 1_000_000_000
  {
    DigitsValueBound(f);
    Pow10Add(|f|, 9 - |f|);
    MultiplyBelow(DigitsValue(f), Pow10(|f|), Pow10(9 - |f|));
    assert Pow10(9) == 1_000_000_000;
    DigitsValue(f) * Pow10(9 - |f|)
  }

  lemma MultiplyBelow(a: nat, b: nat, c: nat)
    requires a < b && c >= 1
    ensures a * c < b * c
  {
  }

  /**
   * The `ISO_LOCAL_TIME` part: `hh:mm`, optionally followed by `:ss`, optionally followed
   * by a decimal point and up to nine fraction digits. Every field is checked against
   * its range; text left over after the last field makes the parse fail.
   */
  function ParseLocalTime(t: string): (r: Option<LocalTime>)
    ensures r.Some? ==> ValidTime(r.value.hour, r.value.minute, r.value.second, r.value.nano)
  {
    if |t| < 5 || t[2] != ':' then None
    else match (Field(t, 0, 2), Field(t, 3, 2))
      case (Some(hour), Some(minute)) =>
        if hour > 23 || minute > 59 then None
        else if |t| == 5 then Some(LocalTime(hour, minute, 0, 0))
        else if |t| < 8 || t[5] != ':' then None
        else (match Field(t, 6, 2)
          case Some(second) =>
            if second > 59 then None
            else if |t| == 8 then Some(LocalTime(hour, minute, second, 0))
            else if t[8] != '.' || |t| > 18 || !AllDigits(t[9..]) then None
            else Some(LocalTime(hour, minute, second, FractionNanos(t[9..])))
          case None => None)
      case _ => None
  }

  /**
   * `LocalDateTime.parse(s, DateTimeFormatter.ISO_LOCAL_DATE_TIME)`, with `None` for the
   * `DateTimeParseException`. The separator 'T' is matched case-insensitively, as the
   * formatter is built with `parseCaseInsensitive`. Every result is a real calendar
   * date and time of day.
   */
  function ParseIsoLocalDateTime(s: string): (r: Option<LocalDateTime>)
    ensures r.Some? ==> ValidDateTime(r.value) && 0 <= r.value.year <= 9999
  {
    if |s| < 16 || s[4] != '-' || s[7] != '-' || (s[10] != 'T' && s[10] != 't') then None
    else match (Field(s, 0, 4), Field(s, 5, 2), Field(s, 8, 2))
      case (Some(year), Some(month), Some(day)) =>
        assert Pow10(4) == 10000;
        if !ValidDate(year, month, day) then None
        else (match ParseLocalTime(s[11..])
          case Some(t) => Some(LocalDateTime(year, month, day, t.hour, t.minute, t.second, t.nano))
          case None => None)
      case _ => None
  }

  /** A time of day as `hh:mm:ss`, followed by nine fraction digits when the nanoseconds are not zero. */
  function TimeText(hour: nat, minute: nat, second: nat, nano: nat): string {
    PadDigits(hour, 2) + ":" + PadDigits(minute, 2) + ":" + PadDigits(second, 2)
      + (if nano == 0 then "" else "." + PadDigits(nano, 9))
  }

  /** The full extended form `YYYY-MM-DDThh:mm:ss[.fffffffff]` of a date-time with a four-digit year. */
  function IsoText(dt: LocalDateTime): string
    requires ValidDateTime(dt) && 0 <= dt.year
  {
    PadDigits(dt.year, 4) + "-" + PadDigits(dt.month, 2) + "-" + PadDigits(dt.day, 2) + "T"
      + TimeText(dt.hour, dt.minute, dt.second, dt.nano)
  }

  /**
   * The year as `YearMonth.toString` writes it: a minus sign when negative, then at least
   * four digits.
   */
  function YearText(year: int): string {
    if year < 0 then "-" + PadDigits(-year, 4) else PadDigits(year, 4)
  }

  /**
   * `YearMonth.toString`: the year, a '-', and the month as two digits (the calendar
   * month form of section 4.1.2.3 of ISO 8601:2004, extended to any year).
   */
  function YearMonthText(ym: YearMonth): (s: string)
    requires ym.Valid()
    ensures |s| >= 7 && (s[0] == '-' <==> ym.year < 0)
    ensures s[|s| - 3] == '-' && AllDigits(s[|s| - 2..])
  {
    assert Pow10(2) == 100;
    PadDigitsLength(ym.month, 2);
    YearText(ym.year) + "-" + PadDigits(ym.month, 2)
  }

  /** The year text reads back as the year. */
  lemma YearTextValue(year: int)
    ensures ParseInt(YearText(year)) == Some(year)
  {
    var n: nat := if year < 0 then -year else year;
    PadDigitsValue(n, 4);
    ParseDigits(PadDigits(n, 4));
  }

  /** The year of the unit tests, as four digits. */
  lemma YearExample()
    ensures NatText(2023) == "2023" && PadDigits(2023, 4) == "2023" && YearText(2023) == "2023"
  {
    NatTextAppend(2, 0);
    NatTextAppend(20, 2);
    NatTextAppend(202, 3);
    PadDigitsFull(2023, 4);
  }

  /** A digit field holding `PadDigits(n, w)` reads back as `n`. */
  lemma FieldOfPadded(s: string, i: nat, n: nat, w: nat)
    requires 1 <= w && n < Pow10(w) && i + w <= |s| && s[i..i + w] == PadDigits(n, w)
    ensures Field(s, i, w) == Some(n)
  {
    PadDigitsValue(n, w);
  }

  /** The branch of ParseLocalTime taken by a time of day with seconds. */
  lemma ParseLocalTimeWithSeconds(t: string, hour: nat, minute: nat, second: nat)
    requires |t| >= 8 && t[2] == ':' && t[5] == ':'
    requires Field(t, 0, 2) == Some(hour) && Field(t, 3, 2) == Some(minute) && Field(t, 6, 2) == Some(second)
    requires hour <= 23 && minute <= 59 && second <= 59
    requires |t| == 8 || (t[8] == '.' && |t| <= 18 && AllDigits(t[9..]))
    ensures ParseLocalTime(t) == Some(LocalTime(hour, minute, second, if |t| == 8 then 0 else FractionNanos(t[9..])))
  {
  }

  /** Nine fraction digits read back as the nanoseconds they were printed from. */
  lemma FractionRoundTrip(nano: nat)
    requires nano < 1_000_000_000
    ensures |PadDigits(nano, 9)| == 9 && FractionNanos(PadDigits(nano, 9)) == nano
  {
    assert Pow10(9) == 1_000_000_000;
    PadDigitsLength(nano, 9);
    PadDigitsValue(nano, 9);
    assert Pow10(0) == 1;
  }

  /** The `hh:mm:ss` prefix of a time of day, whatever follows it. */
  lemma TimeFields(hour: nat, minute: nat, second: nat, rest: string)
    requires hour < 24 && minute < 60 && second < 60
    ensures var t := PadDigits(hour, 2) + ":" + PadDigits(minute, 2) + ":" + PadDigits(second, 2) + rest;
      |t| == 8 + |rest| && t[2] == ':' && t[5] == ':' && t[8..] == rest &&
      Field(t, 0, 2) == Some(hour) && Field(t, 3, 2) == Some(minute) && Field(t, 6, 2) == Some(second)
  {
    var hh, mm, ss := PadDigits(hour, 2), PadDigits(minute, 2), PadDigits(second, 2);
    assert Pow10(2) == 100;
    PadDigitsLength(hour, 2);
    PadDigitsLength(minute, 2);
    PadDigitsLength(second, 2);
    var t := hh + ":" + mm + ":" + ss + rest;
    assert t[0..2] == hh && t[3..5] == mm && t[6..8] == ss && t[8..] == rest;
    FieldOfPadded(t, 0, hour, 2);
    FieldOfPadded(t, 3, minute, 2);
    FieldOfPadded(t, 6, second, 2);
  }

  /** ParseLocalTime reads back every time of day that TimeText prints. */
  lemma TimeTextRoundTrip(hour: nat, minute: nat, second: nat, nano: nat)
    requires ValidTime(hour, minute, second, nano)
    ensures ParseLocalTime(TimeText(hour, minute, second, nano)) == Some(LocalTime(hour, minute, second, nano))
  {
    var rest := if nano == 0 then "" else "." + PadDigits(nano, 9);
    var t := TimeText(hour, minute, second, nano);
    TimeFields(hour, minute, second, rest);
    if nano != 0 {
      FractionRoundTrip(nano);
      assert t[9..] == rest[1..] == PadDigits(nano, 9);
    }
    ParseLocalTimeWithSeconds(t, hour, minute, second);
  }

  /** The branch of ParseIsoLocalDateTime taken by a valid date followed by a valid time. */
  lemma ParseIsoLocalDateTimeOf(s: string, year: nat, month: nat, day: nat, t: LocalTime)
    requires |s| >= 16 && s[4] == '-' && s[7] == '-' && s[10] == 'T'
    requires Field(s, 0, 4) == Some(year) && Field(s, 5, 2) == Some(month) && Field(s, 8, 2) == Some(day)
    requires ValidDate(year, month, day) && ParseLocalTime(s[11..]) == Some(t)
    ensures ParseIsoLocalDateTime(s) == Some(LocalDateTime(year, month, day, t.hour, t.minute, t.second, t.nano))
  {
  }

  /**
   * The formatter and the parser are inverse: every date-time with a four-digit year
   * reads back from its extended form unchanged.
   */
  lemma IsoTextRoundTrip(dt: LocalDateTime)
    requires ValidDateTime(dt) && 0 <= dt.year <= 9999
    ensures ParseIsoLocalDateTime(IsoText(dt)) == Some(dt)
  {
    var time := TimeText(dt.hour, dt.minute, dt.second, dt.nano);
    DateFields(dt.year, dt.month, dt.day, time);
    TimeTextRoundTrip(dt.hour, dt.minute, dt.second, dt.nano);
    ParseIsoLocalDateTimeOf(IsoText(dt), dt.year, dt.month, dt.day, LocalTime(dt.hour, dt.minute, dt.second, dt.nano));
  }

  /** The `YYYY-MM-DDT` prefix of a date-time, whatever follows it. */
  lemma DateFields(year: nat, month: nat, day: nat, rest: string)
    requires year <= 9999 && month < 100 && day < 100
    ensures var s := PadDigits(year, 4) + "-" + PadDigits(month, 2) + "-" + PadDigits(day, 2) + "T" + rest;
      |s| == 11 + |rest| && s[4] == '-' && s[7] == '-' && s[10] == 'T' && s[11..] == rest &&
      Field(s, 0, 4) == Some(year) && Field(s, 5, 2) == Some(month) && Field(s, 8, 2) == Some(day)
  {
    var yyyy, mo, dd := PadDigits(year, 4), PadDigits(month, 2), PadDigits(day, 2);
    assert Pow10(4) == 10000 && Pow10(2) == 100;
    PadDigitsLength(year, 4);
    PadDigitsLength(month, 2);
    PadDigitsLength(day, 2);
    var s := yyyy + "-" + mo + "-" + dd + "T" + rest;
    DateLayout(yyyy, mo, dd, rest);
    FieldOfPadded(s, 0, year, 4);
    FieldOfPadded(s, 5, month, 2);
    FieldOfPadded(s, 8, day, 2);
  }

  /** Where the fields of `YYYY-MM-DDT` sit, for any texts of the right lengths. */
  lemma DateLayout(yyyy: string, mo: string, dd: string, rest: string)
    requires |yyyy| == 4 && |mo| == 2 && |dd| == 2
    ensures var s := yyyy + "-" + mo + "-" + dd + "T" + rest;
      |s| == 11 + |rest| && s[4] == '-' && s[7] == '-' && s[10] == 'T' &&
      s[0..4] == yyyy && s[5..7] == mo && s[8..10] == dd && s[11..] == rest
  {
  }
}
