/**
 * The `WeatherDataPoint` record: one observation row of an Environment Canada bulk
 * download. Every field may be missing (`None` for Java's `null`). The `Double`
 * columns keep the text they were read from; their floating-point value is not modelled.
 */
module WeatherDataPoints {
  import opened Wrappers
  import opened Decimal
  import opened IsoDateTime

  datatype WeatherDataPoint = WeatherDataPoint(
    dateTime: Option<string>,
    year: Option<int>,
    month: Option<int>,
    day: Option<int>,
    time: Option<string>,
    temperature: Option<string>,
    dewPoint: Option<string>,
    relativeHumidity: Option<int>,
    windDirection: Option<int>,
    windSpeed: Option<string>,
    visibility: Option<string>,
    stationPressure: Option<string>,
    weather: Option<string>)

  /** A record that holds a raw line as its date-time text and nothing else. */
  predicate IsRawRecord(p: WeatherDataPoint) {
    p.dateTime.Some? && p.year.None? && p.month.None? && p.day.None? && p.time.None?
      && p.temperature.None? && p.dewPoint.None? && p.relativeHumidity.None?
      && p.windDirection.None? && p.windSpeed.None? && p.visibility.None?
      && p.stationPressure.None? && p.weather.None?
  }

  /**
   * The deprecated constructor `WeatherDataPoint(String csv)`: the whole line becomes the
   * date-time text and every other field is missing.
   */
  function RawLine(csv: string): (p: WeatherDataPoint)
    ensures IsRawRecord(p) && p.dateTime == Some(csv)
  {
    WeatherDataPoint(Some(csv), None, None, None, None, None, None, None, None, None, None, None, None)
  }

  /** `String.format("%04d-%02d-%02dT%s", year, month, day, time)`. */
  function ComposedDateTime(year: int, month: int, day: int, time: string): (s: string)
    ensures |s| >= 11 + |time| && (s[0] == '-' <==> year < 0)
    ensures s[|s| - |time| - 1] == 'T' && s[|s| - |time|..] == time
  {
    ZeroPad(year, 4) + "-" + ZeroPad(month, 2) + "-" + ZeroPad(day, 2) + "T" + time
  }

  /**
   * `getDateTime()`: the date-time text parsed as an ISO local date-time; when that text
   * is present and non-empty but does not parse, the text composed from year, month,
   * day and time parsed the same way, provided all four are present. Whatever it
   * returns is a real calendar date and time of day.
   */
  function GetDateTime(p: WeatherDataPoint): (r: Option<LocalDateTime>)
    ensures r.Some? ==> ValidDateTime(r.value) && 0 <= r.value.year <= 9999
  {
    if p.dateTime.Some? && p.dateTime.value != "" then
      match ParseIsoLocalDateTime(p.dateTime.value)
      case Some(dt) => Some(dt)
      case None =>
        if p.year.Some? && p.month.Some? && p.day.Some? && p.time.Some? then
          ParseIsoLocalDateTime(ComposedDateTime(p.year.value, p.month.value, p.day.value, p.time.value))
        else None
    else None
  }

  /** A raw record is the raw-line record of its own date-time text. */
  lemma RawLineInverse(p: WeatherDataPoint)
    requires IsRawRecord(p)
    ensures RawLine(p.dateTime.value) == p
  {
  }

  /** Without a date-time text there is no timestamp, whatever the other fields hold. */
  lemma NoTextNoTimestamp(p: WeatherDataPoint)
    requires p.dateTime.None? || p.dateTime == Some("")
    ensures GetDateTime(p) == None
  {
  }

  /** A date-time text that parses is the timestamp; the other fields are not consulted. */
  lemma ParsedTextIsTimestamp(p: WeatherDataPoint, dt: LocalDateTime)
    requires p.dateTime.Some? && ParseIsoLocalDateTime(p.dateTime.value) == Some(dt)
    ensures GetDateTime(p) == Some(dt)
  {
  }

  /** An unparsable text with a missing component gives no timestamp. */
  lemma IncompleteComponentsNoTimestamp(p: WeatherDataPoint)
    requires p.dateTime.Some? && ParseIsoLocalDateTime(p.dateTime.value) == None
    requires p.year.None? || p.month.None? || p.day.None? || p.time.None?
    ensures GetDateTime(p) == None
  {
  }

  /** An unparsable, non-empty text with all components falls back to the composed text. */
  lemma ComponentFallback(p: WeatherDataPoint)
    requires p.dateTime.Some? && p.dateTime.value != "" && ParseIsoLocalDateTime(p.dateTime.value) == None
    requires p.year.Some? && p.month.Some? && p.day.Some? && p.time.Some?
    ensures GetDateTime(p) == ParseIsoLocalDateTime(ComposedDateTime(p.year.value, p.month.value, p.day.value, p.time.value))
  {
  }

  /**
   * The composed text of a date with a four-digit year and an `HH:MM:SS` time reads back
   * as that date and time.
   */
  lemma ComposedRoundTrip(year: int, month: int, day: int, hour: nat, minute: nat, second: nat)
    requires 0 <= year <= 9999 && ValidDate(year, month, day) && ValidTime(hour, minute, second, 0)
    ensures ParseIsoLocalDateTime(ComposedDateTime(year, month, day, TimeText(hour, minute, second, 0)))
      == Some(LocalDateTime(year, month, day, hour, minute, second, 0))
  {
    var dt := LocalDateTime(year, month, day, hour, minute, second, 0);
    ZeroPadNonNegative(year, 4);
    ZeroPadNonNegative(month, 2);
    ZeroPadNonNegative(day, 2);
    assert ComposedDateTime(year, month, day, TimeText(hour, minute, second, 0)) == IsoText(dt);
    IsoTextRoundTrip(dt);
  }

  /**
   * A record whose text is unparsable but whose components form a real date and an
   * `HH:MM:SS` time gets the timestamp of its components.
   */
  lemma ComponentTimestamp(p: WeatherDataPoint, hour: nat, minute: nat, second: nat)
    requires p.dateTime.Some? && p.dateTime.value != "" && ParseIsoLocalDateTime(p.dateTime.value) == None
    requires p.year.Some? && p.month.Some? && p.day.Some?
    requires 0 <= p.year.value <= 9999 && ValidDate(p.year.value, p.month.value, p.day.value)
    requires ValidTime(hour, minute, second, 0) && p.time == Some(TimeText(hour, minute, second, 0))
    ensures GetDateTime(p) == Some(LocalDateTime(p.year.value, p.month.value, p.day.value, hour, minute, second, 0))
  {
    ComposedRoundTrip(p.year.value, p.month.value, p.day.value, hour, minute, second);
  }

  /**
   * A raw-line record's timestamp is the parse of its line: the component fallback can
   * never apply, because the line's record has no components.
   */
  lemma RawLineTimestamp(csv: string)
    ensures GetDateTime(RawLine(csv)) == if csv == "" then None else ParseIsoLocalDateTime(csv)
  {
  }

  /** The record of the unit test: "2023-01-01T12:30:45" is 12:30:45 on 1 January 2023. */
  lemma TestRecordTimestamp()
    ensures GetDateTime(WeatherDataPoint(Some("2023-01-01T12:30:45"), Some(2023), Some(1), Some(1),
      Some("12:30:45"), Some("5.2"), Some("2.1"), Some(80), Some(9), Some("15.3"), Some("10.5"),
      Some("101.2"), Some("Cloudy"))) == Some(LocalDateTime(2023, 1, 1, 12, 30, 45, 0))
  {
    var dt := LocalDateTime(2023, 1, 1, 12, 30, 45, 0);
    IsoTextRoundTrip(dt);
    IsoTextOfTestRecord();
  }

  lemma TwoDigitsExample()
    ensures PadDigits(12, 2) == "12" && PadDigits(30, 2) == "30" && PadDigits(45, 2) == "45"
  {
    NatTextAppend(1, 2);
    NatTextAppend(3, 0);
    NatTextAppend(4, 5);
    PadDigitsFull(12, 2);
    PadDigitsFull(30, 2);
    PadDigitsFull(45, 2);
  }

  lemma IsoTextOfTestRecord()
    ensures IsoText(LocalDateTime(2023, 1, 1, 12, 30, 45, 0)) == "2023-01-01T12:30:45"
  {
    var date, time := "2023" + "-" + "01" + "-" + "01" + "T", "12" + ":" + "30" + ":" + "45";
    TestDateText();
    TestTimeText();
    assert IsoText(LocalDateTime(2023, 1, 1, 12, 30, 45, 0)) == date + time;
    TestTextPieces();
  }

  lemma TestDateText()
    ensures PadDigits(2023, 4) + "-" + PadDigits(1, 2) + "-" + PadDigits(1, 2) + "T" == "2023" + "-" + "01" + "-" + "01" + "T"
  {
    YearExample();
    PadOneDigit(1);
  }

  lemma TestTimeText()
    ensures TimeText(12, 30, 45, 0) == "12" + ":" + "30" + ":" + "45"
  {
    TwoDigitsExample();
  }

  lemma TestTextPieces()
    ensures ("2023" + "-" + "01" + "-" + "01" + "T") + ("12" + ":" + "30" + ":" + "45") == "2023-01-01T12:30:45"
  {
  }
}
