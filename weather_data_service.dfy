/**
 * `WeatherDataService`: fetches one month of hourly observations of a weather station,
 * through a cache directory that keeps every downloaded file under a path computed from
 * the station and the month.
 */
module WeatherDataServices {
  import opened Wrappers
  import opened Decimal
  import opened Text
  import opened IsoDateTime
  import opened WeatherDataPoints

  /**
   * The bulk-download address, with `${...}` placeholders for the station, year and month.
   * Its literal text is split into short pieces, so that the character-by-character facts
   * about each piece (no '$', where a placeholder can start) stay small; joined, they are
   * exactly the three concatenated literals of the Java constant.
   */
  const EnvironmentCanadaWeatherUrlTemplate: string :=
    UrlHead + "${stationId}" + UrlYear + "${year}" + UrlMonth + "${month}" + UrlTail

  const UrlHead := UrlHost + UrlDomain + UrlPath + UrlPage + UrlFormat
  const UrlHost := "https://climate."
  const UrlDomain := "weather.gc.ca/"
  const UrlPath := "climate_data/"
  const UrlPage := "bulk_data_e.html?"
  const UrlFormat := "format=csv&stationID="
  const UrlYear := "&Year="
  const UrlMonth := "&Month="
  const UrlTail := UrlDay + UrlSubmit
  const UrlDay := "&Day=14&timeframe=1&"
  const UrlSubmit := "submit=Download+Data"

  /** The cache file of a station and month, relative to the cache directory: `<station>/<YYYY-MM>.csv`. */
  function CachePath(yearMonth: YearMonth, stationId: int): (p: string)
    requires yearMonth.Valid()
    ensures |p| >= |IntText(stationId)| + 12 && p[|IntText(stationId)|] == '/' && p[|p| - 4..] == ".csv"
    ensures p[..|IntText(stationId)|] == IntText(stationId)
    ensures p[|IntText(stationId)| + 1..|p| - 4] == YearMonthText(yearMonth)
  {
    IntText(stationId) + "/" + YearMonthText(yearMonth) + ".csv"
  }

  /** The station and month that a cache path was computed from; the inverse of CachePath. */
  function ParseCachePath(path: string): Option<(int, YearMonth)> {
    match IndexOf(path, '/')
    case None => None
    case Some(i) => ParseCacheFields(path[..i], path[i + 1..])
  }

  /** The station before the '/' of a cache path and the `<year>-<MM>.csv` after it. */
  function ParseCacheFields(station: string, rest: string): Option<(int, YearMonth)> {
    var n := |rest|;
    if n < 11 || rest[n - 4..] != ".csv" || rest[n - 7] != '-' || !AllDigits(rest[n - 6..n - 4]) then None
    else match (ParseInt(station), ParseInt(rest[..n - 7]))
      case (Some(stationId), Some(year)) => Some((stationId, YearMonth(year, DigitsValue(rest[n - 6..n - 4]))))
      case _ => None
  }

  /**
   * `getEnvironmentCanadaWeatherUrl`: the template with each placeholder replaced by its
   * decimal value; the rest of the template is unchanged and no `$` is left.
   */
  function EnvironmentCanadaWeatherUrl(yearMonth: YearMonth, stationId: int): (url: string)
    ensures url == UrlHead + IntText(stationId) + UrlYear + IntText(yearMonth.year) + UrlMonth + IntText(yearMonth.month) + UrlTail
    ensures '$' !in url
  {
    var s, y, m := IntText(stationId), IntText(yearMonth.year), IntText(yearMonth.month);
    IntTextChars(stationId);
    IntTextChars(yearMonth.year);
    IntTextChars(yearMonth.month);
    TemplatePieces();
    TemplateTextHasNoDollar();
    FillPlaceholders(UrlHead, UrlYear, UrlMonth, UrlTail, s, y, m);
    Concat7(UrlHead, s, UrlYear, y, UrlMonth, m, UrlTail);
    Replace(Replace(Replace(EnvironmentCanadaWeatherUrlTemplate,
      "${stationId}", IntText(stationId)),
      "${year}", IntText(yearMonth.year)),
      "${month}", IntText(yearMonth.month))
  }

  /** One raw-line record per line, in order: `lines.stream().map(WeatherDataPoint::new)`. */
  function RawLines(lines: seq<string>): (records: seq<WeatherDataPoint>)
    ensures |records| == |lines|
    ensures forall k :: 0 <= k < |lines| ==> records[k] == RawLine(lines[k])
  {
    if lines == [] then [] else [RawLine(lines[0])] + RawLines(lines[1..])
  }

  /**
   * The fallback parse, `Files.lines(file).skip(1).map(WeatherDataPoint::new)`: the first
   * line is taken as the header and every later line becomes one raw-line record.
   */
  function FallbackRecords(content: string): (records: seq<WeatherDataPoint>)
    ensures |records| == if Lines(content) == [] then 0 else |Lines(content)| - 1
    ensures forall k :: 0 <= k < |records| ==> records[k] == RawLine(Lines(content)[k + 1])
  {
    var lines := Lines(content);
    if lines == [] then [] else RawLines(lines[1..])
  }

  /**
   * The records of a cached file: the structured CSV reading when it succeeds, the
   * fallback parse when it throws. The structured reader is not modelled; it is the
   * parameter `readCsv`, with `None` for an `IOException`.
   */
  function ReadRecords(readCsv: string -> Option<seq<WeatherDataPoint>>, content: string): (records: seq<WeatherDataPoint>)
    ensures readCsv(content).Some? ==> records == readCsv(content).value
    ensures readCsv(content).None? ==> records == FallbackRecords(content)
  {
    match readCsv(content)
    case Some(parsed) => parsed
    case None => FallbackRecords(content)
  }

  /** The date-time texts of a sequence of raw records. */
  function RawTexts(records: seq<WeatherDataPoint>): seq<string>
    requires forall k :: 0 <= k < |records| ==> records[k].dateTime.Some?
  {
    if records == [] then [] else [records[0].dateTime.value] + RawTexts(records[1..])
  }

  /** What the server does with the one request: a status and a body, or a failure before any response. */
  datatype HttpReply = Response(status: int, body: string) | TransportFailure

  /** The exception `fetchWeatherData` throws. */
  datatype FetchError = HttpStatus(code: int) | Transport

  class WeatherDataService {
    /** The files of the cache directory: their contents by path relative to the directory. */
    var cache: map<string, string>
    /** The structured CSV reader; `None` stands for the `IOException` it throws. */
    const readCsv: string -> Option<seq<WeatherDataPoint>>

    constructor (files: map<string, string>, readCsv: string -> Option<seq<WeatherDataPoint>>)
      ensures cache == files && this.readCsv == readCsv
    {
      cache := files;
      this.readCsv := readCsv;
    }

    /**
     * `fetchWeatherData(yearMonth, stationId)`: a cached file is parsed as it is; otherwise
     * the month is downloaded. The response body is written to the cache path before the
     * status is looked at, so a non-200 reply throws but leaves its body cached. `request`
     * is the address downloaded, if any.
     */
    method FetchWeatherData(yearMonth: YearMonth, stationId: int, reply: HttpReply)
      returns (result: Result<seq<WeatherDataPoint>, FetchError>, request: Option<string>)
      requires yearMonth.Valid()
      modifies this
      ensures var path := CachePath(yearMonth, stationId);
        if path in old(cache) then
          cache == old(cache) && request == None && result == Ok(ReadRecords(readCsv, old(cache)[path]))
        else
          request == Some(EnvironmentCanadaWeatherUrl(yearMonth, stationId)) &&
          (reply.TransportFailure? ==> cache == old(cache) && result == Err(Transport)) &&
          (reply.Response? ==>
            cache == old(cache)[path := reply.body] &&
            result == (if reply.status == 200 then Ok(ReadRecords(readCsv, reply.body)) else Err(HttpStatus(reply.status))))
      ensures forall p :: p in old(cache) && p != CachePath(yearMonth, stationId) ==> p in cache && cache[p] == old(cache)[p]
      ensures cache.Keys <= old(cache).Keys + {CachePath(yearMonth, stationId)}
      ensures result.Ok? ==> CachePath(yearMonth, stationId) in cache
    {
      var path := CachePath(yearMonth, stationId);
      if path in cache {
        request := None;
      } else {
        request := Some(EnvironmentCanadaWeatherUrl(yearMonth, stationId));
        match reply {
          case TransportFailure =>
            result := Err(Transport);
            return;
          case Response(status, body) =>
            cache := cache[path := body];
            if status != 200 {
              result := Err(HttpStatus(status));
              return;
            }
        }
      }
      result := Ok(ReadRecords(readCsv, cache[path]));
    }
  }

  /**
   * Two calls for the same month: once the first has stored a file, the second downloads
   * nothing, changes nothing and parses what is stored, even when that is the body of a
   * failed download.
   */
  method FetchTwice(service: WeatherDataService, yearMonth: YearMonth, stationId: int, first: HttpReply, second: HttpReply)
    returns (firstResult: Result<seq<WeatherDataPoint>, FetchError>, secondResult: Result<seq<WeatherDataPoint>, FetchError>,
             secondRequest: Option<string>)
    requires yearMonth.Valid() && first.Response?
    modifies service
    ensures var path := CachePath(yearMonth, stationId);
      path in service.cache && secondRequest == None &&
      service.cache == (if path in old(service.cache) then old(service.cache) else old(service.cache)[path := first.body]) &&
      secondResult == Ok(ReadRecords(service.readCsv, service.cache[path]))
    ensures CachePath(yearMonth, stationId) !in old(service.cache) && first.status != 200 ==>
      firstResult == Err(HttpStatus(first.status)) && secondResult == Ok(ReadRecords(service.readCsv, first.body))
  {
    var firstRequest;
    firstResult, firstRequest := service.FetchWeatherData(yearMonth, stationId, first);
    secondResult, secondRequest := service.FetchWeatherData(yearMonth, stationId, second);
  }

  /**
   * The unit test's cache hit: with "31688/2023-01.csv" already in the cache directory,
   * holding a header line and one data row, fetching January 2023 for station 31688
   * downloads nothing and parses that file; if the structured reader failed on it, the
   * fallback would give the data row as one record.
   */
  method CachedFileIsLoaded(readCsv: string -> Option<seq<WeatherDataPoint>>, reply: HttpReply, header: string, row: string)
    returns (result: Result<seq<WeatherDataPoint>, FetchError>, request: Option<string>)
    requires '\n' !in header && '\n' !in row && row != []
    ensures request == None
    ensures result == Ok(ReadRecords(readCsv, header + "\n" + row))
    ensures readCsv(header + "\n" + row).None? ==> result == Ok([RawLine(row)])
  {
    var content := header + "\n" + row;
    CachePathExample();
    var service := new WeatherDataService(map["31688/2023-01.csv" := content], readCsv);
    result, request := service.FetchWeatherData(YearMonth(2023, 1), 31688, reply);
    HeaderAndRowFallback(header, row);
  }

  /** The fallback reading of a header line and one data row is that row as one raw record. */
  lemma HeaderAndRowFallback(header: string, row: string)
    requires '\n' !in header && '\n' !in row && row != []
    ensures FallbackRecords(header + "\n" + row) == [RawLine(row)]
  {
    TwoLines(header, row);
    var lines := [header, row];
    assert lines[1..] == [row];
    assert RawLines([row]) == [RawLine(row)];
  }

  /** The cache path of the unit test's month and station. */
  lemma CachePathExample()
    ensures CachePath(YearMonth(2023, 1), 31688) == "31688/2023-01.csv"
  {
    StationExample();
    YearExample();
    PadOneDigit(1);
    assert YearMonthText(YearMonth(2023, 1)) == "2023" + "-" + "01";
    assert "31688/2023-01.csv" == "31688" + "/" + ("2023" + "-" + "01") + ".csv";
  }

  lemma StationExample()
    ensures IntText(31688) == "31688"
  {
    NatTextAppend(3, 1);
    NatTextAppend(31, 6);
    NatTextAppend(316, 8);
    NatTextAppend(3168, 8);
  }

  /** ParseCachePath recovers the station and month from their cache path. */
  lemma CachePathRoundTrip(yearMonth: YearMonth, stationId: int)
    requires yearMonth.Valid()
    ensures ParseCachePath(CachePath(yearMonth, stationId)) == Some((stationId, yearMonth))
  {
    var station, rest := IntText(stationId), YearMonthText(yearMonth) + ".csv";
    assert CachePath(yearMonth, stationId) == station + "/" + rest;
    StationText(stationId);
    CachePathSplit(station, rest);
    CacheFieldsOf(station, stationId, yearMonth);
  }

  /** The station part of a cache path holds no '/' and reads back as the station. */
  lemma StationText(stationId: int)
    ensures '/' !in IntText(stationId) && ParseInt(IntText(stationId)) == Some(stationId)
  {
    IntTextRoundTrip(stationId);
    IntTextChars(stationId);
  }

  /** The part after the '/' reads back as the month. */
  lemma CacheFieldsOf(station: string, stationId: int, yearMonth: YearMonth)
    requires yearMonth.Valid() && ParseInt(station) == Some(stationId)
    ensures ParseCacheFields(station, YearMonthText(yearMonth) + ".csv") == Some((stationId, yearMonth))
  {
    var yearText, monthText := YearText(yearMonth.year), PadDigits(yearMonth.month, 2);
    assert YearMonthText(yearMonth) + ".csv" == yearText + "-" + monthText + ".csv";
    assert Pow10(2) == 100;
    PadDigitsLength(yearMonth.month, 2);
    PadDigitsValue(yearMonth.month, 2);
    YearTextValue(yearMonth.year);
    RestFields(yearText, monthText);
  }

  /** The first `c` of a text made of a `c`-free prefix, `c` and anything else ends the prefix. */
  lemma IndexOfFirst(a: string, c: char, b: string)
    requires c !in a
    ensures var s := a + [c] + b; IndexOf(s, c) == Some(|a|) && s[..|a|] == a && s[|a| + 1..] == b
  {
    var s := a + [c] + b;
    assert s[|a|] == c && s[..|a|] == a;
    assert forall k :: 0 <= k < |a| ==> s[k] == a[k] != c;
    assert forall v :: |a| < v <= |s| ==> s[..v][|a|] == c;
  }

  /** The fields after the '/' of a cache path. */
  lemma RestFields(yearText: string, monthText: string)
    requires |monthText| == 2 && |yearText| >= 4
    ensures var rest := yearText + "-" + monthText + ".csv"; var n := |rest|;
      n >= 11 && rest[n - 4..] == ".csv" && rest[n - 7] == '-' && rest[n - 6..n - 4] == monthText && rest[..n - 7] == yearText
  {
  }

  /** A cache path is cut at its first '/'. */
  lemma CachePathSplit(station: string, rest: string)
    requires '/' !in station
    ensures ParseCachePath(station + "/" + rest) == ParseCacheFields(station, rest)
  {
    IndexOfFirst(station, '/', rest);
  }

  /** Distinct (station, month) keys have distinct cache files. */
  lemma CachePathInjective(a: YearMonth, stationA: int, b: YearMonth, stationB: int)
    requires a.Valid() && b.Valid() && CachePath(a, stationA) == CachePath(b, stationB)
    ensures a == b && stationA == stationB
  {
    CachePathRoundTrip(a, stationA);
    CachePathRoundTrip(b, stationB);
  }

  /** For a four-digit year the path is `<station>/<YYYY>-<MM>.csv` with exactly four and two digits. */
  lemma CachePathShape(yearMonth: YearMonth, stationId: int)
    requires yearMonth.Valid() && 0 <= yearMonth.year <= 9999
    ensures var yyyy, mm := PadDigits(yearMonth.year, 4), PadDigits(yearMonth.month, 2);
      CachePath(yearMonth, stationId) == IntText(stationId) + "/" + (yyyy + "-" + mm) + ".csv" &&
      |yyyy| == 4 && |mm| == 2 && DigitsValue(yyyy) == yearMonth.year && DigitsValue(mm) == yearMonth.month
  {
    YearMonthDigits(yearMonth);
    assert CachePath(yearMonth, stationId) == IntText(stationId) + "/" + YearMonthText(yearMonth) + ".csv";
  }

  /** A four-digit year and its month are written with exactly four and two digits. */
  lemma YearMonthDigits(yearMonth: YearMonth)
    requires yearMonth.Valid() && 0 <= yearMonth.year <= 9999
    ensures var yyyy, mm := PadDigits(yearMonth.year, 4), PadDigits(yearMonth.month, 2);
      YearMonthText(yearMonth) == yyyy + "-" + mm &&
      |yyyy| == 4 && |mm| == 2 && DigitsValue(yyyy) == yearMonth.year && DigitsValue(mm) == yearMonth.month
  {
    assert Pow10(4) == 10000 && Pow10(2) == 100;
    PadDigitsLength(yearMonth.year, 4);
    PadDigitsLength(yearMonth.month, 2);
    PadDigitsValue(yearMonth.year, 4);
    PadDigitsValue(yearMonth.month, 2);
  }


  /** The pieces of a text, one after the other. */
  function Concat(pieces: seq<string>): string {
    if pieces == [] then [] else pieces[0] + Concat(pieces[1..])
  }

  /** A piece that a replacement of `target`, a `${...}` placeholder, copies as it is. */
  predicate Untouched(piece: string, target: string)
    requires |target| >= 3
  {
    '$' !in piece || (|piece| >= 3 && '$' !in piece[1..] && piece[2] != target[2])
  }

  /** What one piece of a text becomes when `target` is replaced: the replacement, or the piece itself. */
  predicate Becomes(piece: string, result: string, target: string, replacement: string)
    requires |target| >= 3
  {
    (piece == target && result == replacement) || (Untouched(piece, target) && result == piece)
  }

  /** Replacing a placeholder in a text made of pieces replaces the pieces that are that placeholder. */
  lemma {:induction false} ReplacePieces(pieces: seq<string>, replaced: seq<string>, target: string, replacement: string)
    requires |target| >= 3 && target[0] == '$' && |replaced| == |pieces|
    requires forall k :: 0 <= k < |pieces| ==> Becomes(pieces[k], replaced[k], target, replacement)
    ensures Replace(Concat(pieces), target, replacement) == Concat(replaced)
  {
    if pieces != [] {
      var p, rest := pieces[0], Concat(pieces[1..]);
      assert Becomes(p, replaced[0], target, replacement);
      ReplacePieces(pieces[1..], replaced[1..], target, replacement);
      if p == target {
        ReplaceAtFront(rest, target, replacement);
      } else if '$' !in p {
        ReplaceSkipsPrefix(p, rest, target, replacement);
      } else {
        ReplaceSkipsOther(p, rest, target, replacement, 2);
      }
    }
  }

  /** The literal pieces of the template hold no `$`. */
  lemma TemplateTextHasNoDollar()
    ensures '$' !in UrlHead && '$' !in UrlYear && '$' !in UrlMonth && '$' !in UrlTail
  {
    HeadHasNoDollar();
    TailHasNoDollar();
  }

  lemma HeadHasNoDollar()
    ensures '$' !in UrlHead
  {
    assert '$' !in UrlHost;
    assert '$' !in UrlDomain;
    assert '$' !in UrlPath;
    assert '$' !in UrlPage;
    assert '$' !in UrlFormat;
    NoCharInConcat('$', UrlHost, UrlDomain);
    NoCharInConcat('$', UrlHost + UrlDomain, UrlPath);
    NoCharInConcat('$', UrlHost + UrlDomain + UrlPath, UrlPage);
    NoCharInConcat('$', UrlHost + UrlDomain + UrlPath + UrlPage, UrlFormat);
  }

  lemma TailHasNoDollar()
    ensures '$' !in UrlTail
  {
    assert '$' !in UrlDay;
    assert '$' !in UrlSubmit;
    NoCharInConcat('$', UrlDay, UrlSubmit);
  }

  lemma TemplatePieces()
    ensures EnvironmentCanadaWeatherUrlTemplate
      == Concat([UrlHead, "${stationId}", UrlYear, "${year}", UrlMonth, "${month}", UrlTail])
  {
    Concat7(UrlHead, "${stationId}", UrlYear, "${year}", UrlMonth, "${month}", UrlTail);
  }

  /**
   * The three replacements of getEnvironmentCanadaWeatherUrl, on any template whose text
   * between the placeholders holds no `$`, with values that hold no `$`.
   */
  lemma FillPlaceholders(head: string, yearLabel: string, monthLabel: string, tail: string, s: string, y: string, m: string)
    requires '$' !in head && '$' !in yearLabel && '$' !in monthLabel && '$' !in tail
    requires '$' !in s && '$' !in y && '$' !in m
    ensures Replace(Replace(Replace(Concat([head, "${stationId}", yearLabel, "${year}", monthLabel, "${month}", tail]),
      "${stationId}", s), "${year}", y), "${month}", m)
      == Concat([head, s, yearLabel, y, monthLabel, m, tail])
  {
    FillStation(head, yearLabel, monthLabel, tail, s);
    FillYear(head, yearLabel, monthLabel, tail, s, y);
    FillMonth(head, yearLabel, monthLabel, tail, s, y, m);
  }

  lemma FillStation(head: string, yearLabel: string, monthLabel: string, tail: string, s: string)
    requires '$' !in head && '$' !in yearLabel && '$' !in monthLabel && '$' !in tail && '$' !in s
    ensures Replace(Concat([head, "${stationId}", yearLabel, "${year}", monthLabel, "${month}", tail]), "${stationId}", s)
      == Concat([head, s, yearLabel, "${year}", monthLabel, "${month}", tail])
  {
    var t := "${stationId}";
    var pieces := [head, t, yearLabel, "${year}", monthLabel, "${month}", tail];
    var replaced := [head, s, yearLabel, "${year}", monthLabel, "${month}", tail];
    KeptPieces(head, yearLabel, monthLabel, tail, t, s);
    OtherPlaceholder("${year}", t, s);
    OtherPlaceholder("${month}", t, s);
    assert Becomes(t, s, t, s);
    assert pieces[1] == t && replaced[1] == s;
    assert forall k :: 0 <= k < 7 ==> Becomes(pieces[k], replaced[k], t, s);
    ReplacePieces(pieces, replaced, t, s);
  }

  lemma FillYear(head: string, yearLabel: string, monthLabel: string, tail: string, s: string, y: string)
    requires '$' !in head && '$' !in yearLabel && '$' !in monthLabel && '$' !in tail && '$' !in s && '$' !in y
    ensures Replace(Concat([head, s, yearLabel, "${year}", monthLabel, "${month}", tail]), "${year}", y)
      == Concat([head, s, yearLabel, y, monthLabel, "${month}", tail])
  {
    var t := "${year}";
    var pieces := [head, s, yearLabel, t, monthLabel, "${month}", tail];
    var replaced := [head, s, yearLabel, y, monthLabel, "${month}", tail];
    KeptPieces(head, yearLabel, monthLabel, tail, t, y);
    KeptPiece(s, t, y);
    OtherPlaceholder("${month}", t, y);
    assert Becomes(t, y, t, y);
    assert forall k :: 0 <= k < 7 ==> Becomes(pieces[k], replaced[k], t, y);
    ReplacePieces(pieces, replaced, t, y);
  }

  lemma FillMonth(head: string, yearLabel: string, monthLabel: string, tail: string, s: string, y: string, m: string)
    requires '$' !in head && '$' !in yearLabel && '$' !in monthLabel && '$' !in tail
    requires '$' !in s && '$' !in y && '$' !in m
    ensures Replace(Concat([head, s, yearLabel, y, monthLabel, "${month}", tail]), "${month}", m)
      == Concat([head, s, yearLabel, y, monthLabel, m, tail])
  {
    var t := "${month}";
    var pieces := [head, s, yearLabel, y, monthLabel, t, tail];
    var replaced := [head, s, yearLabel, y, monthLabel, m, tail];
    KeptPieces(head, yearLabel, monthLabel, tail, t, m);
    KeptPiece(s, t, m);
    KeptPiece(y, t, m);
    assert Becomes(t, m, t, m);
    assert forall k :: 0 <= k < 7 ==> Becomes(pieces[k], replaced[k], t, m);
    ReplacePieces(pieces, replaced, t, m);
  }

  /** A piece without '$' stays as it is. */
  lemma KeptPiece(piece: string, target: string, replacement: string)
    requires |target| >= 3 && '$' !in piece
    ensures Becomes(piece, piece, target, replacement)
  {
  }

  lemma KeptPieces(head: string, yearLabel: string, monthLabel: string, tail: string, target: string, replacement: string)
    requires |target| >= 3 && '$' !in head && '$' !in yearLabel && '$' !in monthLabel && '$' !in tail
    ensures Becomes(head, head, target, replacement) && Becomes(yearLabel, yearLabel, target, replacement)
    ensures Becomes(monthLabel, monthLabel, target, replacement) && Becomes(tail, tail, target, replacement)
  {
  }

  /** A placeholder other than the target stays as it is. */
  lemma OtherPlaceholder(placeholder: string, target: string, replacement: string)
    requires |target| >= 3 && |placeholder| >= 3 && placeholder[2] != target[2] && '$' !in placeholder[1..]
    ensures Becomes(placeholder, placeholder, target, replacement)
  {
  }

  lemma ConcatCons(first: string, pieces: seq<string>)
    ensures Concat([first] + pieces) == first + Concat(pieces)
  {
    assert ([first] + pieces)[1..] == pieces;
  }

  lemma Concat7(a: string, b: string, c: string, d: string, e: string, f: string, g: string)
    ensures Concat([a, b, c, d, e, f, g]) == a + b + c + d + e + f + g
  {
    ConcatCons(g, []);
    ConcatCons(f, [g]);
    ConcatCons(e, [f, g]);
    Concat4(a, b, c, d, [e, f, g]);
    assert [a, b, c, d] + [e, f, g] == [a, b, c, d, e, f, g];
  }

  lemma Concat4(a: string, b: string, c: string, d: string, rest: seq<string>)
    ensures Concat([a, b, c, d] + rest) == a + b + c + d + Concat(rest)
  {
    ConcatCons(d, rest);
    ConcatCons(c, [d] + rest);
    ConcatCons(b, [c] + ([d] + rest));
    ConcatCons(a, [b] + ([c] + ([d] + rest)));
    assert [a] + ([b] + ([c] + ([d] + rest))) == [a, b, c, d] + rest;
  }

  /**
   * The fallback loses no text: the header line, a terminator and the raw records' lines
   * with their terminators give back the file (with a terminator added after a last line
   * that had none).
   */
  lemma FallbackKeepsText(content: string)
    requires Lines(content) != []
    ensures var records := FallbackRecords(content);
      (forall k :: 0 <= k < |records| ==> IsRawRecord(records[k])) &&
      Lines(content)[0] + "\n" + Unlines(RawTexts(records))
        == if content[|content| - 1] == '\n' then content else content + "\n"
  {
    var lines := Lines(content);
    var records := FallbackRecords(content);
    RawTextsOfRawLines(lines[1..]);
    assert lines == [lines[0]] + lines[1..];
    UnlinesCons(lines[0], lines[1..]);
    UnlinesLines(content);
  }

  lemma {:induction false} RawTextsOfRawLines(lines: seq<string>)
    ensures forall k :: 0 <= k < |RawLines(lines)| ==> RawLines(lines)[k].dateTime.Some?
    ensures RawTexts(RawLines(lines)) == lines
  {
    if lines != [] {
      RawTextsOfRawLines(lines[1..]);
      assert RawLines(lines)[1..] == RawLines(lines[1..]);
    }
  }
}
