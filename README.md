# Weather data cache: a Dafny model

This project models the hourly-weather downloader of the `ca.tjug` sandbox. It has three parts:

- `WeatherDataService` fetches one month of observations of an Environment Canada station. It goes through a cache directory with one CSV file per station and month.
- `WeatherDataPoint` is the observation record. Its `getDateTime` turns the record's date and time columns into a local date-time.
- `HelloJava25.main` is the batch program. It expands a range of years into months, fetches every month and merges the results in month order.

Modules, one per file:

| file | module | what it holds |
|---|---|---|
| `wrappers.dfy` | `Wrappers` | `Option` and `Result` |
| `decimal.dfy` | `Decimal` | decimal text of integers: `Integer.toString`, `%0Nd` zero padding, digit parsing |
| `text.dfy` | `Text` | `String.replace` and the line split of `Files.lines`, with the model's own first-occurrence search `IndexOf` as a helper |
| `iso_date_time.dfy` | `IsoDateTime` | `LocalDateTime`, `YearMonth`, the calendar rules, the `ISO_LOCAL_DATE_TIME` parser, and a printer of the extended form `YYYY-MM-DDThh:mm:ss[.fffffffff]` used to state the round trip |
| `weather_data_point.dfy` | `WeatherDataPoints` | the record, `getDateTime` and the raw-line constructor |
| `weather_data_service.dfy` | `WeatherDataServices` | the cache path, the download address, the fallback parser, and the service as a class with a cache field |
| `batch.dfy` | `Batch` | the month expansion and the ordered merge of the per-month results |

The cache directory is the field `cache: map<string, string>`. It maps a file's path, relative to the directory, to its contents. `Files.exists` is membership in the map.

The HTTP exchange is an input of `FetchWeatherData`: either a `Response(status, body)` or a `TransportFailure`. The structured CSV reader is the service's constant `readCsv`, where `None` stands for the `IOException` it throws.

Facts proved about the model:

- The cache path is `<station>/<YYYY-MM>.csv` and can be parsed back to its station and month, so distinct keys give distinct files.
- The download address is the template with the three `${...}` placeholders replaced by plain decimal values. The rest is unchanged and no `$` is left.
- A cache hit downloads nothing and changes nothing. A miss stores the response body before the status is checked. Only the requested entry can change.
- The fallback parser gives one raw-line record per line after the header, in file order, and loses no text.
- `getDateTime` decides in the same order as the record's code. For years 0..9999, a valid date and an HH:MM:SS time, the composed `%04d-%02d-%02dT%s` text reads back as the values it was built from. For years 0..9999, the ISO extended text of any valid date-time reads back as that date-time.
- The batch has 12 months per year, in strictly increasing calendar order, each with its own cache file. A successful merge holds every month's records at their place, one list after the other.

Two behaviours of the code that the model keeps:

- The code writes the body to the cache path before it looks at the status, so a reply with a status other than 200 raises the error and leaves its body cached.
- `getDateTime` tries the composed year/month/day/time fallback only when the date-time text is present and non-empty.

## Model

| member | source | states |
|---|---|---|
| Decimal.NatTextValue | src/main/java/ca/tjug/WeatherDataService.java:97-99 | the decimal text of a natural number reads back as that number |
| Decimal.IntTextRoundTrip | src/main/java/ca/tjug/WeatherDataService.java:97-99 | `String.valueOf` of any int, negative included, parses back to the same int |
| Decimal.IntTextInjective | src/main/java/ca/tjug/WeatherDataService.java:39 | two ints with the same decimal text are equal |
| Decimal.ParseDigits | src/main/java/ca/tjug/WeatherDataService.java:39 | a digit string reads back as its value, and with a minus sign in front as its negation |
| Decimal.IntText | src/main/java/ca/tjug/WeatherDataService.java:97-99 | `String.valueOf` of an int: at least one character, a leading '-' exactly for a negative value, digits after it; IntTextRoundTrip states that it reads back |
| Decimal.IntTextChars | src/main/java/ca/tjug/WeatherDataService.java:97-99 | the decimal text of an int holds only digits and '-' |
| Decimal.PadDigits | src/main/java/ca/tjug/WeatherDataPoint.java:46 | zero padding gives only digits, at least the width, at least one digit |
| Decimal.PadDigitsValue | src/main/java/ca/tjug/WeatherDataPoint.java:46 | zero-padded text reads back as the number, whatever the width |
| Decimal.PadDigitsLength | src/main/java/ca/tjug/WeatherDataPoint.java:46 | a number below 10^width pads to exactly width digits |
| Decimal.ZeroPad | src/main/java/ca/tjug/WeatherDataPoint.java:46 | `%0Nd`: at least the width and one character, a leading '-' exactly for a negative value (counted in the width), digits after it; ZeroPadNonNegative states that it reads back |
| Decimal.ZeroPadNonNegative | src/main/java/ca/tjug/WeatherDataPoint.java:46 | `%0Nd` of a non-negative int is its zero-padded digits and reads back as it |
| Text.IndexOf | src/main/java/ca/tjug/WeatherDataService.java:88 | the first index of a character, or None exactly when it does not occur |
| Text.Replace | src/main/java/ca/tjug/WeatherDataService.java:96-99 | a replacement as long as the target keeps the length, and replacing a target by itself changes nothing; the lemmas below state the left-to-right scan |
| Text.ReplaceAbsent | src/main/java/ca/tjug/WeatherDataService.java:96-99 | replacing a target that cannot start anywhere in the text leaves the text unchanged |
| Text.ReplaceAtFront | src/main/java/ca/tjug/WeatherDataService.java:96-99 | an occurrence at the front is replaced and the scan goes on after it |
| Text.ReplaceSkipsPrefix | src/main/java/ca/tjug/WeatherDataService.java:96-99 | a prefix that holds no first character of the target is copied unchanged |
| Text.Lines | src/main/java/ca/tjug/WeatherDataService.java:88 | no line of the split holds a line terminator, and only the empty text has no lines; UnlinesLines states that the split loses nothing |
| Text.UnlinesLines | src/main/java/ca/tjug/WeatherDataService.java:88 | the lines joined with terminators give back the text, with a terminator added after an unterminated last line |
| Text.TwoLines | src/main/java/ca/tjug/WeatherDataService.java:88-89 | a terminator-free line, a terminator and a terminator-free non-empty rest split into exactly those two lines |
| IsoDateTime.DaysInMonth | src/main/java/ca/tjug/WeatherDataPoint.java:42 | every month has 28 to 31 days (Gregorian leap years) |
| IsoDateTime.ParseLocalTime | src/main/java/ca/tjug/WeatherDataPoint.java:42 | an accepted time of day is a valid hour, minute, second and nanosecond |
| IsoDateTime.ParseIsoLocalDateTime | src/main/java/ca/tjug/WeatherDataPoint.java:42 | an accepted text is a real calendar date with a four-digit year and a valid time of day |
| IsoDateTime.TimeTextRoundTrip | src/main/java/ca/tjug/WeatherDataPoint.java:48 | every valid time of day, formatted as `HH:MM:SS[.fffffffff]`, parses back to itself |
| IsoDateTime.IsoTextRoundTrip | src/main/java/ca/tjug/WeatherDataPoint.java:42 | every valid date-time with year 0..9999, in ISO extended form, parses back to itself |
| IsoDateTime.YearMonthText | src/main/java/ca/tjug/WeatherDataService.java:39 | `YearMonth.toString`: at least seven characters, a leading '-' exactly for a negative year, a '-' and two month digits at the end |
| IsoDateTime.YearTextValue | src/main/java/ca/tjug/WeatherDataService.java:39 | the year part of `YearMonth.toString` reads back as the year, sign included |
| WeatherDataPoints.RawLine | src/main/java/ca/tjug/WeatherDataPoint.java:66-69 | the raw-line constructor sets the date-time text to the line and leaves the other twelve fields missing |
| WeatherDataPoints.RawLineInverse | src/main/java/ca/tjug/WeatherDataPoint.java:66-69 | every raw record is the raw-line record of its own text |
| WeatherDataPoints.GetDateTime | src/main/java/ca/tjug/WeatherDataPoint.java:39-57 | any timestamp returned is a real date and time of day with a four-digit year |
| WeatherDataPoints.NoTextNoTimestamp | src/main/java/ca/tjug/WeatherDataPoint.java:40-56 | a missing or empty date-time text gives no timestamp, even with every component present |
| WeatherDataPoints.ParsedTextIsTimestamp | src/main/java/ca/tjug/WeatherDataPoint.java:42 | a date-time text that parses is the timestamp |
| WeatherDataPoints.IncompleteComponentsNoTimestamp | src/main/java/ca/tjug/WeatherDataPoint.java:43-56 | an unparsable text with any of year, month, day or time missing gives no timestamp |
| WeatherDataPoints.ComponentFallback | src/main/java/ca/tjug/WeatherDataPoint.java:45-52 | an unparsable non-empty text with all four components gives the parse of the composed text (missing if that fails too) |
| WeatherDataPoints.ComposedDateTime | src/main/java/ca/tjug/WeatherDataPoint.java:46 | the composed text has at least eleven characters before the time, a leading '-' exactly for a negative year, and ends with 'T' and the time as given; ComposedRoundTrip states that it reads back |
| WeatherDataPoints.ComposedRoundTrip | src/main/java/ca/tjug/WeatherDataPoint.java:46-48 | the composed text of a valid date with year 0..9999 and an `HH:MM:SS` time parses back to those values |
| WeatherDataPoints.ComponentTimestamp | src/main/java/ca/tjug/WeatherDataPoint.java:43-48 | a record with an unparsable text and valid components gets the timestamp of its components |
| WeatherDataPoints.RawLineTimestamp | src/main/java/ca/tjug/WeatherDataPoint.java:40-68 | a raw-line record's timestamp is the parse of its line (none for an empty line); the component fallback never applies |
| WeatherDataPoints.TestRecordTimestamp | src/test/java/ca/tjug/WeatherDataServiceTest.java:96-109 | the test record's "2023-01-01T12:30:45" is 12:30:45 on 1 January 2023 |
| WeatherDataServices.CachePath | src/main/java/ca/tjug/WeatherDataService.java:39 | the path begins with the station's text, then a '/', then the `YearMonth.toString` text (at least seven characters), and ends with ".csv"; CachePathRoundTrip states that it reads back |
| WeatherDataServices.CachePathRoundTrip | src/main/java/ca/tjug/WeatherDataService.java:39 | the station and month can be read back from their cache path |
| WeatherDataServices.CachePathInjective | src/main/java/ca/tjug/WeatherDataService.java:39 | distinct (station, month) keys give distinct cache paths |
| WeatherDataServices.CachePathShape | src/main/java/ca/tjug/WeatherDataService.java:39 | for a four-digit year the path is station, '/', four year digits, '-', two month digits, ".csv" |
| WeatherDataServices.CachePathExample | src/test/java/ca/tjug/WeatherDataServiceTest.java:57-60 | station 31688 and January 2023 have the file "31688/2023-01.csv" |
| WeatherDataServices.TemplateTextHasNoDollar | src/main/java/ca/tjug/WeatherDataService.java:102-105 | the literal text of the template holds no '$' outside its three placeholders |
| WeatherDataServices.EnvironmentCanadaWeatherUrl | src/main/java/ca/tjug/WeatherDataService.java:95-100 | the address is the template with station, year and month in plain decimal in place of the placeholders, the rest unchanged and no '$' left |
| WeatherDataServices.ReplacePieces | src/main/java/ca/tjug/WeatherDataService.java:96-99 | replacing a placeholder in a text made of pieces replaces exactly the pieces that are that placeholder |
| WeatherDataServices.RawLines | src/main/java/ca/tjug/WeatherDataService.java:88-91 | one raw-line record per line, in order |
| WeatherDataServices.FallbackRecords | src/main/java/ca/tjug/WeatherDataService.java:85-91 | one record per line after the first, in file order, each the raw-line record of its line |
| WeatherDataServices.FallbackKeepsText | src/main/java/ca/tjug/WeatherDataService.java:88-91 | the header line and the raw records' texts, joined with terminators, give back the file |
| WeatherDataServices.RawTextsOfRawLines | src/main/java/ca/tjug/WeatherDataService.java:90 | the texts of the raw-line records are the lines they were made from |
| WeatherDataServices.ReadRecords | src/main/java/ca/tjug/WeatherDataService.java:82-91 | the structured reading when it succeeds, otherwise the fallback records |
| WeatherDataServices.WeatherDataService.constructor | src/main/java/ca/tjug/WeatherDataService.java:22-25 | the service starts with the given cache contents and reader |
| WeatherDataServices.WeatherDataService.FetchWeatherData | src/main/java/ca/tjug/WeatherDataService.java:38-93 | hit: no request, cache unchanged, the parse of the stored file. Miss: a request to the month's address. A transport failure stores nothing and fails. A response stores its body under the path whatever its status, then gives the parse of the body for 200 and an HTTP-status error otherwise. Other entries unchanged, no other path added |
| WeatherDataServices.FetchTwice | src/main/java/ca/tjug/WeatherDataService.java:39-56 | after a first call that got a response, a repeat call makes no request, keeps the cache and parses the stored file, which holds the failed body when the first status was not 200 |
| WeatherDataServices.CachedFileIsLoaded | src/test/java/ca/tjug/WeatherDataServiceTest.java:51-89 | with a header line and one data row cached as "31688/2023-01.csv", fetching January 2023 for station 31688 makes no request and parses that file; the fallback would give the data row as one record |
| WeatherDataServices.HeaderAndRowFallback | src/test/java/ca/tjug/WeatherDataServiceTest.java:63-65 | the fallback reading of a header line and one data row is exactly that row as one raw record |
| Batch.MonthsOf | src/main/java/ca/tjug/HelloJava25.java:15-17 | twelve months of the year, month k+1 at place k |
| Batch.YearMonths | src/main/java/ca/tjug/HelloJava25.java:13-18 | 12 × (end − start) months; entry k is month k mod 12 + 1 of year start + k div 12 |
| Batch.CheckedYearMonths | src/main/java/ca/tjug/HelloJava25.java:13-18 | the throw of `YearMonth.of` (None) happens exactly when some month of the expansion is invalid: on None the first or the last month is invalid, otherwise the result is the whole expansion with every month valid |
| Batch.YearMonthsOrdered | src/main/java/ca/tjug/HelloJava25.java:13-17 | the expansion is strictly increasing in calendar order, months 1..12, years from start up to but not including end |
| Batch.DistinctCachePaths | src/main/java/ca/tjug/HelloJava25.java:15-23 | every entry is a valid YearMonth and no two entries share a cache file |
| Batch.ProgramRange | src/main/java/ca/tjug/HelloJava25.java:4-18 | the program's range is 48 months, from 2020-01 to 2023-12 |
| Batch.Outcomes | src/main/java/ca/tjug/HelloJava25.java:22-24 | one subtask per month, in the order of the list, each with its month's outcome |
| Batch.Values | src/main/java/ca/tjug/HelloJava25.java:27-28 | the records of each successful subtask, in subtask order |
| Batch.MergeResults | src/main/java/ca/tjug/HelloJava25.java:25-29 | a merged list exactly when every subtask succeeded, and then the subtasks' lists concatenated in order |
| Batch.BatchSucceeds | src/main/java/ca/tjug/HelloJava25.java:21-25 | the batch succeeds exactly when every month's fetch succeeds |
| Batch.MergeSize | src/main/java/ca/tjug/HelloJava25.java:27-31 | a successful merge has as many records as all subtasks together |
| Batch.MergeAt | src/main/java/ca/tjug/HelloJava25.java:27-29 | record j of subtask i sits right after all records of the subtasks before i |
| Batch.FlattenSize | src/main/java/ca/tjug/HelloJava25.java:27-31 | concatenating lists gives the sum of their lengths |
| Batch.FlattenAppend | src/main/java/ca/tjug/HelloJava25.java:27-29 | concatenating two runs of lists is concatenating each and joining them |
| Batch.FlattenAt | src/main/java/ca/tjug/HelloJava25.java:27-29 | element j of list i sits at the offset of the lists before it plus j |

## Left out

- The HTTP client and the network. The reply is the input `HttpReply`. A transport failure is taken to write nothing. A failure partway through writing a body, which leaves a partial file, is not modelled.
- The structured CSV reader: header matching, column reordering, empty-line skipping, trimming and unmappable columns. It is the parameter `readCsv`. The cached-file test's expectation that every column is read therefore depends on it and is not proved.
- The `Double` columns. They are kept as the text of their column, since floating point is not modelled.
- `mkdirs`, resolving paths against the cache directory and `user.home`, and file-system errors. The cache is a map keyed by relative path.
- Bytes and character decoding. The cache holds decoded text, not bytes. `Files.lines` decodes UTF-8 and, on a file that is not valid UTF-8, throws `UncheckedIOException` inside the catch block, so `fetchWeatherData` throws; that failure of the fallback is not modelled.
- Line terminators other than '\n'. `Files.lines` also splits at '\r' and "\r\n"; the model splits at '\n' only.
- `StructuredTaskScope` fork/join, the clock, and all printing and logging. The subtasks are a sequence of outcomes in list order. Which exception `join` throws when several subtasks fail depends on timing and is not modelled.
- Batch.YearMonths: requires start <= end. With start > end, `takeWhile` in the program never stops and the program never finishes normally: it runs out of memory, or `YearMonth.of` throws once the year passes 999,999,999. That case is not modelled. Batch.YearMonths itself also lists months whose year lies outside −999,999,999..999,999,999, where the program throws `DateTimeException`; Batch.CheckedYearMonths models that throw.
- The February test expects an error for February. No such rule exists in the code, so the model does not have it.
- Single-flight downloads, atomic renames, retries and strict or tolerant batch modes. None of these are implemented in the code.
- IsoDateTime.ParseIsoLocalDateTime: accepts unsigned four-digit years only. The JDK parser also accepts a '-' followed by four or more digits and a '+' followed by five or more; those texts are unparsable here. So the component fallback of a year of -1000 or below, whose `%04d` text such as "-2023" the JDK reads, gives a timestamp in the JDK but none here.
- The test's concrete header and data row are not spelled out. CachedFileIsLoaded holds for any header line and data row without terminators, the test's two among them.
- Locale-dependent digits in `String.format`. The model uses ASCII digits.
