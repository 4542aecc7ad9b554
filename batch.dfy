/**
 * The batch of `HelloJava25.main`: the months of a range of years, one fetch per month,
 * and the records of all months merged in month order.
 */
module Batch {
  import opened Wrappers
  import opened IsoDateTime
  import opened WeatherDataPoints
  import opened WeatherDataServices

  const StartYear := 2020
  const EndYear := 2024

  /** The twelve months of a year, January first: `Stream.iterate(1, i -> i + 1).limit(12)`. */
  function MonthsOf(year: int): (yms: seq<YearMonth>)
    ensures |yms| == 12
    ensures forall k :: 0 <= k < 12 ==> yms[k] == YearMonth(year, k + 1)
  {
    seq(12, k => YearMonth(year, k + 1))
  }

  /**
   * The months of the years `start` up to but not including `end`, in calendar order:
   * `Stream.iterate(start, y -> y + 1).takeWhile(y -> y != end)` flat-mapped by MonthsOf.
   * The k-th entry is month k % 12 + 1 of year start + k / 12.
   */
  function YearMonths(start: int, end: int): (yms: seq<YearMonth>)
    requires start <= end
    ensures |yms| == 12 * (end - start)
    ensures forall k :: 0 <= k < |yms| ==> yms[k] == YearMonth(start + k / 12, k % 12 + 1)
    decreases end - start
  {
    if start == end then []
    else
      var rest := YearMonths(start + 1, end);
      var yms := MonthsOf(start) + rest;
      assert forall k :: 12 <= k < |yms| ==> yms[k] == rest[k - 12] && (k - 12) / 12 == k / 12 - 1 && (k - 12) % 12 == k % 12;
      yms
  }

  /** Calendar order of months. */
  predicate Before(a: YearMonth, b: YearMonth) {
    a.year < b.year || (a.year == b.year && a.month < b.month)
  }

  /**
   * The expansion is strictly increasing in calendar order, so no month appears twice, and
   * every month is a valid YearMonth when the years are.
   */
  lemma YearMonthsOrdered(start: int, end: int)
    requires start <= end
    ensures forall i, j :: 0 <= i < j < |YearMonths(start, end)| ==> Before(YearMonths(start, end)[i], YearMonths(start, end)[j])
    ensures forall k :: 0 <= k < |YearMonths(start, end)| ==> 1 <= YearMonths(start, end)[k].month <= 12
    ensures forall k :: 0 <= k < |YearMonths(start, end)| ==> start <= YearMonths(start, end)[k].year < end
  {
    var yms := YearMonths(start, end);
    forall i, j | 0 <= i < j < |yms|
      ensures Before(yms[i], yms[j])
    {
      DivModOrder(i, j);
    }
  }

  lemma DivModOrder(i: nat, j: nat)
    requires i < j
    ensures i / 12 < j / 12 || (i / 12 == j / 12 && i % 12 < j % 12)
  {
  }

  /** No two entries of the expansion share a cache file. */
  lemma DistinctCachePaths(start: int, end: int, stationId: int)
    requires start <= end && MinYear <= start && end <= MaxYear + 1
    ensures forall k :: 0 <= k < |YearMonths(start, end)| ==> YearMonths(start, end)[k].Valid()
    ensures forall i, j :: 0 <= i < j < |YearMonths(start, end)| ==>
      CachePath(YearMonths(start, end)[i], stationId) != CachePath(YearMonths(start, end)[j], stationId)
  {
    var yms := YearMonths(start, end);
    YearMonthsOrdered(start, end);
    forall i, j | 0 <= i < j < |yms|
      ensures CachePath(yms[i], stationId) != CachePath(yms[j], stationId)
    {
      if CachePath(yms[i], stationId) == CachePath(yms[j], stationId) {
        CachePathInjective(yms[i], stationId, yms[j], stationId);
      }
    }
  }

  /**
   * The expansion as the program evaluates it: `YearMonth.of` throws `DateTimeException`
   * (None) when the range reaches a year outside the supported ones; otherwise every
   * month of the expansion is a valid YearMonth.
   */
  function CheckedYearMonths(start: int, end: int): (r: Option<seq<YearMonth>>)
    requires start <= end
    ensures r.Some? ==> r.value == YearMonths(start, end) && forall k :: 0 <= k < |r.value| ==> r.value[k].Valid()
    ensures r.None? ==> var yms := YearMonths(start, end); |yms| > 0 && (!yms[0].Valid() || !yms[|yms| - 1].Valid())
  {
    if start == end then Some([])
    else if MinYear <= start && end - 1 <= MaxYear then
      DistinctCachePaths(start, end, 0);
      Some(YearMonths(start, end))
    else
      LastIndex(end - start);
      None
  }

  /** The last of the months of n years is December of the last year. */
  lemma LastIndex(n: int)
    requires 1 <= n
    ensures (12 * n - 1) / 12 == n - 1 && (12 * n - 1) % 12 == 11
  {
  }

  /** The program's range: 48 months, January 2020 to December 2023. */
  lemma ProgramRange()
    ensures |YearMonths(StartYear, EndYear)| == 48
    ensures YearMonths(StartYear, EndYear)[0] == YearMonth(2020, 1)
    ensures YearMonths(StartYear, EndYear)[47] == YearMonth(2023, 12)
  {
  }

  /** The lists concatenated in order: `stream().flatMap(List::stream).toList()`. */
  function Flatten<T>(lists: seq<seq<T>>): seq<T> {
    if lists == [] then [] else lists[0] + Flatten(lists[1..])
  }

  /** The sum of the lengths of the lists. */
  function TotalSize<T>(lists: seq<seq<T>>): nat {
    if lists == [] then 0 else |lists[0]| + TotalSize(lists[1..])
  }

  /** The merged list has as many entries as the lists together. */
  lemma {:induction false} FlattenSize<T>(lists: seq<seq<T>>)
    ensures |Flatten(lists)| == TotalSize(lists)
  {
    if lists != [] {
      FlattenSize(lists[1..]);
    }
  }

  /** Merging two runs of lists is merging each and concatenating. */
  lemma {:induction false} FlattenAppend<T>(a: seq<seq<T>>, b: seq<seq<T>>)
    ensures Flatten(a + b) == Flatten(a) + Flatten(b)
  {
    if a == [] {
      assert a + b == b;
    } else {
      assert (a + b)[1..] == a[1..] + b;
      FlattenAppend(a[1..], b);
    }
  }

  /**
   * Entry j of list i sits in the merged list right after all entries of the lists
   * before it: the merge keeps list order and the order within each list.
   */
  lemma {:induction false} FlattenAt<T>(lists: seq<seq<T>>, i: nat, j: nat)
    requires i < |lists| && j < |lists[i]|
    ensures TotalSize(lists[..i]) + j < |Flatten(lists)|
    ensures Flatten(lists)[TotalSize(lists[..i]) + j] == lists[i][j]
  {
    FlattenSize(lists);
    if i == 0 {
      assert lists[..0] == [];
    } else {
      FlattenAt(lists[1..], i - 1, j);
      assert lists[1..][..i - 1] == lists[..i][1..];
      assert lists[..i][0] == lists[0];
    }
  }

  /** The records of each subtask, in subtask order; defined when every subtask succeeded. */
  function Values<T, E>(outcomes: seq<Result<T, E>>): (values: seq<T>)
    requires forall k :: 0 <= k < |outcomes| ==> outcomes[k].Ok?
    ensures |values| == |outcomes|
    ensures forall k :: 0 <= k < |outcomes| ==> values[k] == outcomes[k].value
  {
    if outcomes == [] then [] else [outcomes[0].value] + Values(outcomes[1..])
  }

  /**
   * `scope.join()` followed by the merge: when every subtask returned its records, the
   * merged list of all of them in subtask order; when some subtask threw, `join` throws
   * and there is no list (which exception is thrown depends on timing and is not modelled).
   */
  function MergeResults(outcomes: seq<Result<seq<WeatherDataPoint>, FetchError>>): (merged: Option<seq<WeatherDataPoint>>)
    ensures merged.Some? <==> forall k :: 0 <= k < |outcomes| ==> outcomes[k].Ok?
    ensures merged.Some? ==> merged.value == Flatten(Values(outcomes))
  {
    if forall k :: 0 <= k < |outcomes| ==> outcomes[k].Ok? then Some(Flatten(Values(outcomes))) else None
  }

  /** One subtask per month of the list, in list order, each with the outcome `fetch` gives its month. */
  function Outcomes(yearMonths: seq<YearMonth>, fetch: YearMonth -> Result<seq<WeatherDataPoint>, FetchError>): (outcomes: seq<Result<seq<WeatherDataPoint>, FetchError>>)
    ensures |outcomes| == |yearMonths|
    ensures forall k :: 0 <= k < |yearMonths| ==> outcomes[k] == fetch(yearMonths[k])
  {
    if yearMonths == [] then [] else [fetch(yearMonths[0])] + Outcomes(yearMonths[1..], fetch)
  }

  /** The batch succeeds exactly when the fetch of every month of the list succeeds. */
  lemma BatchSucceeds(yearMonths: seq<YearMonth>, fetch: YearMonth -> Result<seq<WeatherDataPoint>, FetchError>)
    ensures MergeResults(Outcomes(yearMonths, fetch)).Some? <==> forall k :: 0 <= k < |yearMonths| ==> fetch(yearMonths[k]).Ok?
  {
    var outcomes := Outcomes(yearMonths, fetch);
    if forall k :: 0 <= k < |yearMonths| ==> fetch(yearMonths[k]).Ok? {
      assert forall k :: 0 <= k < |outcomes| ==> outcomes[k].Ok?;
    } else {
      var k :| 0 <= k < |yearMonths| && !fetch(yearMonths[k]).Ok?;
      assert !outcomes[k].Ok?;
    }
  }

  /** A successful merge has as many records as all subtasks together. */
  lemma MergeSize(outcomes: seq<Result<seq<WeatherDataPoint>, FetchError>>)
    requires forall k :: 0 <= k < |outcomes| ==> outcomes[k].Ok?
    ensures MergeResults(outcomes).Some?
    ensures |MergeResults(outcomes).value| == TotalSize(Values(outcomes))
  {
    FlattenSize(Values(outcomes));
  }

  /**
   * Record j of subtask i is in the merged list right after the records of the subtasks
   * before it: the merge keeps subtask order and each subtask's own order.
   */
  lemma MergeAt(outcomes: seq<Result<seq<WeatherDataPoint>, FetchError>>, i: nat, j: nat)
    requires forall k :: 0 <= k < |outcomes| ==> outcomes[k].Ok?
    requires i < |outcomes| && j < |outcomes[i].value|
    ensures MergeResults(outcomes).Some?
    ensures TotalSize(Values(outcomes)[..i]) + j < |MergeResults(outcomes).value|
    ensures MergeResults(outcomes).value[TotalSize(Values(outcomes)[..i]) + j] == outcomes[i].value[j]
  {
    FlattenAt(Values(outcomes), i, j);
  }
}
