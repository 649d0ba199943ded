# Binance OHLCV exporter: a verified model of its core

The exporter downloads spot candles (OHLCV "klines") for a symbol and an interval from the
public Binance market-data endpoint `/api/v3/klines` and writes them to CSV, along with a
per-symbol summary of price changes and average daily volumes. This project models the part
of `binance_ohlcv_exporter.py` that decides what ends up in those files:

- the `Kline` record (`kline.dfy`, module `Klines`);
- `_request_with_retry` (`retry.dfy`, module `Retry`). This is one GET retried with exponential
  backoff (`2 ** attempt` seconds) on connection errors, timeouts and HTTP 429. Other HTTP errors
  are raised at once. The transport is an oracle `outcomes(i)`, the result of the (i+1)-th call.
  Sleeps are recorded, not performed;
- the pagination loop of `fetch_klines` (`pagination.dfy`, module `Pagination`). Each page is
  queried with `limit=1000`. The cursor then moves one millisecond past the last open time of
  a full page. The loop stops on an empty page, on a short page, or on a page that reaches
  `end_ms`. The exchange is a `Server`: `server(req, a)` is the outcome of the (a+1)-th call for
  query `req`;
- the tail of `fetch_klines` (`merge.dfy`, module `Merge`). Rows are de-duplicated by open time
  (the last row wins), listed in ascending open time, and cut at `end_ms`;
- `calc_metrics` with `close_at_or_after` (`metrics.dfy`, module `Metrics`);
- `ms_to_utc_iso`, `parse_dt_utc` and `get_range` (`civil_time.dfy`, module `CivilTime`). These
  rest on the era-based conversion between day numbers and proleptic Gregorian dates, proved
  to be a bijection on valid dates.

`wrappers.dfy` holds `Option` and `Result`. `int_sets.dfy` holds the ascending listing of a
finite set of integers (`sorted(dedup.keys())`) and sums over map keys (`sum(d.values())`).

Every loop of the modelled core is a `method` whose `ensures` ties its result to a specification
function. The properties the source promises are proved about those functions as lemmas.

## Model

| member | source | states |
|---|---|---|
| Retry.RequestWithRetry | binance_ohlcv_exporter.py:112-140 | The loop's reply, its number of transport calls and its sleeps are exactly the run `RetrySpec` describes. |
| Retry.RetryFromShape | binance_ohlcv_exporter.py:122-139 | From any attempt on: at most the remaining attempts are made; none only when no attempt remains; the k-th sleep is `2 ** (attempt + k)`; every call but the last was a network error or a 429. |
| Retry.RetryFromEnding | binance_ohlcv_exporter.py:122-140 | How a run from any attempt ends. A success returns that page. A retryable failure on the last attempt ends as `[]` only for a 429. A connection error is re-raised only on the last attempt. Any other status is raised at once, after one sleep per earlier failure. |
| Retry.RetryCallBound | binance_ohlcv_exporter.py:122 | At most `retries` calls are made, and none exactly when `retries < 1`. |
| Retry.RetryBackoffSchedule | binance_ohlcv_exporter.py:130-137 | The i-th sleep lasts `2 ** (i + 1)` seconds, there is at most one sleep per call, and every call before the last failed retryably. |
| Retry.RetryEnding | binance_ohlcv_exporter.py:122-140 | The four ways `_request_with_retry` ends, each tied to the outcome of its last call and to the number of calls and sleeps. |
| Retry.RetryNoAttempts | binance_ohlcv_exporter.py:122-140 | With `retries < 1` the loop body never runs and `[]` is returned without a call. |
| Retry.RetryImmediateSuccess | tests/test_exporter.py:287-296 | A first call that succeeds returns its page after exactly one call and no sleep. |
| Retry.RetryNonRetryableStatus | tests/test_exporter.py:349-362 | A first HTTP error other than 429 is raised after one call, without retrying. |
| Retry.RetryOneFailureThenSuccess | tests/test_exporter.py:298-347 | One connection error or one 429, then success: the second page, two calls, one sleep of 2 s. |
| Retry.RetryTwoFailuresThenSuccess | binance_ohlcv_exporter.py:130-137 | Two retryable failures and then success: the third page, after three calls and sleeps of 2 s then 4 s. |
| Retry.RetryPersistentNetworkFailure | tests/test_exporter.py:317-326 | With `retries=2` and every call failing to connect, the error is raised after two calls and one sleep. |
| Retry.RetryPersistentRateLimit | binance_ohlcv_exporter.py:133-140 | If every call answers 429, every remaining attempt is made, each followed by its backoff, and the loop falls through to `return []`. |
| Retry.RetryRateLimitedOnLastAttempt | binance_ohlcv_exporter.py:133-140 | Retryable failures followed by a 429 on the last attempt return the empty page after `retries` calls: the "unreachable" `return []` is reached. |
| Retry.RetryRateLimitedTail | binance_ohlcv_exporter.py:133-140 | The same from any attempt: an empty page after all remaining attempts. |
| Pagination.RetryKeepsHonest | binance_ohlcv_exporter.py:161 | A page obtained through the retry loop from an exchange that honours `startTime` holds no candle before it. |
| Pagination.PagesHonest | binance_ohlcv_exporter.py:161 | The same for every query. |
| Pagination.CrawlOnIsJoin | binance_ohlcv_exporter.py:148-193 | The loop-shaped crawl, which carries the rows and queries collected so far, equals those rows and queries followed by the recursive crawl from the same cursor. |
| Pagination.RequestPage | binance_ohlcv_exporter.py:161 | One page request returns what `_request_with_retry` with its default 3 attempts returns for that query. |
| Pagination.Turn | binance_ohlcv_exporter.py:154-190 | One turn of the loop: the query at the cursor is appended to the queries, the page's rows to the rows, and a raised exception becomes the failure. The loop goes on exactly when the page is full and its last candle opens before `end_ms`; the cursor then moves to one past that candle, strictly forward and at most `end_ms`. |
| Pagination.Paginate | binance_ohlcv_exporter.py:148-193 | The `while True` loop collects exactly the rows and queries of the crawl from `start_ms`, and ends with the exception that stopped it, if any. |
| Pagination.FetchKlines | binance_ohlcv_exporter.py:143-203 | `fetch_klines` returns the merge of the crawled rows, or the exception that escaped a query. |
| Pagination.CrawlQueries | binance_ohlcv_exporter.py:154-160 | The first query starts at the cursor, and every query carries the symbol, the interval, `endTime = end_ms` and `limit = 1000`. |
| Pagination.CrawlCursors | binance_ohlcv_exporter.py:184-190 | Query start times strictly increase and never fall below the first cursor. Every later one is at most `end_ms`, one millisecond after a collected candle; which candle is `CrawlPages`. |
| Pagination.CrawlRequests | binance_ohlcv_exporter.py:153-190 | `CrawlQueries` and `CrawlCursors` together. |
| Pagination.CrawlPages | binance_ohlcv_exporter.py:161-190 | Query by query: every query but the last got a full page whose last candle opens before `end_ms`, and the next query starts one millisecond after that candle. The last query raised or got an empty, short or end-reaching page. The collected rows are the pages' rows in query order. |
| Pagination.CrawlAdvances | binance_ohlcv_exporter.py:184-190 | Each query after the first starts one millisecond past the last candle of a full page, for the previous query, that ended before `end_ms`. |
| Pagination.CrawlStops | binance_ohlcv_exporter.py:163-187 | The last query's page is an exception, empty, shorter than 1000 rows, or reaches `end_ms`. |
| Pagination.CrawlRowsArePages | binance_ohlcv_exporter.py:167-182 | The rows collected are the concatenation of the pages fetched, in query order. |
| Pagination.CrawlRowsAfterCursor | binance_ohlcv_exporter.py:153-190 | Every collected row opens at or after `start_ms`. |
| Pagination.CrawlRequestCount | binance_ohlcv_exporter.py:184-190 | The crawl ends: at most one query per millisecond of `[start_ms, end_ms]`, and one when that interval is empty. |
| Pagination.FetchCorrect | binance_ohlcv_exporter.py:143-203 | The result strictly increases in open time and lies within `[start_ms, end_ms]`. Its rows are exactly the last collected row for each open time up to `end_ms`. |
| Pagination.FetchFailsWithItsQuery | binance_ohlcv_exporter.py:161 | `fetch_klines` raises exactly when the retry loop raised for the last query sent. |
| Pagination.CrawlFailsOnLast | binance_ohlcv_exporter.py:161 | A crawl fails exactly when its last query raised, and with that exception. |
| Pagination.FetchEmptyRange | binance_ohlcv_exporter.py:186-203 | A range that ends before it starts gives no candle. |
| Pagination.FetchRateLimitedIsEmpty | binance_ohlcv_exporter.py:133-164 | A first query answered 429 on every attempt makes `fetch_klines` return an empty series instead of raising. |
| Pagination.FetchEmptyFirstPage | binance_ohlcv_exporter.py:163-164 | An empty first page ends the crawl after one query, with an empty series. |
| Pagination.FetchTruncatedByRateLimit | binance_ohlcv_exporter.py:133-164 | A full first page followed by a query rate-limited on every attempt gives the merge of the first page alone, after two queries, and no error. |
| Pagination.CrawlFullThenEmpty | binance_ohlcv_exporter.py:161-190 | A page after which the loop goes on, then an empty page: two queries, the first page's rows, no failure. |
| Pagination.FetchSinglePage | tests/test_exporter.py:370-381 | A short first page is the only page queried, and it is returned as is. |
| Merge.Deduplicate | binance_ohlcv_exporter.py:196-198 | The loop builds `LastWins(rows)`: keyed by exactly the open times present, each row under its own time, and the last row of each time stored. |
| Merge.LastWinsIsLastRow | binance_ohlcv_exporter.py:196-198 | Every entry is the last row with its open time; each such row is the entry; the keys are exactly the open times. |
| Merge.LastWinsKeys | binance_ohlcv_exporter.py:196-198 | The dictionary's keys are the open times of the rows, each entry under its own open time. |
| Merge.LastWinsFromLastRow | binance_ohlcv_exporter.py:196-198 | Every entry is a row that no later row shares its open time with. |
| Merge.LastRowInLastWins | binance_ohlcv_exporter.py:196-198 | Every row that no later row shares its open time with is the entry for that time. |
| Merge.Arrange | binance_ohlcv_exporter.py:199 | One entry per key, each taken from the dictionary. |
| Merge.ArrangeOrdered | binance_ohlcv_exporter.py:199 | Listing in key order is strictly increasing in open time and holds every entry, and only entries. |
| Merge.ArrangeKeys | binance_ohlcv_exporter.py:199 | The i-th listed row is the entry of the i-th smallest key. |
| IntSets.Sorted | binance_ohlcv_exporter.py:199 | `sorted(keys)`: strictly ascending, with exactly the elements of the set. |
| IntSets.Min | binance_ohlcv_exporter.py:199 | The least key, which `sorted` lists first: a member of the set, at most every member. |
| Klines.OpenTimes | binance_ohlcv_exporter.py:196-198 | The open times of a series: each candle's open time, and nothing else. |
| Merge.Trim | binance_ohlcv_exporter.py:202 | It keeps exactly the rows opening at or before `end_ms`, so all kept rows lie at or before it. |
| Merge.TrimOrdered | binance_ohlcv_exporter.py:202 | Filtering keeps a strictly increasing series strictly increasing. |
| Merge.MergeRows | binance_ohlcv_exporter.py:195-203 | The tail of `fetch_klines` computes `Merge(rows, end_ms)`. |
| Merge.MergeCorrect | binance_ohlcv_exporter.py:195-203 | The merge is strictly increasing in open time and ends at or before `end_ms`. It holds a row exactly when that row is the last of its open time and opens at or before `end_ms`. |
| Merge.MergeSound | binance_ohlcv_exporter.py:195-203 | Only such rows are kept. |
| Merge.MergeComplete | binance_ohlcv_exporter.py:195-203 | Every such row is kept. |
| Merge.MergeKeepsEveryTime | binance_ohlcv_exporter.py:195-203 | Every open time at or before `end_ms` that was collected is present. |
| Merge.MergeOfOrdered | binance_ohlcv_exporter.py:195-203 | A strictly increasing series within `end_ms` comes out unchanged. |
| Merge.SameElementsSame | binance_ohlcv_exporter.py:199 | Two strictly increasing series with the same elements are equal. |
| Merge.MergeOfOneTime | binance_ohlcv_exporter.py:196-199 | Repeated copies of one row become that single row. |
| Merge.MergeDeduplicationExample | tests/test_exporter.py:383-391 | The same row twice leaves one row. |
| Merge.MergeTrimExample | tests/test_exporter.py:393-402 | A row beyond `end_ms` is cut and the first row is kept. |
| Metrics.CloseAtOrAfter | binance_ohlcv_exporter.py:254-258 | The loop returns the close of the first candle opening at or after the target, else the close of the last candle. |
| Metrics.PickIndex | binance_ohlcv_exporter.py:254-258 | The picked candle is in the series and its close is the one `close_at_or_after` returns. |
| Metrics.CloseAtOrAfterPicksFirst | binance_ohlcv_exporter.py:254-258 | All candles before the picked one open before the target. The picked one opens at or after it, or is the last candle. |
| Metrics.SkippedAllIsLast | binance_ohlcv_exporter.py:258 | When every candle opens before the target, the last close is returned. |
| Metrics.PctChange | binance_ohlcv_exporter.py:269-270 | The change is NaN (`None`) exactly when the reference close is zero. |
| Metrics.PctChangeMeaning | binance_ohlcv_exporter.py:269-270 | The change times the reference close is 100 times the gain. It is zero exactly when the two closes agree. |
| Metrics.ChangeOverReference | binance_ohlcv_exporter.py:253-270 | The window change compares the last close with the close of the first candle at or after `end - window`. Every earlier candle opens before that start. |
| Metrics.ZeroReferenceIsNan | binance_ohlcv_exporter.py:269-270 | All-zero closes give a NaN change. |
| Metrics.FlatPriceNoChange | tests/test_exporter.py:241-257 | Equal non-zero closes give a change of exactly 0 %. |
| Metrics.DaysOf | binance_ohlcv_exporter.py:273-278 | The days holding a candle: each candle's day and nothing else. |
| Metrics.AddTo | binance_ohlcv_exporter.py:277-278 | `d[day] = d.get(day, 0.0) + x` adds the day to the keys and no other key. |
| Metrics.DayTotalsStep | binance_ohlcv_exporter.py:275-278 | Candle `i` adds its volume to the total of its day. |
| Metrics.DayTotalsKeys | binance_ohlcv_exporter.py:273-278 | The dictionary has one entry per day that holds a candle. |
| Metrics.DayTotalsAreDaySums | binance_ohlcv_exporter.py:273-278 | Each entry is the sum of the volumes of the candles opening that day. |
| Metrics.DaySumOfAbsentDay | binance_ohlcv_exporter.py:273-278 | A day without candles sums to zero. |
| Metrics.DayTotalsConserve | binance_ohlcv_exporter.py:273-281 | The daily totals add up to the total volume of the series. |
| Metrics.Average | binance_ohlcv_exporter.py:280-281 | The average is NaN exactly when there are no days. |
| Metrics.GroupByDay | binance_ohlcv_exporter.py:272-278 | The grouping loop succeeds exactly when every open time can be rendered, and then yields the daily base and quote totals. |
| Metrics.AddCandle | binance_ohlcv_exporter.py:275-278 | One loop step extends both dictionaries from `ks[..i]` to `ks[..i+1]`. |
| Metrics.CalcMetrics | binance_ohlcv_exporter.py:242-282 | `calc_metrics` returns `MetricsSpec(klines)`. |
| Metrics.AverageIsTotalOverDays | binance_ohlcv_exporter.py:272-281 | For a non-empty series the average daily volume is the total volume divided by the number of days holding a candle. |
| Metrics.MetricsOfParts | binance_ohlcv_exporter.py:242-282 | For a non-empty renderable series: both changes over the 90-day and 180-day windows, and both averages as total over days. |
| Metrics.MetricsUndatable | binance_ohlcv_exporter.py:276 | A candle whose open time `ms_to_utc_iso` cannot render makes `calc_metrics` fail. |
| Metrics.MetricsOfEmpty | binance_ohlcv_exporter.py:250-251 | An empty series gives four NaNs. |
| Metrics.AvgDailyTwoDays | tests/test_exporter.py:259-279 | The test's 48 hourly candles from the epoch, volume 100 and quote 5000 on the first day, 200 and 10000 on the second: average daily base volume 3600 and quote volume 180000. |
| Metrics.AvgDailyOfTwoDays | binance_ohlcv_exporter.py:272-281 | On 48 candles over two days, with one amount on the first 24 and another on the rest, the average is the mean of the two daily totals. |
| Metrics.TwoDayTotal | binance_ohlcv_exporter.py:277-278 | The running total over the first `n` candles of such a series. |
| Metrics.TwoDays | binance_ohlcv_exporter.py:276 | 48 hourly candles from the epoch fall on exactly two days, 0 and 1. |
| CivilTime.MsToUtcIso | binance_ohlcv_exporter.py:67-69 | The text exists exactly for the instants of years 1 to 9999, and is 19 characters long with a space at position 10. |
| CivilTime.MsToUtcIsoNamesItsSecond | binance_ohlcv_exporter.py:67-69 | Parsing the text back gives the second that contains `ms`. |
| CivilTime.DatePrefixIsDayNumber | binance_ohlcv_exporter.py:276 | Two instants have the same `[:10]` date prefix exactly when they have the same day number `ms // 86400000`. |
| CivilTime.MsToUtcIsoAt | binance_ohlcv_exporter.py:67-69 | The first millisecond of a valid date and time renders as that date and time. |
| CivilTime.MsToUtcIsoEpoch | tests/test_exporter.py:61-62 | `0` renders as `1970-01-01 00:00:00`. |
| CivilTime.MsToUtcIsoNewYear2024 | tests/test_exporter.py:64-66 | `1704067200000` renders as `2024-01-01 00:00:00`. |
| CivilTime.MsToUtcIsoMidJune2024 | tests/test_exporter.py:68-70 | `1718452800000` renders as `2024-06-15 12:00:00`. |
| CivilTime.DaysFromCivilFromDays | binance_ohlcv_exporter.py:69 | Day number to date and back is the identity. |
| CivilTime.CivilFromDaysFromCivil | binance_ohlcv_exporter.py:69 | Valid date to day number and back is the identity. |
| CivilTime.DaysFromCivilNext | binance_ohlcv_exporter.py:69 | The calendar day after a valid date has the next day number, and is valid while its year is. |
| CivilTime.CivilFromDaysNext | binance_ohlcv_exporter.py:69 | One day number further is the next calendar date. |
| CivilTime.NextInMonth | binance_ohlcv_exporter.py:69 | Inside a month the next day has the next day number. |
| CivilTime.NextMonth | binance_ohlcv_exporter.py:69 | From the last day of a month other than February, the first of the next month has the next day number. |
| CivilTime.NextAfterFebruary | binance_ohlcv_exporter.py:69 | From the last day of February, March 1 has the next day number, in leap and common years. |
| CivilTime.DaysFromCivilInjective | binance_ohlcv_exporter.py:69 | Valid dates and day numbers correspond one to one. |
| CivilTime.CivilFromDaysInRange | binance_ohlcv_exporter.py:69 | Every day number has a month in 1..12 and a day within that month's length. |
| CivilTime.YearInRangeDays | binance_ohlcv_exporter.py:69 | The year is in 1..9999 exactly for day numbers from 0001-01-01 to 9999-12-31. |
| CivilTime.DayBounds | binance_ohlcv_exporter.py:69 | 0001-01-01 and 9999-12-31 are those two day numbers. |
| CivilTime.EpochSecondsFromEpochSeconds | binance_ohlcv_exporter.py:69 | The date and time of an epoch second maps back to that second. |
| CivilTime.FromEpochSecondsEpochSeconds | binance_ohlcv_exporter.py:109 | A valid date and time maps back to itself through its timestamp. |
| CivilTime.ParseDtUtc | binance_ohlcv_exporter.py:87-93 | A success is a valid date and time; a failure names the text. With `ParseIsRendering` and `ParseRenderT`/`ParseRenderDate`, the accepted texts are exactly the renderings of valid dates and times. |
| CivilTime.ParseIsRendering | binance_ohlcv_exporter.py:87-93 | Text that parses is the `T` rendering of its result or, without a `T`, the date rendering of a result at midnight. |
| CivilTime.DateTimeFields | binance_ohlcv_exporter.py:89-90 | Text of the shape `YYYY-MM-DDTHH:MM:SS` whose fields name a valid date and time is that date and time's rendering. |
| CivilTime.DateFields | binance_ohlcv_exporter.py:91-92 | Text of the shape `YYYY-MM-DD` naming a valid date is that date's rendering. |
| CivilTime.ParseRenderT | binance_ohlcv_exporter.py:89-90 | Parsing the `T` rendering of a valid date and time gives it back. |
| CivilTime.ParseRenderDate | binance_ohlcv_exporter.py:91-93 | Parsing the rendering of a valid date gives its midnight. |
| CivilTime.ParseDateOnly | tests/test_exporter.py:78-83 | `2024-01-15` parses as 2024-01-15 00:00:00. |
| CivilTime.ParseDateAndTime | tests/test_exporter.py:85-88 | `2024-06-15T14:30:00` parses as 2024-06-15 14:30:00. |
| CivilTime.ParseMalformed | binance_ohlcv_exporter.py:89-92 | A month of 13 and a form with `/` both fail, naming the text. |
| CivilTime.TruncDivTruncates | binance_ohlcv_exporter.py:109 | `int()` truncates toward zero: the remainder has the sign of the dividend and is smaller than the divisor, and no other quotient has such a remainder. |
| CivilTime.GetRangeExplicit | binance_ohlcv_exporter.py:96-109 | Both bounds given: each is its own timestamp in milliseconds, whatever `days` is. |
| CivilTime.GetRangeBadEnd | binance_ohlcv_exporter.py:98-99 | A malformed end fails with its parse error, before the start is looked at. |
| CivilTime.GetRangeDaysFromEnd | binance_ohlcv_exporter.py:96-109 | End given, start not: the start is exactly `days` days before the end. It fails with an overflow when `days` exceeds what `timedelta` accepts or the start leaves years 1..9999. |
| CivilTime.GetRangeDaysFromNow | binance_ohlcv_exporter.py:100-109 | Neither given, and the start at or after 1970: the range ends at the clock reading, truncated to milliseconds, and spans exactly `days` days. |
| CivilTime.GetRangeTruncatesBeforeEpoch | binance_ohlcv_exporter.py:103-109 | With the clock at 1.5 ms after the epoch, a one-day range is `(-86399998, 1)`: one day less a millisecond. |
| CivilTime.GetRangeExample | tests/test_exporter.py:101-110 | 2024-01-01 to 2024-07-01 is `(1704067200000, 1719792000000)`. |
| CivilTime.GetRangeDaysExample | tests/test_exporter.py:112-118 | 30 days before 2024-02-01 ends at `1706745600000` and starts exactly 30 days earlier. |

## Left out

- Network I/O, the HTTP client, JSON decoding and the `int(row[0])`/`float(row[k])` conversion
  of rows: a page arrives as a sequence of `Kline` records. A body that is not JSON is not modelled.
- The `timeout` argument and the URL: they only reach the HTTP client.
- `time.sleep`: the retry loop records its sleeps. The 0.15 s pause between pages of
  `fetch_klines` is not modelled, because it has no effect on the result.
- Logging, `tqdm`, argument parsing, `main`, and the CSV writers `write_klines_csv` and the
  summary writer. These are output and orchestration around the modelled core.
- An `HTTPError` without a response (`exc.response is None`) is modelled as a status other
  than 429, which is raised at once, just as the source does.
- Floating point: prices and volumes are exact reals, so the rounding of `/`, `*` and of
  `sum` in `calc_metrics` is not modelled. `float("nan")` is `None`.
- Pagination.FetchKlines: requires an exchange that honours `startTime`, so that no page holds
  a candle opening before the query's cursor. The model does not cover an exchange that
  breaks this, where the cursor could move backwards and the loop need not end.
- Pagination.Paginate: requires the same of the pages, for the same reason.
- Metrics.CalcMetrics: the day key is the day number `ms // 86400000`, not the date string.
  `CivilTime.DatePrefixIsDayNumber` proves the two group candles identically.
- CivilTime.MsToUtcIso: `None` stands for the exception `fromtimestamp` raises outside years
  1..9999. The float division `ms / 1000` is taken as exact, so timestamps beyond 2 ** 53
  milliseconds are not modelled as rounded. Platform limits of `fromtimestamp` are not modelled.
  The year is always four digits; on platforms whose `strftime` does not zero-pad `%Y` below
  year 1000, the program's text for those years is shorter, and neither the 19-character shape
  nor `DatePrefixIsDayNumber` describes it there.
- CivilTime.ParseDtUtc: only the fixed-width ASCII forms. `strptime` also accepts fields of one
  digit (`2024-1-5`), a space-padded day (` 5`) and non-ASCII decimal digits, all of which the
  model refuses.
- CivilTime.GetRange: `datetime.now` is the parameter `nowUs`, in microseconds since the epoch.
  `timestamp() * 1000` is taken as exact arithmetic before `int()` truncates it.
- The tests also exercise `_load_symbols_file`, which the program does not define, and pass a
  `sleep_sec` argument that `fetch_klines` does not take. They also build `Kline` with text
  fields. The model follows the program: no symbol file, no `sleep_sec`, numeric fields.
  The exchange sends prices as decimal text; the program converts them to `float`; the model
  uses exact reals.

## Notes

The comment `# unreachable` on the final `return []` of `_request_with_retry` does not hold.
A 429 on the last attempt, after any retryable failures, breaks out of the loop and returns an
empty list (`Retry.RetryRateLimitedOnLastAttempt`). `fetch_klines` then treats that page as the
end of the data. A rate-limited first query therefore yields an empty series rather than an
error (`Pagination.FetchRateLimitedIsEmpty`). The same happens to any later query: after a
full page, a query that stays rate-limited cuts the series short, and `fetch_klines` returns
the earlier pages without an error (`Pagination.FetchTruncatedByRateLimit`). The model keeps
this behaviour as written.

`get_range` truncates milliseconds toward zero with `int()`. For a start before 1970 that
rounds the start up, so a range of `days` days from a clock reading with a fraction of a
millisecond spans one millisecond less (`CivilTime.GetRangeTruncatesBeforeEpoch`). The model
keeps this behaviour as written.
