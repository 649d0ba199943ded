/**
 * `calc_metrics`: the 90-day and 180-day price change of a 1h series, taken against the first
 * candle at or after the start of each window, and the average daily base and quote volume,
 * grouped by UTC calendar day.
 *
 * `None` stands for the `float("nan")` of the source. Days are keyed by their day number
 * `ms / MsPerDay`; `CivilTime.DatePrefixIsDayNumber` shows that this groups candles exactly as
 * the `YYYY-MM-DD` prefix of `ms_to_utc_iso` does.
 */
module Metrics {
  import opened Wrappers
  import opened Klines
  import CivilTime
  import IntSets

  datatype Metrics = Metrics(change90: Option<real>, change180: Option<real>,
                             avgDailyBase: Option<real>, avgDailyQuote: Option<real>)

  /** `int(90 * 24 * 3600 * 1000)` and `int(180 * 24 * 3600 * 1000)`. */
  const Window90Ms := 90 * 24 * 3600 * 1000
  const Window180Ms := 180 * 24 * 3600 * 1000

  /** Which volume column a daily total adds up. */
  datatype Measure = Base | Quote

  function Amount(k: Kline, measure: Measure): real
  {
    match measure
    case Base => k.volume
    case Quote => k.quoteVolume
  }

  // ----- close_at_or_after -----

  /** The close of the first candle opening at or after `target`, else the close of the last one. */
  function CloseAtOrAfterSpec(ks: seq<Kline>, target: int): real
    requires ks != []
  {
    if target <= ks[0].openTimeMs || |ks| == 1 then ks[0].close
    else CloseAtOrAfterSpec(ks[1..], target)
  }

  /** The index of the candle whose close `close_at_or_after` picks. */
  function PickIndex(ks: seq<Kline>, target: int): (i: nat)
    requires ks != []
    ensures i < |ks|
    ensures ks[i].close == CloseAtOrAfterSpec(ks, target)
  {
    if target <= ks[0].openTimeMs || |ks| == 1 then 0
    else 1 + PickIndex(ks[1..], target)
  }

  /**
   * `close_at_or_after` picks the first candle opening at or after `target`, and the last candle
   * when there is none.
   */
  lemma {:induction false} CloseAtOrAfterPicksFirst(ks: seq<Kline>, target: int)
    requires ks != []
    ensures var i := PickIndex(ks, target);
            && (forall j :: 0 <= j < i ==> ks[j].openTimeMs < target)
            && (target <= ks[i].openTimeMs || i == |ks| - 1)
  {
    if !(target <= ks[0].openTimeMs || |ks| == 1) {
      CloseAtOrAfterPicksFirst(ks[1..], target);
      var i := PickIndex(ks, target);
      forall j | 0 <= j < i ensures ks[j].openTimeMs < target {
        if j > 0 {
          assert ks[j] == ks[1..][j - 1];
        }
      }
    }
  }

  /** The nested `close_at_or_after` helper. */
  method CloseAtOrAfter(ks: seq<Kline>, target: int) returns (c: real)
    requires ks != []
    ensures c == CloseAtOrAfterSpec(ks, target)
  {
    var i := 0;
    while i < |ks|
      invariant 0 <= i <= |ks|
      invariant forall j :: 0 <= j < i ==> ks[j].openTimeMs < target
      invariant i < |ks| ==> CloseAtOrAfterSpec(ks, target) == CloseAtOrAfterSpec(ks[i..], target)
    {
      if ks[i].openTimeMs >= target {
        return ks[i].close;
      }
      if i + 1 < |ks| {
        assert ks[i..][1..] == ks[i + 1..];
      }
      i := i + 1;
    }
    c := ks[|ks| - 1].close;
    SkippedAllIsLast(ks, target);
  }

  /** When no candle opens at or after `target`, the last close is picked. */
  lemma {:induction false} SkippedAllIsLast(ks: seq<Kline>, target: int)
    requires ks != []
    requires forall j :: 0 <= j < |ks| ==> ks[j].openTimeMs < target
    ensures CloseAtOrAfterSpec(ks, target) == ks[|ks| - 1].close
  {
    if |ks| > 1 {
      SkippedAllIsLast(ks[1..], target);
    }
  }

  // ----- price change -----

  /** `(c_end / c_ref - 1.0) * 100.0 if c_ref else float("nan")`. */
  function PctChange(cEnd: real, cRef: real): (r: Option<real>)
    ensures r.Some? <==> cRef != 0.0
  {
    if cRef == 0.0 then None else Some((cEnd / cRef - 1.0) * 100.0)
  }

  /** The change is the gain over the reference close, in percent of it; it is zero exactly when the closes agree. */
  lemma PctChangeMeaning(cEnd: real, cRef: real)
    requires cRef != 0.0
    ensures PctChange(cEnd, cRef).value * cRef == (cEnd - cRef) * 100.0
    ensures PctChange(cEnd, cRef).value == 0.0 <==> cEnd == cRef
  {
    var q := cEnd / cRef;
    assert q * cRef == cEnd;
    assert (q - 1.0) * 100.0 * cRef == (q * cRef - cRef) * 100.0;
  }

  // ----- daily volume -----

  /** The UTC day of a millisecond instant, as a day number since 1970-01-01. */
  function DayOf(ms: int): int
  {
    ms / CivilTime.MsPerDay
  }

  /** The days that hold at least one candle. */
  function DaysOf(ks: seq<Kline>): (ds: set<int>)
    ensures forall i :: 0 <= i < |ks| ==> DayOf(ks[i].openTimeMs) in ds
    ensures forall d :: d in ds ==> exists i :: 0 <= i < |ks| && DayOf(ks[i].openTimeMs) == d
  {
    set i | 0 <= i < |ks| :: DayOf(ks[i].openTimeMs)
  }

  /** `day_b[d] = day_b.get(d, 0.0) + x`. */
  function AddTo(m: map<int, real>, d: int, x: real): (r: map<int, real>)
    ensures r.Keys == m.Keys + {d}
  {
    m[d := (if d in m then m[d] else 0.0) + x]
  }

  /** The dictionary `day_b` or `day_q` after the candles `ks`, in order. */
  function DayTotals(ks: seq<Kline>, measure: Measure): map<int, real>
  {
    if ks == [] then map[]
    else
      var k := ks[|ks| - 1];
      AddTo(DayTotals(ks[..|ks| - 1], measure), DayOf(k.openTimeMs), Amount(k, measure))
  }

  /** One step of the grouping loop: candle `i` adds its volume to its day. */
  lemma DayTotalsStep(ks: seq<Kline>, i: int, measure: Measure)
    requires 0 <= i < |ks|
    ensures DayTotals(ks[..i + 1], measure)
            == AddTo(DayTotals(ks[..i], measure), DayOf(ks[i].openTimeMs), Amount(ks[i], measure))
  {
    assert ks[..i + 1][..i] == ks[..i];
  }

  /** The sum of one volume column over all candles. */
  function Total(ks: seq<Kline>, measure: Measure): real
  {
    if ks == [] then 0.0 else Total(ks[..|ks| - 1], measure) + Amount(ks[|ks| - 1], measure)
  }

  /** The sum of one volume column over the candles of day `d`. */
  function DaySum(ks: seq<Kline>, d: int, measure: Measure): real
  {
    if ks == [] then 0.0
    else if DayOf(ks[0].openTimeMs) == d then Amount(ks[0], measure) + DaySum(ks[1..], d, measure)
    else DaySum(ks[1..], d, measure)
  }

  /** `sum(values) / len(values) if values else float("nan")`. */
  function Average(m: map<int, real>): (r: Option<real>)
    ensures r.Some? <==> m.Keys != {}
  {
    if m.Keys == {} then None else Some(IntSets.SumOver(m, m.Keys) / (|m.Keys| as real))
  }

  /** The dictionary has one entry per day that holds a candle. */
  lemma {:induction false} DayTotalsKeys(ks: seq<Kline>, measure: Measure)
    ensures DayTotals(ks, measure).Keys == DaysOf(ks)
  {
    if ks != [] {
      var n := |ks| - 1;
      DayTotalsKeys(ks[..n], measure);
      DaysOfLast(ks);
    }
  }

  /** The days of some candles are the days of all but the last one, and its day. */
  lemma DaysOfLast(ks: seq<Kline>)
    requires ks != []
    ensures DaysOf(ks) == DaysOf(ks[..|ks| - 1]) + {DayOf(ks[|ks| - 1].openTimeMs)}
  {
    var n := |ks| - 1;
    assert forall i :: 0 <= i < n ==> ks[i] == ks[..n][i];
  }

  /** Splitting off the last candle of a day sum. */
  lemma {:induction false} DaySumSnoc(ks: seq<Kline>, k: Kline, d: int, measure: Measure)
    ensures DaySum(ks + [k], d, measure)
            == DaySum(ks, d, measure) + (if DayOf(k.openTimeMs) == d then Amount(k, measure) else 0.0)
    decreases |ks|
  {
    if ks != [] {
      assert (ks + [k])[1..] == ks[1..] + [k];
      DaySumSnoc(ks[1..], k, d, measure);
    } else {
      assert ([] + [k])[1..] == [];
    }
  }

  /** Each entry of the dictionary is the total volume of its day. */
  lemma {:induction false} DayTotalsAreDaySums(ks: seq<Kline>, measure: Measure)
    ensures forall d :: d in DayTotals(ks, measure) ==> DayTotals(ks, measure)[d] == DaySum(ks, d, measure)
  {
    if ks != [] {
      var n := |ks| - 1;
      var init := ks[..n];
      DayTotalsAreDaySums(init, measure);
      DayTotalsKeys(init, measure);
      assert ks == init + [ks[n]];
      forall d | d in DayTotals(ks, measure) ensures DayTotals(ks, measure)[d] == DaySum(ks, d, measure) {
        DaySumSnoc(init, ks[n], d, measure);
        if d !in DayTotals(init, measure) {
          DaySumOfAbsentDay(init, d, measure);
        }
      }
    }
  }

  /** A day with no candle sums to zero. */
  lemma {:induction false} DaySumOfAbsentDay(ks: seq<Kline>, d: int, measure: Measure)
    requires d !in DaysOf(ks)
    ensures DaySum(ks, d, measure) == 0.0
  {
    if ks != [] {
      assert DayOf(ks[0].openTimeMs) in DaysOf(ks);
      assert DaysOf(ks[1..]) <= DaysOf(ks) by {
        forall i | 0 <= i < |ks[1..]| ensures DayOf(ks[1..][i].openTimeMs) in DaysOf(ks) {
          assert ks[1..][i] == ks[i + 1];
        }
      }
      DaySumOfAbsentDay(ks[1..], d, measure);
    }
  }

  /** Grouping by day loses nothing: the daily totals add up to the total volume. */
  lemma {:induction false} DayTotalsConserve(ks: seq<Kline>, measure: Measure)
    ensures var m := DayTotals(ks, measure);
            IntSets.SumOver(m, m.Keys) == Total(ks, measure)
  {
    if ks != [] {
      var n := |ks| - 1;
      var init := ks[..n];
      var m0 := DayTotals(init, measure);
      var m := DayTotals(ks, measure);
      var d := DayOf(ks[n].openTimeMs);
      DayTotalsConserve(init, measure);
      IntSets.SumOverRemove(m, m.Keys, d);
      assert m.Keys - {d} == m0.Keys - {d};
      IntSets.SumOverAgree(m, m0, m.Keys - {d});
      if d in m0 {
        IntSets.SumOverRemove(m0, m0.Keys, d);
      } else {
        assert m0.Keys - {d} == m0.Keys;
      }
    }
  }

  // ----- calc_metrics -----

  /** `ms_to_utc_iso` can render the open time of every candle. */
  predicate AllDatable(ks: seq<Kline>)
  {
    forall i :: 0 <= i < |ks| ==> CivilTime.Renderable(ks[i].openTimeMs)
  }

  /** The price change over the window of `windowMs` before the last candle. */
  function ChangeOver(ks: seq<Kline>, windowMs: int): Option<real>
    requires ks != []
  {
    var last := ks[|ks| - 1];
    PctChange(last.close, CloseAtOrAfterSpec(ks, last.openTimeMs - windowMs))
  }

  /** The average, over the days holding a candle, of the daily total of one volume column. */
  function AvgDaily(ks: seq<Kline>, measure: Measure): Option<real>
  {
    Average(DayTotals(ks, measure))
  }

  /** The four metrics of a non-empty series. */
  function MetricsOf(ks: seq<Kline>): Metrics
    requires ks != []
  {
    Metrics(ChangeOver(ks, Window90Ms), ChangeOver(ks, Window180Ms), AvgDaily(ks, Base), AvgDaily(ks, Quote))
  }

  /**
   * The result of `calc_metrics`: all `None` for an empty series; `Err` where `ms_to_utc_iso`
   * would raise; otherwise both price changes against the last close and both averages.
   */
  function MetricsSpec(ks: seq<Kline>): Result<Metrics, CivilTime.TimeError>
  {
    if ks == [] then Ok(Metrics(None, None, None, None))
    else if !AllDatable(ks) then Err(CivilTime.OutOfRange)
    else Ok(MetricsOf(ks))
  }

  /**
   * The day-grouping loop of `calc_metrics`: it fills `day_b` and `day_q`, and stops where
   * `ms_to_utc_iso` would raise.
   */
  method GroupByDay(klines: seq<Kline>) returns (ok: bool, dayB: map<int, real>, dayQ: map<int, real>)
    ensures ok == AllDatable(klines)
    ensures ok ==> dayB == DayTotals(klines, Base) && dayQ == DayTotals(klines, Quote)
  {
    dayB, dayQ := map[], map[];
    var i := 0;
    while i < |klines|
      invariant 0 <= i <= |klines|
      invariant forall j :: 0 <= j < i ==> CivilTime.Renderable(klines[j].openTimeMs)
      invariant dayB == DayTotals(klines[..i], Base)
      invariant dayQ == DayTotals(klines[..i], Quote)
    {
      var k := klines[i];
      if !CivilTime.Renderable(k.openTimeMs) {
        return false, dayB, dayQ;
      }
      dayB, dayQ := AddCandle(klines, i, dayB, dayQ);
      i := i + 1;
    }
    assert klines[..i] == klines;
    ok := true;
  }

  /** One pass of the grouping loop: candle `i` adds its volumes to its day in both dictionaries. */
  method AddCandle(klines: seq<Kline>, i: int, dayB: map<int, real>, dayQ: map<int, real>)
    returns (dayB': map<int, real>, dayQ': map<int, real>)
    requires 0 <= i < |klines|
    requires dayB == DayTotals(klines[..i], Base) && dayQ == DayTotals(klines[..i], Quote)
    ensures dayB' == DayTotals(klines[..i + 1], Base) && dayQ' == DayTotals(klines[..i + 1], Quote)
  {
    var k := klines[i];
    var day := DayOf(k.openTimeMs);
    DayTotalsStep(klines, i, Base);
    DayTotalsStep(klines, i, Quote);
    dayB' := AddTo(dayB, day, k.volume);
    dayQ' := AddTo(dayQ, day, k.quoteVolume);
  }

  /** `calc_metrics`. */
  method CalcMetrics(klines: seq<Kline>) returns (r: Result<Metrics, CivilTime.TimeError>)
    ensures r == MetricsSpec(klines)
  {
    if klines == [] {
      return Ok(Metrics(None, None, None, None));
    }
    var endMs := klines[|klines| - 1].openTimeMs;
    var cEnd := klines[|klines| - 1].close;
    var c90 := CloseAtOrAfter(klines, endMs - Window90Ms);
    var c180 := CloseAtOrAfter(klines, endMs - Window180Ms);
    var ch90 := PctChange(cEnd, c90);
    var ch180 := PctChange(cEnd, c180);
    var ok, dayB, dayQ := GroupByDay(klines);
    if !ok {
      return Err(CivilTime.OutOfRange);
    }
    var avgB := Average(dayB);
    var avgQ := Average(dayQ);
    r := Ok(Metrics(ch90, ch180, avgB, avgQ));
  }

  // ----- what the metrics promise -----

  /**
   * For a non-empty series, each average daily volume is the total volume divided by
   * the number of distinct UTC days holding a candle.
   */
  lemma AverageIsTotalOverDays(ks: seq<Kline>, measure: Measure)
    requires ks != []
    ensures |DaysOf(ks)| > 0
    ensures AvgDaily(ks, measure) == Some(Total(ks, measure) / (|DaysOf(ks)| as real))
  {
    assert DayOf(ks[0].openTimeMs) in DaysOf(ks);
    DayTotalsKeys(ks, measure);
    DayTotalsConserve(ks, measure);
  }

  /**
   * A price change compares the last close with the close of the first candle that opens at
   * or after `windowMs` before the last candle, or the last candle itself if there is none.
   */
  lemma ChangeOverReference(ks: seq<Kline>, windowMs: int)
    requires ks != [] && windowMs >= 0
    ensures var last := ks[|ks| - 1];
            var i := PickIndex(ks, last.openTimeMs - windowMs);
            && ChangeOver(ks, windowMs) == PctChange(last.close, ks[i].close)
            && (forall j :: 0 <= j < i ==> ks[j].openTimeMs < last.openTimeMs - windowMs)
            && last.openTimeMs - windowMs <= ks[i].openTimeMs
  {
    var last := ks[|ks| - 1];
    CloseAtOrAfterPicksFirst(ks, last.openTimeMs - windowMs);
  }

  /** The metrics of a non-empty series are the two windowed changes and the two averages. */
  lemma MetricsOfParts(ks: seq<Kline>)
    requires ks != [] && AllDatable(ks)
    ensures |DaysOf(ks)| > 0
    ensures MetricsSpec(ks).Ok?
    ensures MetricsSpec(ks).value.change90 == ChangeOver(ks, 90 * 24 * 3600 * 1000)
    ensures MetricsSpec(ks).value.change180 == ChangeOver(ks, 180 * 24 * 3600 * 1000)
    ensures MetricsSpec(ks).value.avgDailyBase == Some(Total(ks, Base) / (|DaysOf(ks)| as real))
    ensures MetricsSpec(ks).value.avgDailyQuote == Some(Total(ks, Quote) / (|DaysOf(ks)| as real))
  {
    AverageIsTotalOverDays(ks, Base);
    AverageIsTotalOverDays(ks, Quote);
  }

  /** A series with a candle `ms_to_utc_iso` cannot render is an error, whatever else it holds. */
  lemma MetricsUndatable(ks: seq<Kline>, i: int)
    requires 0 <= i < |ks| && !CivilTime.Renderable(ks[i].openTimeMs)
    ensures MetricsSpec(ks) == Err(CivilTime.OutOfRange)
  {
  }

  /** An empty series gives `nan` for all four metrics. */
  lemma MetricsOfEmpty()
    ensures MetricsSpec([]) == Ok(Metrics(None, None, None, None))
  {
  }

  /** A flat close price gives a 0% change over any window (the flat-price test of the exporter). */
  lemma FlatPriceNoChange(ks: seq<Kline>, c: real, windowMs: int)
    requires ks != [] && c != 0.0
    requires forall i :: 0 <= i < |ks| ==> ks[i].close == c
    ensures ChangeOver(ks, windowMs) == Some(0.0)
  {
    var last := ks[|ks| - 1];
    var i := PickIndex(ks, last.openTimeMs - windowMs);
    assert ks[i].close == c;
    PctChangeMeaning(c, c);
  }

  /** A zero reference close gives `nan`, as `if c_90` is false for `0.0`. */
  lemma ZeroReferenceIsNan(ks: seq<Kline>, windowMs: int)
    requires ks != []
    requires forall i :: 0 <= i < |ks| ==> ks[i].close == 0.0
    ensures ChangeOver(ks, windowMs) == None
  {
    var last := ks[|ks| - 1];
    var i := PickIndex(ks, last.openTimeMs - windowMs);
    assert ks[i].close == 0.0;
  }

  /** The running total of one column over the first `n` of 48 hourly candles, `lo` a candle on the first day and `hi` on the second. */
  lemma {:induction false} TwoDayTotal(ks: seq<Kline>, measure: Measure, lo: real, hi: real, n: nat)
    requires |ks| == 48 && n <= 48
    requires forall h :: 0 <= h < 48 ==> Amount(ks[h], measure) == if h < 24 then lo else hi
    ensures Total(ks[..n], measure) == if n <= 24 then (n as real) * lo else 24.0 * lo + ((n - 24) as real) * hi
    decreases n
  {
    if n > 0 {
      TwoDayTotal(ks, measure, lo, hi, n - 1);
      assert ks[..n][..n - 1] == ks[..n - 1];
      assert ks[..n][n - 1] == ks[n - 1];
      assert Total(ks[..n], measure) == Total(ks[..n - 1], measure) + Amount(ks[n - 1], measure);
      if n <= 24 {
        assert n as real == ((n - 1) as real) + 1.0;
        OneMore((n - 1) as real, lo);
      } else if n > 25 {
        assert (n - 24) as real == ((n - 25) as real) + 1.0;
        OneMore((n - 25) as real, hi);
      } else {
        assert (n - 24) as real == 1.0;
      }
    } else {
      assert ks[..0] == [];
    }
  }

  lemma OneMore(k: real, x: real)
    ensures (k + 1.0) * x == k * x + x
  {
  }

  /** 48 hourly candles from the epoch open on day 0 for the first 24 hours and on day 1 after. */
  lemma TwoDays(ks: seq<Kline>)
    requires |ks| == 48 && forall h :: 0 <= h < 48 ==> ks[h].openTimeMs == h * 3_600_000
    ensures DaysOf(ks) == {0, 1} && |DaysOf(ks)| == 2
  {
    forall h | 0 <= h < 48 ensures DayOf(ks[h].openTimeMs) == if h < 24 then 0 else 1 {
      if h < 24 {
        assert 0 <= h * 3_600_000 < CivilTime.MsPerDay;
      } else {
        assert CivilTime.MsPerDay <= h * 3_600_000 < 2 * CivilTime.MsPerDay;
      }
    }
    assert DayOf(ks[0].openTimeMs) == 0 && DayOf(ks[24].openTimeMs) == 1;
  }

  /** Two days with the running totals `TwoDayTotal` gives average their mean. */
  lemma AvgDailyOfTwoDays(ks: seq<Kline>, measure: Measure, lo: real, hi: real)
    requires |ks| == 48 && |DaysOf(ks)| == 2
    requires forall h :: 0 <= h < 48 ==> Amount(ks[h], measure) == if h < 24 then lo else hi
    ensures AvgDaily(ks, measure) == Some((24.0 * lo + 24.0 * hi) / 2.0)
  {
    AverageIsTotalOverDays(ks, measure);
    assert ks[..48] == ks;
    TwoDayTotal(ks, measure, lo, hi, 48);
    OverTwo(Total(ks, measure), |DaysOf(ks)|, 24.0 * lo + 24.0 * hi);
  }

  lemma OverTwo(total: real, days: nat, sum: real)
    requires days == 2 && total == sum
    ensures total / (days as real) == sum / 2.0
  {
  }

  /**
   * The exporter's two-day volume example: 48 hourly candles, volume 100 (quote 5000) each on
   * the first day and 200 (quote 10000) each on the second, average 3600 base and 180000 quote
   * a day.
   */
  lemma AvgDailyTwoDays(ks: seq<Kline>)
    requires |ks| == 48
    requires forall h :: 0 <= h < 48 ==> ks[h].openTimeMs == h * 3_600_000
    requires forall h :: 0 <= h < 48 ==> ks[h].volume == if h < 24 then 100.0 else 200.0
    requires forall h :: 0 <= h < 48 ==> ks[h].quoteVolume == if h < 24 then 5000.0 else 10000.0
    ensures AvgDaily(ks, Base) == Some(3600.0)
    ensures AvgDaily(ks, Quote) == Some(180000.0)
  {
    TwoDays(ks);
    AvgDailyOfTwoDays(ks, Base, 100.0, 200.0);
    AvgDailyOfTwoDays(ks, Quote, 5000.0, 10000.0);
  }
}
