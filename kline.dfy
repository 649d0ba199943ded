/** The candle record of the exporter and the orderings the pipeline promises about it. */
module Klines {

  /**
   * One candle. Prices and volumes are exact reals (the program uses binary floats);
   * times are integer epoch milliseconds.
   */
  datatype Kline = Kline(
    openTimeMs: int,
    open: real,
    high: real,
    low: real,
    close: real,
    volume: real,
    closeTimeMs: int,
    quoteVolume: real,
    trades: int,
    takerBuyBaseVolume: real,
    takerBuyQuoteVolume: real)

  /** Open times strictly increase along the series, so no two records share one. */
  predicate StrictlyIncreasing(ks: seq<Kline>)
  {
    forall i, j :: 0 <= i < j < |ks| ==> ks[i].openTimeMs < ks[j].openTimeMs
  }

  /** Every record opens at or after `t`. */
  predicate AllAtOrAfter(ks: seq<Kline>, t: int)
  {
    forall i :: 0 <= i < |ks| ==> t <= ks[i].openTimeMs
  }

  /** Every record opens at or before `t`. */
  predicate AllAtOrBefore(ks: seq<Kline>, t: int)
  {
    forall i :: 0 <= i < |ks| ==> ks[i].openTimeMs <= t
  }

  /** The set of open times present in `ks`. */
  function OpenTimes(ks: seq<Kline>): (ts: set<int>)
    ensures forall i :: 0 <= i < |ks| ==> ks[i].openTimeMs in ts
    ensures forall t :: t in ts ==> exists i :: 0 <= i < |ks| && ks[i].openTimeMs == t
  {
    set i | 0 <= i < |ks| :: ks[i].openTimeMs
  }

  /** The open times of some rows are those of all but the last one, and its open time. */
  lemma OpenTimesLast(ks: seq<Kline>)
    requires ks != []
    ensures OpenTimes(ks) == OpenTimes(ks[..|ks| - 1]) + {ks[|ks| - 1].openTimeMs}
  {
    var n := |ks| - 1;
    assert forall i :: 0 <= i < n ==> ks[i] == ks[..n][i];
  }

  /** A series bounded below by `lo` and above by `hi` can only be non-empty when `lo <= hi`. */
  lemma WithinBounds(ks: seq<Kline>, lo: int, hi: int)
    requires AllAtOrAfter(ks, lo) && AllAtOrBefore(ks, hi)
    ensures ks != [] ==> lo <= hi
  {
    if ks != [] {
      assert lo <= ks[0].openTimeMs <= hi;
    }
  }
}
