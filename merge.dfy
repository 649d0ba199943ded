/**
 * The tail of `fetch_klines`: the raw rows of every page are de-duplicated by open time
 * (the last row for a time wins), put in ascending order of open time, and cut at `end_ms`.
 */
module Merge {
  import opened Klines
  import IntSets

  /** The dictionary `dedup` built by `for k in out: dedup[k.open_time_ms] = k`. */
  function LastWins(rows: seq<Kline>): map<int, Kline>
  {
    if rows == [] then map[]
    else
      var last := rows[|rows| - 1];
      LastWins(rows[..|rows| - 1])[last.openTimeMs := last]
  }

  /** No later row shares the open time of `rows[i]`. */
  predicate LastOfItsTime(rows: seq<Kline>, i: int)
    requires 0 <= i < |rows|
  {
    forall j :: i < j < |rows| ==> rows[j].openTimeMs != rows[i].openTimeMs
  }

  /** Every entry sits under its own open time. */
  predicate KeyedByOpenTime(m: map<int, Kline>)
  {
    forall t :: t in m ==> m[t].openTimeMs == t
  }

  /** The dictionary holds exactly the open times of `rows`, each under its own time. */
  lemma {:induction false} LastWinsKeys(rows: seq<Kline>)
    ensures LastWins(rows).Keys == OpenTimes(rows)
    ensures KeyedByOpenTime(LastWins(rows))
  {
    if rows != [] {
      var n := |rows| - 1;
      LastWinsKeys(rows[..n]);
      OpenTimesLast(rows);
    }
  }

  /** Each entry of the dictionary is the last row with its open time. */
  lemma {:induction false} LastWinsFromLastRow(rows: seq<Kline>)
    ensures forall t :: t in LastWins(rows) ==>
              exists i :: 0 <= i < |rows| && rows[i] == LastWins(rows)[t] && LastOfItsTime(rows, i)
  {
    if rows != [] {
      var n := |rows| - 1;
      var init := rows[..n];
      var last := rows[n];
      LastWinsFromLastRow(init);
      LastWinsKeys(init);
      var m := LastWins(rows);
      assert LastOfItsTime(rows, n);
      forall t | t in m
        ensures exists i :: 0 <= i < |rows| && rows[i] == m[t] && LastOfItsTime(rows, i)
      {
        if t != last.openTimeMs {
          var i :| 0 <= i < |init| && init[i] == LastWins(init)[t] && LastOfItsTime(init, i);
          assert rows[i] == init[i];
          LastWinsEarlierEntry(rows, t, i);
        }
      }
    }
  }

  /** An entry that a row before the last one left stays when the last row has another time. */
  lemma LastWinsEarlierEntry(rows: seq<Kline>, t: int, i: int)
    requires rows != [] && t != rows[|rows| - 1].openTimeMs
    requires 0 <= i < |rows| - 1 && rows[i].openTimeMs == t
    requires t in LastWins(rows[..|rows| - 1]) && rows[i] == LastWins(rows[..|rows| - 1])[t]
    requires LastOfItsTime(rows[..|rows| - 1], i)
    ensures t in LastWins(rows) && rows[i] == LastWins(rows)[t] && LastOfItsTime(rows, i)
  {
    assert forall j :: i < j < |rows| - 1 ==> rows[j] == rows[..|rows| - 1][j];
  }

  /** The last row with each open time is the entry for that time. */
  lemma {:induction false} LastRowInLastWins(rows: seq<Kline>)
    ensures forall i :: 0 <= i < |rows| && LastOfItsTime(rows, i) ==>
              rows[i].openTimeMs in LastWins(rows) && LastWins(rows)[rows[i].openTimeMs] == rows[i]
  {
    if rows != [] {
      var n := |rows| - 1;
      var init := rows[..n];
      LastRowInLastWins(init);
      var m := LastWins(rows);
      forall i | 0 <= i < |rows| && LastOfItsTime(rows, i)
        ensures rows[i].openTimeMs in m && m[rows[i].openTimeMs] == rows[i]
      {
        if i < n {
          assert rows[i] == init[i];
          assert LastOfItsTime(init, i);
        }
      }
    }
  }

  /**
   * The dictionary holds exactly the open times of `rows`, and under each the last row
   * with that open time.
   */
  lemma LastWinsIsLastRow(rows: seq<Kline>)
    ensures LastWins(rows).Keys == OpenTimes(rows)
    ensures KeyedByOpenTime(LastWins(rows))
    ensures forall t :: t in LastWins(rows) ==>
              exists i :: 0 <= i < |rows| && rows[i] == LastWins(rows)[t] && LastOfItsTime(rows, i)
    ensures forall i :: 0 <= i < |rows| && LastOfItsTime(rows, i) ==> LastWins(rows)[rows[i].openTimeMs] == rows[i]
  {
    LastWinsKeys(rows);
    LastWinsFromLastRow(rows);
    LastRowInLastWins(rows);
  }

  /** The de-duplicating loop of `fetch_klines`. */
  method Deduplicate(rows: seq<Kline>) returns (dedup: map<int, Kline>)
    ensures dedup == LastWins(rows)
    ensures dedup.Keys == OpenTimes(rows) && KeyedByOpenTime(dedup)
    ensures forall i :: 0 <= i < |rows| && LastOfItsTime(rows, i) ==> dedup[rows[i].openTimeMs] == rows[i]
  {
    dedup := map[];
    var i := 0;
    while i < |rows|
      invariant 0 <= i <= |rows|
      invariant dedup == LastWins(rows[..i])
    {
      assert rows[..i + 1][..i] == rows[..i];
      dedup := dedup[rows[i].openTimeMs := rows[i]];
      i := i + 1;
    }
    assert rows[..i] == rows;
    LastWinsIsLastRow(rows);
  }

  /** `[dedup[t] for t in sorted(dedup.keys())]`. */
  function Arrange(m: map<int, Kline>): (r: seq<Kline>)
    ensures |r| == |m.Keys|
    ensures forall i :: 0 <= i < |r| ==> r[i] in m.Values
  {
    var keys := IntSets.Sorted(m.Keys);
    assert forall i :: 0 <= i < |keys| ==> keys[i] in m.Keys;
    seq(|keys|, i requires 0 <= i < |keys| => m[keys[i]])
  }

  /**
   * Listing a dictionary keyed by open time in key order gives a strictly increasing series
   * holding each entry of the dictionary.
   */
  lemma ArrangeOrdered(m: map<int, Kline>)
    requires KeyedByOpenTime(m)
    ensures var r := Arrange(m);
            && StrictlyIncreasing(r)
            && (forall i :: 0 <= i < |r| ==> r[i].openTimeMs in m && m[r[i].openTimeMs] == r[i])
            && (forall t :: t in m ==> exists i :: 0 <= i < |r| && r[i].openTimeMs == t)
  {
    var keys := IntSets.Sorted(m.Keys);
    var r := Arrange(m);
    ArrangeKeys(m);
    forall t | t in m ensures exists i :: 0 <= i < |r| && r[i].openTimeMs == t {
      var i :| 0 <= i < |keys| && keys[i] == t;
      assert r[i].openTimeMs == t;
    }
  }

  /** Entry `i` of the listing is the entry under the `i`-th smallest key. */
  lemma ArrangeKeys(m: map<int, Kline>)
    requires KeyedByOpenTime(m)
    ensures var r := Arrange(m);
            forall i :: 0 <= i < |r| ==> r[i].openTimeMs == IntSets.Sorted(m.Keys)[i] && r[i] == m[r[i].openTimeMs]
  {
    var keys := IntSets.Sorted(m.Keys);
    var r := Arrange(m);
    forall i | 0 <= i < |r| ensures r[i].openTimeMs == keys[i] && r[i] == m[r[i].openTimeMs] {
      assert keys[i] in m.Keys;
      assert r[i] == m[keys[i]];
    }
  }

  /** `[k for k in out_sorted if k.open_time_ms <= end_ms]`. */
  function Trim(s: seq<Kline>, endMs: int): (r: seq<Kline>)
    ensures AllAtOrBefore(r, endMs)
    ensures forall k :: k in r <==> k in s && k.openTimeMs <= endMs
  {
    if s == [] then []
    else if s[0].openTimeMs <= endMs then [s[0]] + Trim(s[1..], endMs)
    else Trim(s[1..], endMs)
  }

  /** Filtering keeps the order of a strictly increasing series. */
  lemma {:induction false} TrimOrdered(s: seq<Kline>, endMs: int)
    requires StrictlyIncreasing(s)
    ensures StrictlyIncreasing(Trim(s, endMs))
  {
    if s != [] {
      var rest := Trim(s[1..], endMs);
      TrimOrdered(s[1..], endMs);
      if s[0].openTimeMs <= endMs {
        forall j | 0 <= j < |rest| ensures s[0].openTimeMs < rest[j].openTimeMs {
          assert rest[j] in s[1..];
        }
      }
    }
  }

  /** The result of `fetch_klines` from the rows it collected. */
  function Merge(rows: seq<Kline>, endMs: int): seq<Kline>
  {
    Trim(Arrange(LastWins(rows)), endMs)
  }

  /** The tail of `fetch_klines`: de-duplicate, sort by open time, cut at `endMs`. */
  method MergeRows(rows: seq<Kline>, endMs: int) returns (merged: seq<Kline>)
    ensures merged == Merge(rows, endMs)
  {
    var dedup := Deduplicate(rows);
    var ordered := Arrange(dedup);
    merged := Trim(ordered, endMs);
  }

  /**
   * The merged series is strictly increasing in open time and ends at or before `endMs`, and a
   * record is in it exactly when it is the last collected row with its open time and opens at or
   * before `endMs`.
   */
  lemma MergeCorrect(rows: seq<Kline>, endMs: int)
    ensures var r := Merge(rows, endMs);
            && StrictlyIncreasing(r)
            && AllAtOrBefore(r, endMs)
            && (forall k :: k in r <==>
                  exists i :: 0 <= i < |rows| && rows[i] == k && LastOfItsTime(rows, i) && k.openTimeMs <= endMs)
  {
    var r := Merge(rows, endMs);
    LastWinsKeys(rows);
    ArrangeOrdered(LastWins(rows));
    TrimOrdered(Arrange(LastWins(rows)), endMs);
    forall k | k in r
      ensures exists i :: 0 <= i < |rows| && rows[i] == k && LastOfItsTime(rows, i) && k.openTimeMs <= endMs
    {
      MergeSound(rows, endMs, k);
    }
    forall k | exists i :: 0 <= i < |rows| && rows[i] == k && LastOfItsTime(rows, i) && k.openTimeMs <= endMs
      ensures k in r
    {
      var i :| 0 <= i < |rows| && rows[i] == k && LastOfItsTime(rows, i) && k.openTimeMs <= endMs;
      MergeComplete(rows, endMs, i);
    }
  }

  /** A merged record is the last collected row with its open time. */
  lemma MergeSound(rows: seq<Kline>, endMs: int, k: Kline)
    requires k in Merge(rows, endMs)
    ensures exists i :: 0 <= i < |rows| && rows[i] == k && LastOfItsTime(rows, i) && k.openTimeMs <= endMs
  {
    var m := LastWins(rows);
    LastWinsKeys(rows);
    LastWinsFromLastRow(rows);
    ArrangeOrdered(m);
    var a := Arrange(m);
    assert k in a;
    var j :| 0 <= j < |a| && a[j] == k;
    assert m[k.openTimeMs] == k;
  }

  /** The last collected row with an open time at or before `endMs` is merged. */
  lemma MergeComplete(rows: seq<Kline>, endMs: int, i: int)
    requires 0 <= i < |rows| && LastOfItsTime(rows, i) && rows[i].openTimeMs <= endMs
    ensures rows[i] in Merge(rows, endMs)
  {
    var m := LastWins(rows);
    var t := rows[i].openTimeMs;
    LastWinsKeys(rows);
    LastRowInLastWins(rows);
    ArrangeOrdered(m);
    var a := Arrange(m);
    var j :| 0 <= j < |a| && a[j].openTimeMs == t;
    assert a[j] == m[t] == rows[i];
    assert rows[i] in a;
  }

  /** Every collected open time at or before `endMs` is present in the merged series. */
  lemma MergeKeepsEveryTime(rows: seq<Kline>, endMs: int, i: int)
    requires 0 <= i < |rows| && rows[i].openTimeMs <= endMs
    ensures exists j :: 0 <= j < |Merge(rows, endMs)| && Merge(rows, endMs)[j].openTimeMs == rows[i].openTimeMs
  {
    var t := rows[i].openTimeMs;
    var last := LastIndexOf(rows, i);
    MergeCorrect(rows, endMs);
    assert rows[last] in Merge(rows, endMs);
  }

  /** The index of the last row sharing the open time of `rows[i]`. */
  lemma {:induction false} LastIndexOf(rows: seq<Kline>, i: int) returns (last: int)
    requires 0 <= i < |rows|
    ensures i <= last < |rows| && rows[last].openTimeMs == rows[i].openTimeMs && LastOfItsTime(rows, last)
    decreases |rows| - i
  {
    if LastOfItsTime(rows, i) {
      last := i;
    } else {
      var j :| i < j < |rows| && rows[j].openTimeMs == rows[i].openTimeMs;
      last := LastIndexOf(rows, j);
    }
  }

  /** Merging rows that are already strictly increasing and end by `endMs` changes nothing. */
  lemma MergeOfOrdered(rows: seq<Kline>, endMs: int)
    requires StrictlyIncreasing(rows) && AllAtOrBefore(rows, endMs)
    ensures Merge(rows, endMs) == rows
  {
    MergeCorrect(rows, endMs);
    var r := Merge(rows, endMs);
    forall k ensures k in r <==> k in rows {
      if k in rows {
        var i :| 0 <= i < |rows| && rows[i] == k;
        assert LastOfItsTime(rows, i);
      }
    }
    SameElementsSame(r, rows);
  }

  /** Two strictly increasing series with the same elements are equal. */
  lemma {:induction false} SameElementsSame(a: seq<Kline>, b: seq<Kline>)
    requires StrictlyIncreasing(a) && StrictlyIncreasing(b)
    requires forall k :: k in a <==> k in b
    ensures a == b
    decreases |a|
  {
    assert a != [] ==> a[0] in b;
    assert b != [] ==> b[0] in a;
    if a != [] && b != [] {
      HeadsAgree(a, b);
      TailOf(a, b);
      TailOf(b, a);
      SameElementsSame(a[1..], b[1..]);
      assert a == [a[0]] + a[1..];
      assert b == [b[0]] + b[1..];
    }
  }

  /** The head of a strictly increasing series is its earliest element. */
  lemma HeadsAgree(a: seq<Kline>, b: seq<Kline>)
    requires StrictlyIncreasing(a) && StrictlyIncreasing(b)
    requires forall k :: k in a <==> k in b
    requires a != [] && b != []
    ensures a[0] == b[0]
  {
    assert a[0] in b && b[0] in a;
    var i :| 0 <= i < |b| && b[i] == a[0];
    var j :| 0 <= j < |a| && a[j] == b[0];
    assert i == 0 && j == 0;
  }

  /** With equal heads, every later element of `a` is a later element of `b`. */
  lemma TailOf(a: seq<Kline>, b: seq<Kline>)
    requires StrictlyIncreasing(a) && StrictlyIncreasing(b)
    requires forall k :: k in a <==> k in b
    requires a != [] && b != [] && a[0] == b[0]
    ensures forall k :: k in a[1..] ==> k in b[1..]
  {
    forall k | k in a[1..] ensures k in b[1..] {
      var p :| 0 <= p < |a[1..]| && a[1..][p] == k;
      assert a[p + 1] == k;
      assert k in b;
      var q :| 0 <= q < |b| && b[q] == k;
      assert q != 0;
      assert b[1..][q - 1] == k;
    }
  }

  /** All records sharing one open time leave at most one record after merging. */
  lemma MergeOfOneTime(rows: seq<Kline>, endMs: int, k: Kline)
    requires rows != [] && forall i :: 0 <= i < |rows| ==> rows[i] == k
    requires k.openTimeMs <= endMs
    ensures Merge(rows, endMs) == [k]
  {
    MergeCorrect(rows, endMs);
    assert LastOfItsTime(rows, |rows| - 1);
    var r := Merge(rows, endMs);
    forall x ensures x in r <==> x in [k] {
    }
    SameElementsSame(r, [k]);
  }

  /** A duplicated row is kept once (the deduplication test of the exporter). */
  lemma MergeDeduplicationExample(k: Kline)
    requires k.openTimeMs == 0
    ensures |Merge([k, k], 3_600_000)| == 1
  {
    MergeOfOneTime([k, k], 3_600_000, k);
  }

  /** A row beyond `endMs` is cut off (the trimming test of the exporter). */
  lemma MergeTrimExample(a: Kline, b: Kline)
    requires a.openTimeMs == 0 && b.openTimeMs == 99_999_999
    ensures Merge([a, b], 3_600_000) == [a]
  {
    var rows := [a, b];
    MergeCorrect(rows, 3_600_000);
    var r := Merge(rows, 3_600_000);
    assert LastOfItsTime(rows, 0);
    forall x ensures x in r <==> x in [a] {
    }
    SameElementsSame(r, [a]);
  }
}
