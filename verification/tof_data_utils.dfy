/**
 * Selection and integration helpers of the time-of-flight analysis: an
 * open-interval m/z filter, the minimum-signal peak picker and the walk
 * that widens a peak to its non-negative neighbours before summing it.
 * A data frame is a sequence of rows in frame order; floats are reals.
 */
module TofDataUtils {
  import opened Wrappers

  /** One row of a spectrum: its row number, its m/z and its signal. */
  datatype Row = Row(rowNr: int, mz: real, signal: real)

  predicate InMzRange(row: Row, xMin: real, xMax: real)
  {
    xMin < row.mz < xMax
  }

  /** `filter_by_mz_range`: the rows with m/z strictly between the bounds, in order. */
  function FilterByMzRange(data: seq<Row>, xMin: real, xMax: real): (kept: seq<Row>)
    ensures |kept| <= |data|
    ensures forall row :: row in kept <==> row in data && InMzRange(row, xMin, xMax)
  {
    if |data| == 0 then []
    else
      var rest := FilterByMzRange(data[..|data| - 1], xMin, xMax);
      var last := data[|data| - 1];
      assert data == data[..|data| - 1] + [last];
      if InMzRange(last, xMin, xMax) then rest + [last] else rest
  }

  /** Filtering distributes over concatenation, so the rows keep their order. */
  lemma {:induction false} FilterByMzRangeAppend(a: seq<Row>, b: seq<Row>, xMin: real, xMax: real)
    ensures FilterByMzRange(a + b, xMin, xMax) == FilterByMzRange(a, xMin, xMax) + FilterByMzRange(b, xMin, xMax)
  {
    if |b| == 0 {
      assert a + b == a;
    } else {
      var init := b[..|b| - 1];
      assert (a + b)[..|a + b| - 1] == a + init;
      assert (a + b)[|a + b| - 1] == b[|b| - 1];
      FilterByMzRangeAppend(a, init, xMin, xMax);
    }
  }

  /** Filtering twice with the same range changes nothing more. */
  lemma {:induction false} FilterByMzRangeIdempotent(data: seq<Row>, xMin: real, xMax: real)
    ensures FilterByMzRange(FilterByMzRange(data, xMin, xMax), xMin, xMax) == FilterByMzRange(data, xMin, xMax)
  {
    if |data| > 0 {
      var init, last := data[..|data| - 1], data[|data| - 1];
      FilterByMzRangeIdempotent(init, xMin, xMax);
      if InMzRange(last, xMin, xMax) {
        FilterByMzRangeAppend(FilterByMzRange(init, xMin, xMax), [last], xMin, xMax);
        assert FilterByMzRange([last], xMin, xMax) == FilterByMzRange([], xMin, xMax) + [last] by {
          assert [last][..0] == [];
        }
      }
    }
  }

  /** The smallest signal of a non-empty frame (`col.min()`). */
  function MinSignal(rows: seq<Row>): (m: real)
    requires |rows| > 0
    ensures exists i :: 0 <= i < |rows| && rows[i].signal == m
    ensures forall i :: 0 <= i < |rows| ==> m <= rows[i].signal
  {
    if |rows| == 1 then rows[0].signal
    else
      var rest := MinSignal(rows[1..]);
      assert forall i :: 1 <= i < |rows| ==> rows[i] == rows[1..][i - 1];
      if rows[0].signal <= rest then rows[0].signal else rest
  }

  /** The rows whose signal equals `m`, in order. */
  function WithSignal(rows: seq<Row>, m: real): (ties: seq<Row>)
    ensures |ties| <= |rows|
    ensures forall row :: row in ties <==> row in rows && row.signal == m
  {
    if |rows| == 0 then []
    else
      var rest := WithSignal(rows[..|rows| - 1], m);
      var last := rows[|rows| - 1];
      assert rows == rows[..|rows| - 1] + [last];
      if last.signal == m then rest + [last] else rest
  }

  /**
   * `find_peak`: among the rows in the m/z range, those whose signal is the
   * range's minimum, provided that minimum is below `threshold`; of those,
   * the one at index `count / 2`. When no row qualifies the source indexes
   * an empty frame and raises, which is `None` here.
   */
  function FindPeak(data: seq<Row>, xMin: real, xMax: real, threshold: real): (peak: Option<Row>)
    ensures peak.Some? <==> exists row :: row in data && InMzRange(row, xMin, xMax) && row.signal < threshold
    ensures peak.Some? ==> peak.value in data && InMzRange(peak.value, xMin, xMax) && peak.value.signal < threshold
    ensures peak.Some? ==> forall row :: row in data && InMzRange(row, xMin, xMax) ==> peak.value.signal <= row.signal
  {
    var inRange := FilterByMzRange(data, xMin, xMax);
    if |inRange| == 0 then None
    else
      var m := MinSignal(inRange);
      if m < threshold then
        var ties := WithSignal(inRange, m);
        var i :| 0 <= i < |inRange| && inRange[i].signal == m;
        assert inRange[i] in ties;
        Some(ties[|ties| / 2])
      else
        assert forall row :: row in inRange ==> row.signal >= threshold by {
          forall row | row in inRange ensures row.signal >= threshold {
            var k :| 0 <= k < |inRange| && inRange[k] == row;
          }
        }
        None
  }

  /** Selecting the ties distributes over concatenation, so they keep frame order and multiplicity. */
  lemma {:induction false} WithSignalAppend(a: seq<Row>, b: seq<Row>, m: real)
    ensures WithSignal(a + b, m) == WithSignal(a, m) + WithSignal(b, m)
  {
    if |b| == 0 {
      assert a + b == a;
    } else {
      var init := b[..|b| - 1];
      assert (a + b)[..|a + b| - 1] == a + init;
      assert (a + b)[|a + b| - 1] == b[|b| - 1];
      WithSignalAppend(a, init, m);
    }
  }

  /**
   * The tie at position `h` sits at some index `k` of the frame, and exactly
   * `h` ties come before that index.
   */
  lemma {:induction false} TieIndex(rows: seq<Row>, m: real, h: int) returns (k: int)
    requires 0 <= h < |WithSignal(rows, m)|
    ensures 0 <= k < |rows| && rows[k] == WithSignal(rows, m)[h] && rows[k].signal == m
    ensures |WithSignal(rows[..k], m)| == h
  {
    var init, last := rows[..|rows| - 1], rows[|rows| - 1];
    var before := WithSignal(init, m);
    if h < |before| {
      k := TieIndex(init, m, h);
      assert rows[..k] == init[..k];
    } else {
      k := |rows| - 1;
      assert rows[..k] == init;
    }
  }

  /**
   * The row `find_peak` returns lies in the m/z range at the range's minimum
   * signal, and exactly half (rounded down) of the rows tied at that minimum
   * come before it in frame order.
   */
  lemma FindPeakPicksMiddleTie(data: seq<Row>, xMin: real, xMax: real, threshold: real) returns (k: int)
    requires FindPeak(data, xMin, xMax, threshold).Some?
    ensures var inRange := FilterByMzRange(data, xMin, xMax);
      0 <= k < |inRange| && FindPeak(data, xMin, xMax, threshold).value == inRange[k]
      && inRange[k].signal == MinSignal(inRange)
      && |WithSignal(inRange[..k], MinSignal(inRange))| == |WithSignal(inRange, MinSignal(inRange))| / 2
  {
    var inRange := FilterByMzRange(data, xMin, xMax);
    var m := MinSignal(inRange);
    var ties := WithSignal(inRange, m);
    var i :| 0 <= i < |inRange| && inRange[i].signal == m;
    assert inRange[i] in ties;
    k := TieIndex(inRange, m, |ties| / 2);
  }

  /** The sum of a sequence of samples (Python's `sum`). */
  function Sum(xs: seq<real>): real
  {
    if |xs| == 0 then 0.0 else Sum(xs[..|xs| - 1]) + xs[|xs| - 1]
  }

  lemma {:induction false} SumAppend(a: seq<real>, b: seq<real>)
    ensures Sum(a + b) == Sum(a) + Sum(b)
  {
    if |b| == 0 {
      assert a + b == a;
    } else {
      var init := b[..|b| - 1];
      assert (a + b)[..|a + b| - 1] == a + init;
      SumAppend(a, init);
    }
  }

  /** A run of negative samples has a negative (or, when empty, zero) sum. */
  lemma {:induction false} SumOfNegatives(xs: seq<real>)
    requires forall k :: 0 <= k < |xs| ==> xs[k] < 0.0
    ensures Sum(xs) <= 0.0
    ensures |xs| > 0 ==> Sum(xs) < 0.0
  {
    if |xs| > 0 {
      SumOfNegatives(xs[..|xs| - 1]);
    }
  }

  /**
   * `integrate_peak`: widens the span from `peakIndex` to the nearest
   * non-negative sample on each side and sums the span, both ends included.
   */
  method IntegratePeak(signal: seq<real>, peakIndex: int) returns (total: real, span: (int, int))
    requires 0 <= peakIndex < |signal|
    requires exists k :: peakIndex <= k < |signal| && signal[k] >= 0.0
    requires exists k :: 0 <= k <= peakIndex && signal[k] >= 0.0
    ensures 0 <= span.0 <= peakIndex <= span.1 < |signal|
    ensures signal[span.1] >= 0.0 && forall k :: peakIndex <= k < span.1 ==> signal[k] < 0.0
    ensures signal[span.0] >= 0.0 && forall k :: span.0 < k <= peakIndex ==> signal[k] < 0.0
    ensures forall k :: span.0 < k < span.1 ==> signal[k] < 0.0
    ensures total == Sum(signal[span.0..span.1 + 1])
    ensures signal[peakIndex] >= 0.0 ==> span == (peakIndex, peakIndex) && total == signal[peakIndex]
  {
    var i, j := peakIndex, peakIndex;
    ghost var right :| peakIndex <= right < |signal| && signal[right] >= 0.0;
    while signal[i] < 0.0
      invariant peakIndex <= i <= right
      invariant forall k :: peakIndex <= k < i ==> signal[k] < 0.0
      decreases right - i
    {
      i := i + 1;
    }
    ghost var left :| 0 <= left <= peakIndex && signal[left] >= 0.0;
    while signal[j] < 0.0
      invariant left <= j <= peakIndex
      invariant forall k :: j < k <= peakIndex ==> signal[k] < 0.0
      decreases j - left
    {
      j := j - 1;
    }
    total, span := Sum(signal[j..i + 1]), (j, i);
    if signal[peakIndex] >= 0.0 {
      assert signal[j..i + 1] == [] + [signal[peakIndex]];
    }
  }

  /**
   * A span wider than one sample sums to its two non-negative ends plus a
   * strictly negative interior, so it never exceeds the ends' sum.
   */
  lemma SpanSumBelowEnds(signal: seq<real>, j: int, i: int)
    requires 0 <= j < i < |signal|
    requires forall k :: j < k < i ==> signal[k] < 0.0
    ensures Sum(signal[j..i + 1]) == signal[j] + Sum(signal[j + 1..i]) + signal[i]
    ensures Sum(signal[j..i + 1]) <= signal[j] + signal[i]
    ensures i > j + 1 ==> Sum(signal[j..i + 1]) < signal[j] + signal[i]
  {
    var interior := signal[j + 1..i];
    assert signal[j..i + 1] == [signal[j]] + interior + [signal[i]];
    SumAppend([signal[j]] + interior, [signal[i]]);
    SumAppend([signal[j]], interior);
    assert Sum([signal[j]]) == Sum([]) + signal[j] by { assert [signal[j]][..0] == []; }
    assert Sum([signal[i]]) == Sum([]) + signal[i] by { assert [signal[i]][..0] == []; }
    SumOfNegatives(interior);
  }
}
