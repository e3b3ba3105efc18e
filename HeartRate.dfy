/** The rest heart rate of an interval: the heart-rate samples are binned one
    beat per minute wide from 30 to 89, and the first histogram peak holding
    more than one percent of all samples is the rest heart rate. */
module HeartRate {
  import opened Wrappers

  /** Left edge of the first bin and number of bins (edges 30, 31, ..., 89). */
  const FirstBin: int := 30
  const BinCount: nat := 59

  /** One value written to the statistics journal: the rest heart rate, in
      beats per minute, timestamped at the start of the interval. */
  datatype RestHR = RestHR(bpm: int, time: int)

  /** The number of samples in the half-open bin [lo, lo + 1). */
  function CountIn(samples: seq<real>, lo: int): (n: nat)
    ensures n <= |samples|
  {
    if samples == [] then 0
    else (if lo as real <= samples[0] < (lo + 1) as real then 1 else 0) + CountIn(samples[1..], lo)
  }

  /** `pd.cut(..., np.arange(30, 90), right=False).value_counts(sort=False)`:
      bin k counts the samples in [30 + k, 31 + k); samples outside 30..89
      fall in no bin. */
  function Histogram(samples: seq<real>): (h: seq<nat>)
    ensures |h| == BinCount
    ensures forall k :: 0 <= k < BinCount ==> h[k] == CountIn(samples, FirstBin + k)
  {
    seq<nat>(BinCount, k requires 0 <= k < BinCount => CountIn(samples, FirstBin + k))
  }

  /** h[l..r+1] is a run of equal counts with a smaller count on each side,
      entirely inside the histogram. */
  predicate Plateau(h: seq<nat>, l: int, r: int) {
    1 <= l <= r < |h| - 1 &&
    h[l - 1] < h[l] && h[r + 1] < h[l] &&
    forall q :: l <= q <= r ==> h[q] == h[l]
  }

  /** `find_peaks`: m is a peak when it is the middle sample (rounding down) of
      a plateau, which for a plateau of width one is a strict local maximum. */
  predicate IsPeak(h: seq<nat>, m: int) {
    exists l, r :: 0 <= l <= r < |h| && Plateau(h, l, r) && m == (l + r) / 2
  }

  /** The peaks among bins lo..|h|-1, in increasing order. */
  function PeaksFrom(h: seq<nat>, lo: nat): (peaks: seq<nat>)
    requires lo <= |h|
    ensures forall j :: 0 <= j < |peaks| ==> lo <= peaks[j] < |h| && IsPeak(h, peaks[j])
    ensures forall j, k :: 0 <= j < k < |peaks| ==> peaks[j] < peaks[k]
    ensures forall m :: lo <= m < |h| && IsPeak(h, m) ==> m in peaks
    decreases |h| - lo
  {
    if lo == |h| then [] else (if IsPeak(h, lo) then [lo] else []) + PeaksFrom(h, lo + 1)
  }

  function Peaks(h: seq<nat>): seq<nat> {
    PeaksFrom(h, 0)
  }

  /** `measurements > len(df) * 0.01`: the bin holds more than one percent of
      all samples, binned or not. */
  predicate Enough(binCount: nat, sampleCount: nat) {
    binCount as real > sampleCount as real * 0.01
  }

  /** `_calculate_results`: scans the peaks in increasing bin order, skipping
      (with a warning) each one holding too few samples, and writes the left
      edge of the first that holds enough, timestamped at `intervalStart`;
      when none does, nothing is written. `skipped` lists the rest heart rates
      warned about. */
  method SelectRestHR(samples: seq<real>, intervalStart: int)
    returns (written: Option<RestHR>, skipped: seq<int>)
    ensures var h, peaks := Histogram(samples), Peaks(Histogram(samples));
      && (written.None? <==> forall j :: 0 <= j < |peaks| ==> !Enough(h[peaks[j]], |samples|))
      && (written.None? ==> |skipped| == |peaks|)
      && (written.Some? ==>
            exists j :: 0 <= j < |peaks| && Enough(h[peaks[j]], |samples|) && |skipped| == j
                        && written.value == RestHR(FirstBin + peaks[j], intervalStart))
      && (forall j :: 0 <= j < |skipped| ==>
            skipped[j] == FirstBin + peaks[j] && !Enough(h[peaks[j]], |samples|))
  {
    var hist := Histogram(samples);
    var peaks := Peaks(hist);
    skipped := [];
    var i := 0;
    while i < |peaks|
      invariant 0 <= i <= |peaks| && |skipped| == i
      invariant forall j :: 0 <= j < i ==> skipped[j] == FirstBin + peaks[j] && !Enough(hist[peaks[j]], |samples|)
    {
      var restHR := FirstBin + peaks[i];
      var measurements := hist[peaks[i]];
      if Enough(measurements, |samples|) {
        written := Some(RestHR(restHR, intervalStart));
        assert Enough(hist[peaks[i]], |samples|) && |skipped| == i;
        return;
      }
      skipped := skipped + [restHR];
      i := i + 1;
    }
    written := None;
  }

  /** A written rest heart rate is the left edge of a histogram peak, so lies
      in 31..87 (a peak is never the first or the last bin), and that bin holds
      more than one percent of the samples. */
  lemma WrittenIsPeak(samples: seq<real>, intervalStart: int, j: nat)
    requires j < |Peaks(Histogram(samples))|
    ensures var m := Peaks(Histogram(samples))[j];
      IsPeak(Histogram(samples), m) && FirstBin + 1 <= FirstBin + m <= FirstBin + BinCount - 2
  {
    var h := Histogram(samples);
    var m := Peaks(h)[j];
    var l, r :| 0 <= l <= r < |h| && Plateau(h, l, r) && m == (l + r) / 2;
  }

  lemma {:induction false} CountInAppend(samples: seq<real>, x: real, lo: int)
    ensures CountIn(samples + [x], lo) == CountIn(samples, lo) + CountIn([x], lo)
    decreases |samples|
  {
    if samples == [] {
      assert samples + [x] == [x];
    } else {
      assert (samples + [x])[1..] == samples[1..] + [x];
      CountInAppend(samples[1..], x, lo);
    }
  }

  /** A sample below 30 or at 89 and above falls in no bin: the histogram,
      and so the peaks, are unchanged, while the one-percent threshold still
      counts it. */
  lemma OutlierLeavesHistogram(samples: seq<real>, x: real)
    requires x < FirstBin as real || x >= (FirstBin + BinCount) as real
    ensures Histogram(samples + [x]) == Histogram(samples)
  {
    forall k | 0 <= k < BinCount ensures Histogram(samples + [x])[k] == Histogram(samples)[k] {
      CountInAppend(samples, x, FirstBin + k);
      assert [x][1..] == [];
    }
  }

  /** The number of samples in [lo, hi). */
  function CountRange(samples: seq<real>, lo: int, hi: int): nat {
    if samples == [] then 0
    else (if lo as real <= samples[0] < hi as real then 1 else 0) + CountRange(samples[1..], lo, hi)
  }

  function Sum(h: seq<nat>): nat {
    if h == [] then 0 else h[0] + Sum(h[1..])
  }

  /** The total of n consecutive one-wide bins starting at lo. */
  function BinTotal(samples: seq<real>, lo: int, n: nat): nat
    decreases n
  {
    if n == 0 then 0 else CountIn(samples, lo) + BinTotal(samples, lo + 1, n - 1)
  }

  lemma {:induction false} EmptyRange(samples: seq<real>, lo: int)
    ensures CountRange(samples, lo, lo) == 0
    decreases |samples|
  {
    if samples != [] { EmptyRange(samples[1..], lo); }
  }

  /** [lo, hi) is the bin [lo, lo + 1) followed by [lo + 1, hi). */
  lemma {:induction false} PeelBin(samples: seq<real>, lo: int, hi: int)
    requires lo < hi
    ensures CountRange(samples, lo, hi) == CountIn(samples, lo) + CountRange(samples, lo + 1, hi)
    decreases |samples|
  {
    if samples != [] { PeelBin(samples[1..], lo, hi); }
  }

  lemma {:induction false} BinTotalCountsRange(samples: seq<real>, lo: int, n: nat)
    ensures BinTotal(samples, lo, n) == CountRange(samples, lo, lo + n)
    decreases n
  {
    if n == 0 {
      EmptyRange(samples, lo);
    } else {
      BinTotalCountsRange(samples, lo + 1, n - 1);
      PeelBin(samples, lo, lo + n);
    }
  }

  lemma {:induction false} SumOfBins(h: seq<nat>, samples: seq<real>, lo: int)
    requires forall k :: 0 <= k < |h| ==> h[k] == CountIn(samples, lo + k)
    ensures Sum(h) == BinTotal(samples, lo, |h|)
    decreases |h|
  {
    if h != [] {
      forall k | 0 <= k < |h[1..]| ensures h[1..][k] == CountIn(samples, lo + 1 + k) {
        assert h[1..][k] == h[k + 1];
      }
      SumOfBins(h[1..], samples, lo + 1);
    }
  }

  /** Every sample in [30, 89) lands in exactly one bin: the bins add up to
      the number of samples in that range. */
  lemma HistogramTotal(samples: seq<real>)
    ensures Sum(Histogram(samples)) == CountRange(samples, FirstBin, FirstBin + BinCount)
  {
    SumOfBins(Histogram(samples), samples, FirstBin);
    BinTotalCountsRange(samples, FirstBin, BinCount);
  }
}
