/**
 * The bookkeeping of a time-of-flight experiment: grouping the runs of each
 * reaction time, dropping excluded runs, and the peak-detection parameters.
 * Each measurement is reduced to the fields this bookkeeping reads.
 */
module TofData {

  /** A measurement file's title, reaction time and run number (`TofData`). */
  datatype TofEntry = TofEntry(title: string, time: real, run: int)

  /** `PeakParams`: detection sigma, nominal m/z of each ion, and the detection window width. */
  datatype PeakParams = PeakParams(sigma: real, peaks: map<string, real>, peakWidth: real)

  /** The part of `Config` used here: the excluded runs per time, and the peak parameters. */
  datatype Config = Config(exclusions: map<real, seq<int>>, peakParams: PeakParams)

  /** `TofExperimentData`: a directory's measurements and their configuration. */
  datatype ExperimentData = ExperimentData(path: string, data: seq<TofEntry>, config: Config)

  const DefaultPeakParams := PeakParams(6.0, map["Be" := 9.0], 1.0)
  const DefaultExclusions: map<real, seq<int>> := map[0.0 := []]
  const DefaultConfig := Config(DefaultExclusions, DefaultPeakParams)

  // ---------------------------------------------------------------- get_keys

  predicate Sorted(xs: seq<int>)
  {
    forall i, j :: 0 <= i < j < |xs| ==> xs[i] <= xs[j]
  }

  /** Inserts `x` before the first larger element. */
  function Insert(x: int, xs: seq<int>): (r: seq<int>)
    requires Sorted(xs)
    ensures Sorted(r) && multiset(r) == multiset(xs) + multiset{x}
  {
    if |xs| == 0 then [x]
    else if x <= xs[0] then [x] + xs
    else
      var rest := Insert(x, xs[1..]);
      HeadBelowRest(x, xs, rest);
      assert xs == [xs[0]] + xs[1..];
      [xs[0]] + rest
  }

  /** When `x` goes after the head, the head stays below everything inserted after it. */
  lemma HeadBelowRest(x: int, xs: seq<int>, rest: seq<int>)
    requires Sorted(xs) && |xs| > 0 && xs[0] < x
    requires multiset(rest) == multiset(xs[1..]) + multiset{x}
    ensures forall k :: 0 <= k < |rest| ==> xs[0] <= rest[k]
  {
    forall k | 0 <= k < |rest|
      ensures xs[0] <= rest[k]
    {
      assert rest[k] in multiset(rest);
      if rest[k] != x {
        assert rest[k] in multiset(xs[1..]);
        var m :| 0 <= m < |xs[1..]| && xs[1..][m] == rest[k];
        assert xs[m + 1] == rest[k];
      }
    }
  }

  /** `list.sort()` on a list of run numbers: an ascending permutation. */
  function Sort(xs: seq<int>): (r: seq<int>)
    ensures Sorted(r) && multiset(r) == multiset(xs)
  {
    if |xs| == 0 then []
    else
      assert xs == xs[..|xs| - 1] + [xs[|xs| - 1]];
      Insert(xs[|xs| - 1], Sort(xs[..|xs| - 1]))
  }

  /** The reaction times that occur in the data. */
  function Times(data: seq<TofEntry>): set<real>
  {
    set e | e in data :: e.time
  }

  /** The runs measured at time `t`, in data order, duplicates kept. */
  function RunsAt(data: seq<TofEntry>, t: real): seq<int>
  {
    if |data| == 0 then []
    else RunsAt(data[..|data| - 1], t) + (if data[|data| - 1].time == t then [data[|data| - 1].run] else [])
  }

  /** A time has runs exactly when it occurs in the data. */
  lemma {:induction false} RunsAtNonEmpty(data: seq<TofEntry>, t: real)
    ensures |RunsAt(data, t)| > 0 <==> t in Times(data)
  {
    if |data| > 0 {
      var init := data[..|data| - 1];
      RunsAtNonEmpty(init, t);
      assert data == init + [data[|data| - 1]];
      assert Times(data) == Times(init) + {data[|data| - 1].time};
    }
  }

  /** Every run at time `t` belongs to an entry with that time. */
  lemma {:induction false} RunsAtMembers(data: seq<TofEntry>, t: real, run: int)
    ensures run in RunsAt(data, t) <==> exists k :: 0 <= k < |data| && data[k].time == t && data[k].run == run
  {
    if |data| > 0 {
      var init := data[..|data| - 1];
      RunsAtMembers(init, t, run);
      assert forall k :: 0 <= k < |init| ==> data[k] == init[k];
    }
  }

  /** Appending an entry extends the runs of its own time only. */
  lemma RunsAtSnoc(data: seq<TofEntry>, e: TofEntry, t: real)
    ensures RunsAt(data + [e], t) == RunsAt(data, t) + (if e.time == t then [e.run] else [])
    ensures Times(data + [e]) == Times(data) + {e.time}
  {
    assert (data + [e])[..|data|] == data;
  }

  /** No time is listed twice. */
  predicate Distinct(order: seq<real>)
  {
    forall i, j :: 0 <= i < j < |order| ==> order[i] != order[j]
  }

  /**
   * The first loop of `get_keys`: each time's runs appended in data order.
   * `order` lists the times in the order they were first inserted, the order
   * in which a Python dictionary yields its keys.
   */
  method GroupRuns(data: seq<TofEntry>) returns (keys: map<real, seq<int>>, order: seq<real>)
    ensures keys.Keys == Times(data)
    ensures forall t :: t in keys ==> keys[t] == RunsAt(data, t)
    ensures forall t :: t in order <==> t in keys
    ensures Distinct(order)
  {
    keys, order := map[], [];
    for i := 0 to |data|
      invariant keys.Keys == Times(data[..i])
      invariant forall t :: t in keys ==> keys[t] == RunsAt(data[..i], t)
      invariant forall t :: t in order <==> t in keys
      invariant Distinct(order)
    {
      var td := data[i];
      ghost var done := data[..i];
      assert data[..i + 1] == done + [td];
      RunsAtNonEmpty(done, td.time);
      if td.time !in keys {
        order := order + [td.time];
      }
      var runs := if td.time in keys then keys[td.time] else [];
      assert runs == RunsAt(done, td.time);
      keys := keys[td.time := runs + [td.run]];
      forall t | t in keys
        ensures keys[t] == RunsAt(done + [td], t)
      {
        RunsAtSnoc(done, td, t);
      }
      RunsAtSnoc(done, td, td.time);
    }
    assert data[..|data|] == data;
  }

  /** The second loop of `get_keys`: each list of the mapping sorted in place, key by key. */
  method SortGroups(grouped: map<real, seq<int>>, order: seq<real>) returns (keys: map<real, seq<int>>)
    requires forall t :: t in order <==> t in grouped
    requires Distinct(order)
    ensures keys.Keys == grouped.Keys
    ensures forall t :: t in keys ==> keys[t] == Sort(grouped[t])
  {
    keys := grouped;
    for i := 0 to |order|
      invariant keys.Keys == grouped.Keys
      invariant forall t :: t in keys ==> keys[t] == if t in order[..i] then Sort(grouped[t]) else grouped[t]
    {
      var k := order[i];
      assert k !in order[..i] by {
        assert forall m :: 0 <= m < i ==> order[..i][m] != k;
      }
      assert forall t :: t in order[..i + 1] <==> t in order[..i] || t == k by {
        assert order[..i + 1] == order[..i] + [k];
      }
      keys := keys[k := Sort(keys[k])];
    }
    assert order[..|order|] == order;
  }

  /**
   * `get_keys`: the runs of each reaction time, sorted ascending. Runs are
   * grouped in one pass and each group is sorted afterwards.
   */
  method GetKeys(data: seq<TofEntry>) returns (keys: map<real, seq<int>>)
    ensures keys.Keys == Times(data)
    ensures forall t :: t in keys ==> Sorted(keys[t]) && multiset(keys[t]) == multiset(RunsAt(data, t))
  {
    var grouped, order := GroupRuns(data);
    keys := SortGroups(grouped, order);
    forall t | t in keys
      ensures Sorted(keys[t]) && multiset(keys[t]) == multiset(RunsAt(data, t))
    {
      assert keys[t] == Sort(RunsAt(data, t));
    }
  }

  // ---------------------------------------------------- filter_by_exclusions

  /** An entry is excluded when its time is listed and its run is among that time's runs. */
  predicate Excluded(e: TofEntry, exclusions: map<real, seq<int>>)
  {
    e.time in exclusions && e.run in exclusions[e.time]
  }

  /** The entries that are not excluded, in order. */
  function Kept(data: seq<TofEntry>, exclusions: map<real, seq<int>>): (kept: seq<TofEntry>)
    ensures |kept| <= |data|
  {
    if |data| == 0 then []
    else
      var last := data[|data| - 1];
      Kept(data[..|data| - 1], exclusions) + (if Excluded(last, exclusions) then [] else [last])
  }

  /** An entry is kept exactly when it is in the data and not excluded. */
  lemma {:induction false} KeptMembers(data: seq<TofEntry>, exclusions: map<real, seq<int>>, e: TofEntry)
    ensures e in Kept(data, exclusions) <==> e in data && !Excluded(e, exclusions)
  {
    if |data| > 0 {
      var init, last := data[..|data| - 1], data[|data| - 1];
      KeptMembers(init, exclusions, e);
      assert data == init + [last];
    }
  }

  /** Dropping exclusions distributes over concatenation, so the kept entries keep their order. */
  lemma {:induction false} KeptAppend(a: seq<TofEntry>, b: seq<TofEntry>, exclusions: map<real, seq<int>>)
    ensures Kept(a + b, exclusions) == Kept(a, exclusions) + Kept(b, exclusions)
  {
    if |b| == 0 {
      assert a + b == a;
    } else {
      var init := b[..|b| - 1];
      assert (a + b)[..|a + b| - 1] == a + init;
      assert (a + b)[|a + b| - 1] == b[|b| - 1];
      KeptAppend(a, init, exclusions);
    }
  }

  /** When no entry is excluded, nothing is dropped. */
  lemma {:induction false} KeptNothingExcluded(data: seq<TofEntry>, exclusions: map<real, seq<int>>)
    requires forall k :: 0 <= k < |data| ==> !Excluded(data[k], exclusions)
    ensures Kept(data, exclusions) == data
  {
    if |data| > 0 {
      var init, last := data[..|data| - 1], data[|data| - 1];
      assert forall k :: 0 <= k < |init| ==> init[k] == data[k];
      KeptNothingExcluded(init, exclusions);
      assert !Excluded(last, exclusions);
      assert Kept(data, exclusions) == Kept(init, exclusions) + [last];
      assert data == init + [last];
    }
  }

  /** The default exclusions list time 0 with no runs, which removes nothing. */
  lemma DefaultExclusionsKeepAll(data: seq<TofEntry>)
    ensures Kept(data, DefaultExclusions) == data
  {
    KeptNothingExcluded(data, DefaultExclusions);
  }

  /** `filter_by_exclusions`: a copy of the experiment holding only the entries that are not excluded. */
  method FilterByExclusions(ted: ExperimentData) returns (filtered: ExperimentData)
    ensures filtered.path == ted.path && filtered.config == ted.config
    ensures filtered.data == Kept(ted.data, ted.config.exclusions)
  {
    var data: seq<TofEntry> := [];
    for i := 0 to |ted.data|
      invariant data == Kept(ted.data[..i], ted.config.exclusions)
    {
      var td := ted.data[i];
      assert ted.data[..i + 1][..i] == ted.data[..i];
      assert Kept(ted.data[..i + 1], ted.config.exclusions) ==
        Kept(ted.data[..i], ted.config.exclusions) + (if Excluded(td, ted.config.exclusions) then [] else [td]);
      if td.time in ted.config.exclusions && td.run in ted.config.exclusions[td.time] {
        continue;
      }
      data := data + [td];
    }
    assert ted.data[..|ted.data|] == ted.data;
    filtered := ted.(data := data);
  }

  // ------------------------------------------------------------- PeakParams

  /** `get_peak_detection_threshold`: `sigma` standard deviations below the mean. */
  function GetPeakDetectionThreshold(p: PeakParams, mean: real, std: real): (threshold: real)
    ensures threshold + p.sigma * std == mean
    ensures p.sigma >= 0.0 && std >= 0.0 ==> threshold <= mean
  {
    mean - p.sigma * std
  }

  /** A wider spread (at non-negative sigma) never raises the threshold. */
  lemma ThresholdAntitoneInStd(p: PeakParams, mean: real, std1: real, std2: real)
    requires p.sigma >= 0.0 && std1 <= std2
    ensures GetPeakDetectionThreshold(p, mean, std2) <= GetPeakDetectionThreshold(p, mean, std1)
  {
    assert p.sigma * std1 <= p.sigma * std2;
  }

  /** `get_peak_ranges`: for each ion, a window of width `peakWidth` centred on its m/z. */
  function GetPeakRanges(p: PeakParams): (ranges: map<string, (real, real)>)
    ensures ranges.Keys == p.peaks.Keys
    ensures forall ion :: ion in ranges ==>
      ranges[ion].1 - ranges[ion].0 == p.peakWidth && ranges[ion].0 + ranges[ion].1 == 2.0 * p.peaks[ion]
  {
    var radius := p.peakWidth / 2.0;
    map ion | ion in p.peaks :: (p.peaks[ion] - radius, p.peaks[ion] + radius)
  }

  /** With a non-negative width each ion's nominal m/z lies inside its window. */
  lemma PeakInsideItsRange(p: PeakParams, ion: string)
    requires ion in p.peaks && p.peakWidth >= 0.0
    ensures var ranges := GetPeakRanges(p);
      ion in ranges && ranges[ion].0 <= p.peaks[ion] <= ranges[ion].1
  {
  }

  /** The default parameters look for beryllium between m/z 8.5 and 9.5. */
  lemma DefaultPeakRanges()
    ensures GetPeakRanges(DefaultPeakParams) == map["Be" := (8.5, 9.5)]
  {
    var ranges := GetPeakRanges(DefaultPeakParams);
    assert ranges.Keys == {"Be"};
  }
}
