/** The summary of a stream of samples: windows of samples in the augmented tree, flushed into running percentiles. */
module SummaryMetric {
  import opened AugmentedTree
  import opened PercentileSelection
  import opened SummaryMoments
  import opened SummaryPercentiles

  const NO_STATS := Stats(false, 0.0, 0.0, 0.0, 0.0, 0.0, 0.0, 0.0)

  /** What a summary holds after the samples h, of which the first `flushed` were in flushed windows. */
  ghost predicate Summarizes(h: seq<real>, flushed: nat, s: Stats, window: multiset<real>, windowSize: int) {
    && flushed <= |h| && window == multiset(h[flushed..])
    && (s.initialized <==> flushed > 0) && (!s.initialized ==> s == NO_STATS)
    && (s.initialized ==> Ascending(s) && Extremes(s.min, s.max, h[..flushed]))
    && (windowSize > 0 ==> |window| <= windowSize)
  }

  /** A flush of the window, whatever the moment it is asked for. */
  lemma FlushSummarizes(h: seq<real>, flushed: nat, s: Stats, window: multiset<real>, windowSize: int, sorted: seq<real>)
    requires Summarizes(h, flushed, s, window, windowSize) && Nondecreasing(sorted) && multiset(sorted) == window
    ensures |sorted| == |h| - flushed && (sorted == [] ==> Flush(s, sorted, |h|) == s)
    ensures Summarizes(h, |h|, Flush(s, sorted, |h|), multiset{}, windowSize)
  {
    assert |multiset(sorted)| == |sorted| && |multiset(h[flushed..])| == |h| - flushed;
    assert h[..|h|] == h && h[..flushed] + h[flushed..] == h && h[|h|..] == [];
    if |sorted| > 0 {
      assert !s.initialized ==> h[..flushed] == [];
      hide Extremes, Ascending;
      FlushKeepsOrder(s, sorted, |h|);
      FlushKeepsExtremes(s, sorted, |h|, h[..flushed], h[flushed..]);
    }
  }

  lemma SampleSummarizes(h: seq<real>, flushed: nat, s: Stats, window: multiset<real>, windowSize: int, x: real)
    requires Summarizes(h, flushed, s, window, windowSize)
    requires window == multiset{} || |window| != windowSize
    ensures Summarizes(h + [x], flushed, s, With(window, x, 1), windowSize)
  {
    hide Extremes, Ascending;
    OneCopy(x);
    assert (h + [x])[flushed..] == h[flushed..] + [x] && (h + [x])[..flushed] == h[..flushed];
  }

  lemma WholeHistory(h: seq<real>, s: Stats, window: multiset<real>, windowSize: int)
    requires Summarizes(h, |h|, s, window, windowSize) && h != []
    ensures Extremes(s.min, s.max, h) && Ascending(s)
  {
    assert h[..|h|] == h;
  }

  /** What a reader of the p-th percentile gets after the samples h, of which the first `flushed` were flushed before:
      nothing of nothing, what it got before when nothing is new, the percentile of all samples while they are in the
      first window, and else what it got before, moved by 1/|h| towards that of the new samples. */
  ghost predicate Reads(h: seq<real>, flushed: nat, p: real, was: real, now: real)
    requires flushed <= |h|
  {
    if h == [] then now == 0.0
    else if flushed == |h| then now == was
    else exists sorted :: Nondecreasing(sorted) && multiset(sorted) == multiset(h[flushed..])
                          && if flushed == 0 then IsPercentile(sorted, p, now) else MovesTo(sorted, p, |h|, was, now)
  }

  lemma FlushIsRead(h: seq<real>, flushed: nat, s: Stats, window: multiset<real>, windowSize: int, sorted: seq<real>,
                    t: Stats)
    requires Summarizes(h, flushed, s, window, windowSize) && Nondecreasing(sorted) && multiset(sorted) == window
    requires FlushFits(s, t, sorted, |h|)
    ensures flushed <= |h|
    ensures Reads(h, flushed, 50.0, s.p50, t.p50) && Reads(h, flushed, 90.0, s.p90, t.p90)
    ensures Reads(h, flushed, 95.0, s.p95, t.p95) && Reads(h, flushed, 99.0, s.p99, t.p99)
    ensures Reads(h, flushed, 99.9, s.p999, t.p999)
    ensures h == [] ==> t == NO_STATS
  {
    hide IsPercentile, MovesTo, Ascending, Extremes, Nondecreasing;
    assert |multiset(sorted)| == |sorted| && |multiset(h[flushed..])| == |h| - flushed;
  }

  /** The samples of the window in order. */
  ghost predicate HasWindow(samples: ATree, sorted: seq<real>)
    reads samples, samples.root, samples.nodes
  {
    samples.Valid() && sorted == SortedSamples(samples)
  }

  class Summary {
    const windowSize: int
    const samples: ATree
    var running: Stats
    var totalSamples: int
    var mean: real
    var squaredTotal: real
    var variance: real
    /** Every sample so far, and how many of them were in flushed windows. */
    ghost var history: seq<real>
    ghost var flushed: nat

    ghost predicate Valid()
      reads this, samples, samples.root, samples.nodes
    {
      && samples.Valid()
      && totalSamples == |history|
      && Summarizes(history, flushed, running, samples.Samples(), windowSize)
      && Moments(history, mean, squaredTotal, variance)
    }

    constructor (windowSize: int)
      ensures Valid() && history == [] && this.windowSize == windowSize && fresh(samples) && fresh(samples.root)
    {
      this.windowSize := windowSize;
      samples := new ATree();
      running := NO_STATS;
      totalSamples, mean, squaredTotal, variance := 0, 0.0, 0.0, 0.0;
      history, flushed := [], 0;
    }

    /** FindNthPercentile(samples_, p)->key(). */
    method WindowPercentile(p: real, ghost sorted: seq<real>) returns (value: real)
      requires HasWindow(samples, sorted) && sorted != [] && (p == 0.0 || 50.0 <= p <= 100.0)
      ensures value == Percentile(sorted, p)
    {
      hide SortedSamples, ATree.Valid, Truncated;
      RankInRange(p, |sorted|);
      if |sorted| >= 2 && p != 0.0 {
        UpperRanksExist(p, |sorted|);
      }
      if |sorted| == 1 {
        SingleIsFirstLeaf(samples);
      }
      hide FirstLeaf;
      var node := FindNthPercentile(samples, p);
      value := node.key;
    }

    method UpdatePercentile(p: real, ghost sorted: seq<real>)
      requires HasWindow(samples, sorted) && sorted != [] && totalSamples > 0
      requires p == 0.0 || p == 50.0 || p == 90.0 || p == 95.0 || p == 99.0 || p == 99.9 || p == 100.0
      modifies this`running
      ensures running == UpdateOne(old(running), p, Percentile(sorted, p), totalSamples)
      ensures UpdateFits(old(running), running, p, sorted, totalSamples)
    {
      hide Percentile, Moved, HasWindow, UpdateFits;
      UpdateIsFit(running, p, sorted, totalSamples);
      var value := WindowPercentile(p, sorted);
      if p == 0.0 {
        running := running.(min := Min(running.min, value));
      } else if p == 50.0 {
        running := running.(p50 := Moved(running.p50, value, totalSamples));
      } else if p == 90.0 {
        running := running.(p90 := Moved(running.p90, value, totalSamples));
      } else if p == 95.0 {
        running := running.(p95 := Moved(running.p95, value, totalSamples));
      } else if p == 99.0 {
        running := running.(p99 := Moved(running.p99, value, totalSamples));
      } else if p == 99.9 {
        running := running.(p999 := Moved(running.p999, value, totalSamples));
      } else {
        running := running.(max := Max(running.max, value));
      }
    }

    /** The two branches of a flush. */
    method FirstWindow(ghost sorted: seq<real>)
      requires HasWindow(samples, sorted) && sorted != []
      modifies this`running
      ensures running == OfWindow(sorted)
    {
      hide Percentile, HasWindow;
      var min := WindowPercentile(0.0, sorted);
      var p50 := WindowPercentile(50.0, sorted);
      var p90 := WindowPercentile(90.0, sorted);
      var p95 := WindowPercentile(95.0, sorted);
      var p99 := WindowPercentile(99.0, sorted);
      var p999 := WindowPercentile(99.9, sorted);
      var max := WindowPercentile(100.0, sorted);
      running := Stats(true, min, p50, p90, p95, p99, p999, max);
    }

    method LaterWindow(ghost sorted: seq<real>)
      requires HasWindow(samples, sorted) && sorted != [] && totalSamples > 0 && running.initialized
      modifies this`running
      ensures running == Flush(old(running), sorted, totalSamples)
    {
      hide Percentile, HasWindow, UpdateOne, UpdateFits, Flush;
      ghost var s0 := running;
      UpdatePercentile(0.0, sorted);
      ghost var s1 := running;
      UpdatePercentile(50.0, sorted);
      ghost var s2 := running;
      UpdatePercentile(90.0, sorted);
      ghost var s3 := running;
      UpdatePercentile(95.0, sorted);
      ghost var s4 := running;
      UpdatePercentile(99.0, sorted);
      ghost var s5 := running;
      UpdatePercentile(99.9, sorted);
      ghost var s6 := running;
      UpdatePercentile(100.0, sorted);
      UpdatesAreFlush([s0, s1, s2, s3, s4, s5, s6, running], sorted, totalSamples);
    }

    method FlushWindow(ghost sorted: seq<real>)
      requires HasWindow(samples, sorted) && sorted != [] && totalSamples > 0
      modifies this`running
      ensures running == Flush(old(running), sorted, totalSamples)
    {
      hide HasWindow, OfWindow;
      if !running.initialized {
        FirstWindow(sorted);
      } else {
        LaterWindow(sorted);
      }
    }

    /** What a flush leaves, seen before it. */
    lemma FlushAhead()
      requires Valid()
      ensures var sorted := SortedSamples(samples);
              && HasWindow(samples, sorted)
              && (sorted != [] ==> totalSamples > 0)
              && (sorted == [] ==> samples.Samples() == multiset{} && Flush(running, sorted, |history|) == running)
              && Summarizes(history, |history|, Flush(running, sorted, |history|), multiset{}, windowSize)
    {
      SortedSamplesAreSamples(samples);
      hide SortedSamples, ATree.Valid, ATree.Samples;
      FlushSummarizes(history, flushed, running, samples.Samples(), windowSize, SortedSamples(samples));
    }

    /** Flushes the window, if it has samples, into the running percentiles. */
    method UpdatePercentilesAndClearSamples()
      requires Valid()
      modifies this`running, this`flushed, samples, samples.root
      ensures Valid() && flushed == |history|
      ensures running == Flush(old(running), old(SortedSamples(samples)), |history|)
      ensures FlushFits(old(running), running, old(SortedSamples(samples)), |history|)
      ensures samples.Samples() == multiset{} && samples.nodes <= old(samples.nodes)
    {
      hide Summarizes, Moments, SortedSamples, HasWindow, Flush, FlushFits, ATree.Valid, ATree.Samples;
      ghost var sorted := SortedSamples(samples);
      FlushAhead();
      FlushIsFit(running, sorted, |history|);
      var size := GetSize(samples);
      if size != 0 {
        FlushWindow(sorted);
        samples.Clear();
      }
      flushed := |history|;
    }

    /** operator<<: one more sample, which flushes a full window first. */
    method Add(value: real)
      requires Valid()
      modifies this, samples, samples.root, samples.nodes
      ensures Valid() && history == old(history) + [value]
      ensures forall n | n in samples.nodes && n !in old(samples.nodes) :: fresh(n)
      ensures Averages(history, mean, variance)
      ensures |old(samples.Samples())| != windowSize ==> flushed == old(flushed) && running == old(running)
      ensures |old(samples.Samples())| == windowSize ==>
                && flushed == old(|history|)
                && FlushFits(old(running), running, old(SortedSamples(samples)), old(|history|))
    {
      hide Summarizes, Moments, Averages, Flush, FlushFits, ATree.Valid, ATree.Samples, SortedSamples;
      WindowAhead();
      var size := GetSize(samples);
      if size == windowSize {
        UpdatePercentilesAndClearSamples();
      }
      Insert(value);
      UpdateMoments(value);
    }

    /** The window after one more sample. */
    method Insert(value: real)
      requires samples.Valid() && Summarizes(history, flushed, running, samples.Samples(), windowSize)
      requires samples.Samples() == multiset{} || |samples.Samples()| != windowSize
      modifies samples, samples.root, samples.nodes
      ensures samples.Valid() && Summarizes(history + [value], flushed, running, samples.Samples(), windowSize)
      ensures forall n | n in samples.nodes && n !in old(samples.nodes) :: fresh(n)
    {
      SampleSummarizes(history, flushed, running, samples.Samples(), windowSize, value);
      hide Summarizes, With, ATree.Valid, ATree.Samples;
      samples.InsertOrUpdate(value, 1, 1);
    }

    /** The moments after one more sample. */
    method UpdateMoments(value: real)
      requires Moments(history, mean, squaredTotal, variance) && totalSamples == |history|
      modifies this`totalSamples, this`mean, this`squaredTotal, this`variance, this`history
      ensures history == old(history) + [value] && totalSamples == |history|
      ensures Moments(history, mean, squaredTotal, variance) && Averages(history, mean, variance)
    {
      SampleKeepsMoments(history, mean, squaredTotal, variance, value);
      hide Moved, Variance, Square, Moments, Averages;
      totalSamples := totalSamples + 1;
      mean := Moved(mean, value, totalSamples);
      squaredTotal := squaredTotal + Square(value);
      variance := Variance(squaredTotal, totalSamples, mean);
      history := history + [value];
      MomentsAreAverages(history, mean, squaredTotal, variance);
    }

    lemma WindowAhead()
      requires Valid()
      ensures flushed <= |history| && Nondecreasing(SortedSamples(samples))
      ensures multiset(SortedSamples(samples)) == samples.Samples()
    {
      SortedSamplesAreSamples(samples);
    }

    /** A percentile of all samples so far: flushes the window, and reads the running value. */
    method GetPercentileInternal(p: real) returns (value: real)
      requires Valid()
      requires p == 0.0 || p == 50.0 || p == 90.0 || p == 95.0 || p == 99.0 || p == 99.9 || p == 100.0
      modifies this`running, this`flushed, samples, samples.root
      ensures Valid() && flushed == |history| && samples.nodes <= old(samples.nodes) && old(flushed) <= |history|
      ensures p == 0.0 ==> value == running.min
      ensures p == 50.0 ==> value == running.p50 && Reads(history, old(flushed), p, old(running.p50), value)
      ensures p == 90.0 ==> value == running.p90 && Reads(history, old(flushed), p, old(running.p90), value)
      ensures p == 95.0 ==> value == running.p95 && Reads(history, old(flushed), p, old(running.p95), value)
      ensures p == 99.0 ==> value == running.p99 && Reads(history, old(flushed), p, old(running.p99), value)
      ensures p == 99.9 ==> value == running.p999 && Reads(history, old(flushed), p, old(running.p999), value)
      ensures p == 100.0 ==> value == running.max
      ensures history != [] ==> Ascending(running) && Extremes(running.min, running.max, history)
      ensures history == [] ==> value == 0.0
    {
      hide Flush, FlushFits, SortedSamples, ATree.Valid, ATree.Samples, Summarizes, Moments, Reads;
      WindowAhead();
      ghost var before, done, window, sorted := running, flushed, samples.Samples(), SortedSamples(samples);
      UpdatePercentilesAndClearSamples();
      FlushIsRead(history, done, before, window, windowSize, sorted, running);
      if history != [] {
        WholeHistory(history, running, samples.Samples(), windowSize);
      }
      if p == 0.0 {
        value := running.min;
      } else if p == 50.0 {
        value := running.p50;
      } else if p == 90.0 {
        value := running.p90;
      } else if p == 95.0 {
        value := running.p95;
      } else if p == 99.0 {
        value := running.p99;
      } else if p == 99.9 {
        value := running.p999;
      } else {
        value := running.max;
      }
    }

    /** The running median. */
    method Get50thPercentile() returns (value: real)
      requires Valid()
      modifies this`running, this`flushed, samples, samples.root
      ensures Valid() && flushed == |history| && samples.nodes <= old(samples.nodes) && old(flushed) <= |history|
      ensures Reads(history, old(flushed), 50.0, old(running.p50), value) && value == running.p50
    {
      hide SortedSamples, ATree.Valid, ATree.Samples, Summarizes, Moments, Reads;
      value := GetPercentileInternal(50.0);
    }

    method Get90thPercentile() returns (value: real)
      requires Valid()
      modifies this`running, this`flushed, samples, samples.root
      ensures Valid() && flushed == |history| && samples.nodes <= old(samples.nodes) && old(flushed) <= |history|
      ensures Reads(history, old(flushed), 90.0, old(running.p90), value) && value == running.p90
    {
      hide SortedSamples, ATree.Valid, ATree.Samples, Summarizes, Moments, Reads;
      value := GetPercentileInternal(90.0);
    }

    method Get95thPercentile() returns (value: real)
      requires Valid()
      modifies this`running, this`flushed, samples, samples.root
      ensures Valid() && flushed == |history| && samples.nodes <= old(samples.nodes) && old(flushed) <= |history|
      ensures Reads(history, old(flushed), 95.0, old(running.p95), value) && value == running.p95
    {
      hide SortedSamples, ATree.Valid, ATree.Samples, Summarizes, Moments, Reads;
      value := GetPercentileInternal(95.0);
    }

    method Get99thPercentile() returns (value: real)
      requires Valid()
      modifies this`running, this`flushed, samples, samples.root
      ensures Valid() && flushed == |history| && samples.nodes <= old(samples.nodes) && old(flushed) <= |history|
      ensures Reads(history, old(flushed), 99.0, old(running.p99), value) && value == running.p99
    {
      hide SortedSamples, ATree.Valid, ATree.Samples, Summarizes, Moments, Reads;
      value := GetPercentileInternal(99.0);
    }

    method Get999thPercentile() returns (value: real)
      requires Valid()
      modifies this`running, this`flushed, samples, samples.root
      ensures Valid() && flushed == |history| && samples.nodes <= old(samples.nodes) && old(flushed) <= |history|
      ensures Reads(history, old(flushed), 99.9, old(running.p999), value) && value == running.p999
    {
      hide SortedSamples, ATree.Valid, ATree.Samples, Summarizes, Moments, Reads;
      value := GetPercentileInternal(99.9);
    }

    /** The least of all samples so far, however they fell into windows. */
    method GetMin() returns (value: real)
      requires Valid()
      modifies this`running, this`flushed, samples, samples.root
      ensures Valid() && flushed == |history| && samples.nodes <= old(samples.nodes)
      ensures history != [] ==> value in history && forall x | x in history :: value <= x
      ensures history == [] ==> value == 0.0
    {
      hide SortedSamples, ATree.Valid, ATree.Samples, Summarizes, Moments, Reads;
      value := GetPercentileInternal(0.0);
    }

    /** The greatest of all samples so far. */
    method GetMax() returns (value: real)
      requires Valid()
      modifies this`running, this`flushed, samples, samples.root
      ensures Valid() && flushed == |history| && samples.nodes <= old(samples.nodes)
      ensures history != [] ==> value in history && forall x | x in history :: x <= value
      ensures history == [] ==> value == 0.0
    {
      hide SortedSamples, ATree.Valid, ATree.Samples, Summarizes, Moments, Reads;
      value := GetPercentileInternal(100.0);
    }

    method GetNumSamples() returns (n: int)
      requires Valid()
      ensures n == |history|
    {
      n := totalSamples;
    }

    /** The mean of all samples so far. */
    method GetMean() returns (value: real)
      requires Valid()
      ensures if history == [] then value == 0.0 else value * |history| as real == Sum(history)
    {
      hide ATree.Valid, ATree.Samples, Summarizes;
      value := mean;
    }
  }
}
