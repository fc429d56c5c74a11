/** The running percentiles of a summary: what one flush of a window of samples does to them. */
module SummaryPercentiles {
  import opened PercentileSelection
  import opened SummaryMoments

  /** The fields min_ to max_, and whether a window was ever flushed. */
  datatype Stats = Stats(initialized: bool, min: real, p50: real, p90: real, p95: real, p99: real, p999: real, max: real)

  /** The sample that FindNthPercentile returns, for the percentiles a summary asks for. */
  ghost function Percentile(sorted: seq<real>, p: real): real
    requires |sorted| > 0 && 0.0 <= p <= 100.0
  {
    RankInRange(p, |sorted|);
    sorted[if Rank(p, |sorted|) > 0 then Rank(p, |sorted|) - 1 else 0]
  }

  lemma MultiplyMonotone(a: real, b: real, c: real)
    requires a <= b && c >= 0.0
    ensures a * c <= b * c
  {
  }

  lemma FloorGrows(x: real, y: real)
    requires x <= y
    ensures x.Floor <= y.Floor
  {
  }

  lemma RankGrows(p: real, q: real, size: nat)
    requires 0.0 < p <= q <= 100.0
    ensures Rank(p, size) <= Rank(q, size)
  {
    MultiplyMonotone(p / 100.0, q / 100.0, size as real);
    FloorGrows(p / 100.0 * size as real, q / 100.0 * size as real);
  }

  /** Higher percentiles are higher samples. */
  lemma PercentileGrows(sorted: seq<real>, p: real, q: real)
    requires |sorted| > 0 && Nondecreasing(sorted)
    requires 0.0 <= p <= q <= 100.0
    ensures Percentile(sorted, p) <= Percentile(sorted, q)
  {
    RankInRange(p, |sorted|);
    RankInRange(q, |sorted|);
    if 0.0 < p {
      RankGrows(p, q, |sorted|);
    }
  }

  /** Percentiles 0 and 100 are the least and the greatest sample. */
  lemma PercentileEnds(sorted: seq<real>)
    requires |sorted| > 0
    ensures Percentile(sorted, 0.0) == sorted[0]
    ensures Percentile(sorted, 100.0) == sorted[|sorted| - 1]
  {
    assert 100.0 / 100.0 * |sorted| as real == |sorted| as real;
  }

  /** Two or more samples give every percentile from 50 a rank. */
  lemma UpperRanksExist(p: real, size: nat)
    requires 50.0 <= p <= 100.0 && size >= 2
    ensures Rank(p, size) >= 1
  {
    assert p / 100.0 >= 0.5;
    MultiplyMonotone(0.5, p / 100.0, size as real);
    assert p / 100.0 * size as real >= 1.0;
  }

  /** The percentiles a summary asks for have a rank, except in a single sample those between 0 and 100. */
  lemma AskedRanksExist(p: real, size: nat)
    requires (p == 0.0 || 50.0 <= p <= 100.0) && size >= 1
    ensures Rank(p, size) == 0 <==> size == 1 && 0.0 < p < 100.0
  {
    if size >= 2 && p > 0.0 {
      UpperRanksExist(p, size);
    }
    assert p / 100.0 * 1.0 == p / 100.0;
  }

  /** value is the sample at the truncated rank of p among the sorted ones, or the least for a rank of 0. */
  ghost predicate IsPercentile(sorted: seq<real>, p: real, value: real) {
    exists r: int :: IsCut(p, |sorted|, r) && 0 <= r <= |sorted| && |sorted| > 0
                     && value == sorted[if r > 0 then r - 1 else 0]
  }

  lemma PercentileIsCut(sorted: seq<real>, p: real)
    requires |sorted| > 0 && 0.0 <= p <= 100.0
    ensures IsPercentile(sorted, p, Percentile(sorted, p))
  {
    hide IsCut, Rank;
    RankIsCut(p, |sorted|);
    RankInRange(p, |sorted|);
    var r: int :| IsCut(p, |sorted|, r);
    assert IsCut(p, |sorted|, r) && 0 <= r <= |sorted|;
  }

  /** The running value moved by 1/n of its distance to the window's sample at the rank of p. */
  ghost predicate MovesTo(sorted: seq<real>, p: real, n: nat, was: real, now: real) {
    exists value :: IsPercentile(sorted, p, value) && now * n as real == was * (n as real - 1.0) + value
  }

  lemma MovedMovesTo(sorted: seq<real>, p: real, n: nat, was: real)
    requires |sorted| > 0 && 0.0 <= p <= 100.0 && n > 0
    ensures MovesTo(sorted, p, n, was, Moved(was, Percentile(sorted, p), n))
  {
    hide Moved, Percentile, IsPercentile;
    PercentileIsCut(sorted, p);
    MovedScaled(was, Percentile(sorted, p), n, n as real, n as real - 1.0);
  }

  function Min(a: real, b: real): real {
    if b < a then b else a
  }

  function Max(a: real, b: real): real {
    if a < b then b else a
  }

  lemma MovedScaled(a: real, v: real, n: nat, r: real, q: real)
    requires n > 0 && r == n as real && q == r - 1.0
    ensures Moved(a, v, n) * r == a * q + v
  {
    var d := (v - a) / r;
    DivideThenMultiply(v - a, r);
    Distribute(a, d, r);
    Distribute(q, 1.0, a);
    assert a * r == r * a && q * a == a * q;
  }

  lemma CancelFactor(x: real, y: real, r: real)
    requires x * r <= y * r && r > 0.0
    ensures x <= y
  {
    if x > y {
      PositiveProduct(x - y, r);
      Distribute(x, -y, r);
      NegatedProduct(y, r);
    }
  }

  lemma PositiveProduct(x: real, y: real)
    requires x > 0.0 && y > 0.0
    ensures x * y > 0.0
  {
  }

  lemma NegatedProduct(x: real, y: real)
    ensures -x * y == -(x * y)
  {
  }

  /** Moving by the same weight keeps the order of running values. */
  lemma MovedKeepsOrder(a: real, b: real, v: real, w: real, n: nat)
    requires a <= b && v <= w && n > 0
    ensures Moved(a, v, n) <= Moved(b, w, n)
  {
    hide Moved;
    var r := n as real;
    var q := r - 1.0;
    MovedScaled(a, v, n, r, q);
    MovedScaled(b, w, n, r, q);
    MultiplyMonotone(a, b, q);
    CancelFactor(Moved(a, v, n), Moved(b, w, n), r);
  }

  lemma MovedStaysBetween(a: real, v: real, n: nat)
    requires n > 0
    ensures Min(a, v) <= Moved(a, v, n) <= Max(a, v)
  {
    MovedKeepsOrder(Min(a, v), a, Min(a, v), v, n);
    MovedKeepsOrder(a, Max(a, v), v, Max(a, v), n);
  }

  /** One call of UpdatePercentile. */
  function UpdateOne(s: Stats, p: real, value: real, n: nat): Stats
    requires n > 0
  {
    if p == 0.0 then s.(min := Min(s.min, value))
    else if p == 50.0 then s.(p50 := Moved(s.p50, value, n))
    else if p == 90.0 then s.(p90 := Moved(s.p90, value, n))
    else if p == 95.0 then s.(p95 := Moved(s.p95, value, n))
    else if p == 99.0 then s.(p99 := Moved(s.p99, value, n))
    else if p == 99.9 then s.(p999 := Moved(s.p999, value, n))
    else if p == 100.0 then s.(max := Max(s.max, value))
    else s
  }

  /** The percentiles of the sorted samples of one window. */
  ghost function OfWindow(sorted: seq<real>): Stats
    requires |sorted| > 0
  {
    Stats(true, Percentile(sorted, 0.0), Percentile(sorted, 50.0), Percentile(sorted, 90.0), Percentile(sorted, 95.0),
          Percentile(sorted, 99.0), Percentile(sorted, 99.9), Percentile(sorted, 100.0))
  }

  /** The percentiles after a window is flushed, n samples having been seen in all. */
  ghost function Flush(s: Stats, sorted: seq<real>, n: nat): Stats
    requires |sorted| > 0 ==> n > 0
  {
    if |sorted| == 0 then s
    else
      var w := OfWindow(sorted);
      if !s.initialized then w
      else Stats(true, Min(s.min, w.min), Moved(s.p50, w.p50, n), Moved(s.p90, w.p90, n), Moved(s.p95, w.p95, n),
                 Moved(s.p99, w.p99, n), Moved(s.p999, w.p999, n), Max(s.max, w.max))
  }

  /** Updating the seven percentiles one by one, from s[0] to s[7], flushes the window. */
  lemma UpdatesAreFlush(s: seq<Stats>, sorted: seq<real>, n: nat)
    requires |s| == 8 && |sorted| > 0 && n > 0 && s[0].initialized
    requires s[1] == UpdateOne(s[0], 0.0, Percentile(sorted, 0.0), n)
    requires s[2] == UpdateOne(s[1], 50.0, Percentile(sorted, 50.0), n)
    requires s[3] == UpdateOne(s[2], 90.0, Percentile(sorted, 90.0), n)
    requires s[4] == UpdateOne(s[3], 95.0, Percentile(sorted, 95.0), n)
    requires s[5] == UpdateOne(s[4], 99.0, Percentile(sorted, 99.0), n)
    requires s[6] == UpdateOne(s[5], 99.9, Percentile(sorted, 99.9), n)
    requires s[7] == UpdateOne(s[6], 100.0, Percentile(sorted, 100.0), n)
    ensures s[7] == Flush(s[0], sorted, n)
  {
    hide Percentile, Moved;
  }

  ghost predicate Ascending(s: Stats) {
    s.min <= s.p50 <= s.p90 <= s.p95 <= s.p99 <= s.p999 <= s.max
  }

  lemma WindowAscends(sorted: seq<real>)
    requires |sorted| > 0 && Nondecreasing(sorted)
    ensures Ascending(OfWindow(sorted))
  {
    PercentileGrows(sorted, 0.0, 50.0);
    PercentileGrows(sorted, 50.0, 90.0);
    PercentileGrows(sorted, 90.0, 95.0);
    PercentileGrows(sorted, 95.0, 99.0);
    PercentileGrows(sorted, 99.0, 99.9);
    PercentileGrows(sorted, 99.9, 100.0);
  }

  /** A flush keeps the running percentiles in order. */
  lemma FlushKeepsOrder(s: Stats, sorted: seq<real>, n: nat)
    requires |sorted| > 0 && n > 0 && Nondecreasing(sorted)
    requires s.initialized ==> Ascending(s)
    ensures Ascending(Flush(s, sorted, n))
  {
    WindowAscends(sorted);
    var w := OfWindow(sorted);
    if s.initialized {
      hide Moved, Percentile, OfWindow;
      MovedStaysBetween(s.p50, w.p50, n);
      MovedKeepsOrder(s.p50, s.p90, w.p50, w.p90, n);
      MovedKeepsOrder(s.p90, s.p95, w.p90, w.p95, n);
      MovedKeepsOrder(s.p95, s.p99, w.p95, w.p99, n);
      MovedKeepsOrder(s.p99, s.p999, w.p99, w.p999, n);
      MovedStaysBetween(s.p999, w.p999, n);
    }
  }

  /** min and max are samples of h, and bound them all. */
  ghost predicate Extremes(min: real, max: real, h: seq<real>) {
    min in h && max in h && forall x | x in h :: min <= x <= max
  }

  lemma SortedExtremes(sorted: seq<real>, window: seq<real>)
    requires |sorted| > 0 && Nondecreasing(sorted) && multiset(sorted) == multiset(window)
    ensures Extremes(Percentile(sorted, 0.0), Percentile(sorted, 100.0), window)
  {
    PercentileEnds(sorted);
    forall x | x in window
      ensures sorted[0] <= x <= sorted[|sorted| - 1]
    {
      assert x in multiset(sorted);
    }
    assert sorted[0] in multiset(window) && sorted[|sorted| - 1] in multiset(window);
  }

  /** A flush keeps the exact extremes of everything flushed so far. */
  lemma FlushKeepsExtremes(s: Stats, sorted: seq<real>, n: nat, before: seq<real>, window: seq<real>)
    requires |sorted| > 0 && n > 0 && Nondecreasing(sorted) && multiset(sorted) == multiset(window)
    requires if s.initialized then Extremes(s.min, s.max, before) else before == []
    ensures var t := Flush(s, sorted, n);
            Extremes(t.min, t.max, before + window)
  {
    SortedExtremes(sorted, window);
  }

  /** Exactly the value of percentile p changes: an inner one moves by 1/n, an extreme one widens if it must. */
  ghost predicate UpdateFits(s: Stats, t: Stats, p: real, sorted: seq<real>, n: nat) {
    && sorted != []
    && (p == 0.0 ==> t == s.(min := if sorted[0] < s.min then sorted[0] else s.min))
    && (p == 50.0 ==> t == s.(p50 := t.p50) && MovesTo(sorted, p, n, s.p50, t.p50))
    && (p == 90.0 ==> t == s.(p90 := t.p90) && MovesTo(sorted, p, n, s.p90, t.p90))
    && (p == 95.0 ==> t == s.(p95 := t.p95) && MovesTo(sorted, p, n, s.p95, t.p95))
    && (p == 99.0 ==> t == s.(p99 := t.p99) && MovesTo(sorted, p, n, s.p99, t.p99))
    && (p == 99.9 ==> t == s.(p999 := t.p999) && MovesTo(sorted, p, n, s.p999, t.p999))
    && (p == 100.0 ==> t == s.(max := if sorted[|sorted| - 1] > s.max then sorted[|sorted| - 1] else s.max))
  }

  lemma UpdateIsFit(s: Stats, p: real, sorted: seq<real>, n: nat)
    requires |sorted| > 0 && n > 0
    requires p == 0.0 || p == 50.0 || p == 90.0 || p == 95.0 || p == 99.0 || p == 99.9 || p == 100.0
    ensures UpdateFits(s, UpdateOne(s, p, Percentile(sorted, p), n), p, sorted, n)
  {
    hide MovesTo, Moved, Percentile;
    PercentileEnds(sorted);
    MovedMovesTo(sorted, p, n, s.p50);
    MovedMovesTo(sorted, p, n, s.p90);
    MovedMovesTo(sorted, p, n, s.p95);
    MovedMovesTo(sorted, p, n, s.p99);
    MovedMovesTo(sorted, p, n, s.p999);
  }

  /** What a flush of the sorted window makes of each running value, n samples having been seen in all: the first one
      takes the percentiles of the window, a later one moves the inner values by 1/n and widens the extremes. */
  ghost predicate FlushFits(s: Stats, t: Stats, sorted: seq<real>, n: nat) {
    if sorted == [] then t == s
    else if !s.initialized then
      && t.initialized && t.min == sorted[0] && t.max == sorted[|sorted| - 1]
      && IsPercentile(sorted, 50.0, t.p50) && IsPercentile(sorted, 90.0, t.p90) && IsPercentile(sorted, 95.0, t.p95)
      && IsPercentile(sorted, 99.0, t.p99) && IsPercentile(sorted, 99.9, t.p999)
    else
      && t.initialized && t.min == (if sorted[0] < s.min then sorted[0] else s.min)
      && t.max == (if sorted[|sorted| - 1] > s.max then sorted[|sorted| - 1] else s.max)
      && MovesTo(sorted, 50.0, n, s.p50, t.p50) && MovesTo(sorted, 90.0, n, s.p90, t.p90)
      && MovesTo(sorted, 95.0, n, s.p95, t.p95) && MovesTo(sorted, 99.0, n, s.p99, t.p99)
      && MovesTo(sorted, 99.9, n, s.p999, t.p999)
  }

  lemma FlushIsFit(s: Stats, sorted: seq<real>, n: nat)
    requires |sorted| > 0 ==> n > 0
    ensures FlushFits(s, Flush(s, sorted, n), sorted, n)
  {
    hide IsPercentile, MovesTo, Moved, Percentile;
    if sorted != [] {
      PercentileEnds(sorted);
      if !s.initialized {
        PercentileIsCut(sorted, 50.0);
        PercentileIsCut(sorted, 90.0);
        PercentileIsCut(sorted, 95.0);
        PercentileIsCut(sorted, 99.0);
        PercentileIsCut(sorted, 99.9);
      } else {
        MovedMovesTo(sorted, 50.0, n, s.p50);
        MovedMovesTo(sorted, 90.0, n, s.p90);
        MovedMovesTo(sorted, 95.0, n, s.p95);
        MovedMovesTo(sorted, 99.0, n, s.p99);
        MovedMovesTo(sorted, 99.9, n, s.p999);
      }
    }
  }
}
