/**
 * The progress tracker's state (src/progress.hpp) and the operations that
 * update it (src/progress.cpp): the page counter, the 30-second window of
 * (time, count) samples, the rate derived from it, the file percentage and
 * the flag that keeps the render loop alive. Timestamps are integer
 * milliseconds supplied by the caller in place of `system_clock::now()`.
 */
module Telemetry {

  /** One entry of `rateHistory`: when it was taken and the counter value then. */
  datatype Sample = Sample(time: int, count: int)

  /** Width of the rolling window, 30 seconds. */
  const RateWindowMs: int := 30000

  /** The "unknown" sentinel of `fileProgressPercentage`. */
  const UnknownProgress: real := -1.0

  ghost predicate CountsNonDecreasing(h: seq<Sample>)
  {
    forall i, j :: 0 <= i <= j < |h| ==> h[i].count <= h[j].count
  }

  ghost predicate TimesNonDecreasing(h: seq<Sample>)
  {
    forall i, j :: 0 <= i <= j < |h| ==> h[i].time <= h[j].time
  }

  /**
   * How many samples the eviction loop of `updateProcessingRate` drops: the
   * length of the leading run of samples older than `cutoff`.
   */
  function StaleCount(h: seq<Sample>, cutoff: int): (k: nat)
    ensures k <= |h|
    ensures forall i :: 0 <= i < k ==> h[i].time < cutoff
    ensures k < |h| ==> h[k].time >= cutoff
  {
    if h != [] && h[0].time < cutoff then 1 + StaleCount(h[1..], cutoff) else 0
  }

  /** The history the eviction loop leaves: front samples older than `cutoff` dropped one by one. */
  function Evict(h: seq<Sample>, cutoff: int): seq<Sample>
  {
    if h != [] && h[0].time < cutoff then Evict(h[1..], cutoff) else h
  }

  /** What eviction keeps is everything after the leading run of stale samples. */
  lemma {:induction false} EvictDropsStale(h: seq<Sample>, cutoff: int)
    ensures Evict(h, cutoff) == h[StaleCount(h, cutoff)..]
  {
    if h != [] && h[0].time < cutoff {
      EvictDropsStale(h[1..], cutoff);
      assert h[1..][StaleCount(h[1..], cutoff)..] == h[1 + StaleCount(h[1..], cutoff)..];
    }
  }

  /** The eviction loop can stop at one point only: after exactly StaleCount samples. */
  lemma StaleCountUnique(h: seq<Sample>, cutoff: int, d: nat)
    requires d <= |h|
    requires forall i :: 0 <= i < d ==> h[i].time < cutoff
    requires d < |h| ==> h[d].time >= cutoff
    ensures d == StaleCount(h, cutoff)
  {
  }

  /** A sample no older than the cutoff at the end of the history is never evicted. */
  lemma EvictKeepsRecentLast(h: seq<Sample>, cutoff: int)
    requires h != [] && h[|h| - 1].time >= cutoff
    ensures Evict(h, cutoff) != []
    ensures Evict(h, cutoff)[|Evict(h, cutoff)| - 1] == h[|h| - 1]
  {
    EvictDropsStale(h, cutoff);
  }

  /** With timestamps in order, nothing older than the cutoff survives eviction. */
  lemma EvictLeavesWindow(h: seq<Sample>, cutoff: int)
    requires TimesNonDecreasing(h)
    ensures forall i :: 0 <= i < |Evict(h, cutoff)| ==> Evict(h, cutoff)[i].time >= cutoff
  {
    var d := StaleCount(h, cutoff);
    var r := Evict(h, cutoff);
    EvictDropsStale(h, cutoff);
    forall i | 0 <= i < |r|
      ensures r[i].time >= cutoff
    {
      assert r[i] == h[d + i] && h[d].time <= h[d + i].time;
    }
  }

  /** Dropping a prefix keeps both orderings. */
  lemma SuffixKeepsOrder(a: seq<Sample>, d: nat)
    requires d <= |a|
    ensures CountsNonDecreasing(a) ==> CountsNonDecreasing(a[d..])
    ensures TimesNonDecreasing(a) ==> TimesNonDecreasing(a[d..])
  {
    var r := a[d..];
    forall i, j | 0 <= i <= j < |r|
      ensures r[i] == a[d + i] && r[j] == a[d + j]
    {
    }
  }

  /** Appending a sample that is at least the last one keeps the ordering. */
  lemma AppendKeepsOrder(h: seq<Sample>, s: Sample)
    ensures CountsNonDecreasing(h) && (h == [] || h[|h| - 1].count <= s.count) ==> CountsNonDecreasing(h + [s])
    ensures TimesNonDecreasing(h) && (h == [] || h[|h| - 1].time <= s.time) ==> TimesNonDecreasing(h + [s])
  {
    var a := h + [s];
    forall i, j | 0 <= i <= j < |a|
      ensures a[i] == if i < |h| then h[i] else s
      ensures a[j] == if j < |h| then h[j] else s
    {
    }
  }

  /**
   * The eviction loop after appending sample `s` to `h` stops after `d`
   * samples older than the cutoff: the new sample is never dropped and ends
   * what is kept.
   */
  lemma EvictionKeepsNewest(h: seq<Sample>, s: Sample, a: seq<Sample>, d: nat, r: seq<Sample>)
    requires a == h + [s] && d <= |a| && r == a[d..]
    requires forall i :: 0 <= i < d ==> a[i].time < s.time - RateWindowMs
    requires r != [] ==> r[0].time >= s.time - RateWindowMs
    ensures d == StaleCount(a, s.time - RateWindowMs)
    ensures r != [] && r[|r| - 1] == s
  {
    StaleCountUnique(a, s.time - RateWindowMs, d);
    EvictKeepsRecentLast(a, s.time - RateWindowMs);
  }

  /**
   * When the counts grew up to the new sample's, what the eviction loop
   * keeps still grows, starting no lower than the old oldest count.
   */
  lemma EvictionKeepsCounts(h: seq<Sample>, s: Sample, a: seq<Sample>, d: nat, r: seq<Sample>)
    requires a == h + [s] && d < |a| && r == a[d..]
    requires CountsNonDecreasing(h) && (h == [] || h[|h| - 1].count <= s.count)
    ensures CountsNonDecreasing(r) && r[0].count >= (if h == [] then s.count else h[0].count)
  {
    AppendKeepsOrder(h, s);
    SuffixKeepsOrder(a, d);
    assert a[0].count <= a[d].count;
  }

  /**
   * With an ordered clock, what the eviction loop keeps is ordered by time
   * and lies within the 30 seconds up to the new sample.
   */
  lemma EvictionKeepsWindow(h: seq<Sample>, s: Sample, a: seq<Sample>, d: nat, r: seq<Sample>)
    requires a == h + [s] && d == StaleCount(a, s.time - RateWindowMs) && r == a[d..]
    requires TimesNonDecreasing(h) && (h == [] || h[|h| - 1].time <= s.time)
    ensures TimesNonDecreasing(r)
    ensures forall i :: 0 <= i < |r| ==> s.time - RateWindowMs <= r[i].time <= s.time
  {
    AppendKeepsOrder(h, s);
    SuffixKeepsOrder(a, d);
    EvictLeavesWindow(a, s.time - RateWindowMs);
    forall i | 0 <= i < |r|
      ensures r[i].time <= s.time
    {
      assert r[i] == a[d + i] && a[d + i].time <= a[|a| - 1].time;
    }
  }



  /** The eviction loop of `updateProcessingRate`: drops samples older than `cutoff` from the front. */
  method DropStale(history: seq<Sample>, cutoff: int) returns (r: seq<Sample>)
    ensures r == Evict(history, cutoff)
  {
    r := history;
    while r != [] && r[0].time < cutoff
      invariant Evict(r, cutoff) == Evict(history, cutoff)
      decreases |r|
    {
      r := r[1..];
    }
  }

  /**
   * The rate recomputation of `updateProcessingRate`, in pages per second:
   * with at least two samples whose newest is strictly later than the oldest,
   * the count difference over the time difference; otherwise the old rate.
   */
  function RateAfter(h: seq<Sample>, rate: real): real
  {
    if |h| >= 2 then
      var oldest, newest := h[0], h[|h| - 1];
      var timeDiff := newest.time - oldest.time;
      var countDiff := newest.count - oldest.count;
      if timeDiff > 0 then (countDiff as real / timeDiff as real) * 1000.0 else rate
    else rate
  }

  /**
   * The rate is the slope of the window in pages per second: count gained
   * times 1000 over milliseconds elapsed; a window too short or too narrow
   * in time keeps the old rate.
   */
  lemma RateIsSlope(h: seq<Sample>, rate: real)
    ensures (|h| < 2 || h[|h| - 1].time <= h[0].time) ==> RateAfter(h, rate) == rate
    ensures |h| >= 2 && h[|h| - 1].time > h[0].time ==>
      RateAfter(h, rate) * (h[|h| - 1].time - h[0].time) as real == (h[|h| - 1].count - h[0].count) as real * 1000.0
  {
  }

  /** A history whose counts only grow never yields a negative rate. */
  lemma RateNonNegative(h: seq<Sample>, rate: real)
    requires CountsNonDecreasing(h) && rate >= 0.0
    ensures RateAfter(h, rate) >= 0.0
  {
    if |h| >= 2 && h[|h| - 1].time > h[0].time {
      var countDiff := (h[|h| - 1].count - h[0].count) as real;
      var timeDiff := (h[|h| - 1].time - h[0].time) as real;
      assert countDiff >= 0.0 && timeDiff > 0.0;
      assert countDiff / timeDiff >= 0.0;
    }
  }

  /**
   * The history invariant of `Progress`: counts grow in insertion order, the
   * oldest is positive and the newest is at most the counter.
   */
  ghost predicate HistoryBelow(h: seq<Sample>, count: int)
  {
    && CountsNonDecreasing(h)
    && (h != [] ==> 0 < h[0].count && h[|h| - 1].count <= count)
  }

  /**
   * Appending sample `s` and dropping the stale prefix keeps the history
   * invariant and ends the history in `s`.
   */
  lemma AppendEvictKeepsHistory(h: seq<Sample>, s: Sample, r: seq<Sample>)
    requires HistoryBelow(h, s.count) && s.count > 0
    requires h != [] ==> h[|h| - 1].count < s.count
    requires r == (h + [s])[StaleCount(h + [s], s.time - RateWindowMs)..]
    ensures HistoryBelow(r, s.count)
    ensures r != [] && r[|r| - 1] == s
  {
    var a := h + [s];
    var d := StaleCount(a, s.time - RateWindowMs);
    EvictionKeepsNewest(h, s, a, d, r);
    EvictionKeepsCounts(h, s, a, d, r);
  }

  /**
   * Recording the counter at `now` and evicting keeps the history invariant
   * and ends the history in the new sample.
   */
  lemma RecordSample(h: seq<Sample>, now: int, count: int, r: seq<Sample>)
    requires HistoryBelow(h, count) && count > 0
    requires h != [] ==> h[|h| - 1].count < count
    requires r == Evict(h + [Sample(now, count)], now - RateWindowMs)
    ensures HistoryBelow(r, count)
    ensures r != [] && r[|r| - 1] == Sample(now, count)
  {
    EvictDropsStale(h + [Sample(now, count)], now - RateWindowMs);
    AppendEvictKeepsHistory(h, Sample(now, count), r);
  }

  /**
   * With an ordered clock, recording at `now` and evicting leaves only
   * samples of the last 30 seconds, in time order.
   */
  lemma RecordSampleWindow(h: seq<Sample>, now: int, count: int, r: seq<Sample>)
    requires r == Evict(h + [Sample(now, count)], now - RateWindowMs)
    ensures TimesNonDecreasing(h) && (h == [] || h[|h| - 1].time <= now) ==>
      TimesNonDecreasing(r) && forall i :: 0 <= i < |r| ==> now - RateWindowMs <= r[i].time <= now
  {
    if TimesNonDecreasing(h) && (h == [] || h[|h| - 1].time <= now) {
      var s := Sample(now, count);
      var a := h + [s];
      assert r == a[StaleCount(a, now - RateWindowMs)..] by {
        EvictDropsStale(a, now - RateWindowMs);
      }
      EvictionKeepsWindow(h, s, a, StaleCount(a, now - RateWindowMs), r);
    }
  }

  /**
   * The body of `updateProcessingRate` on values: appends the counter at
   * `now`, drops samples older than 30 seconds from the front, and
   * recomputes the rate when the window spans time.
   */
  method NextWindow(h: seq<Sample>, now: int, count: int, rate: real) returns (history: seq<Sample>, newRate: real)
    requires HistoryBelow(h, count) && count > 0 && rate >= 0.0
    requires h != [] ==> h[|h| - 1].count < count
    ensures history == Evict(h + [Sample(now, count)], now - RateWindowMs)
    ensures newRate == RateAfter(history, rate)
    ensures HistoryBelow(history, count) && newRate >= 0.0
    ensures history != [] && history[|history| - 1] == Sample(now, count)
    ensures TimesNonDecreasing(h) && (h == [] || h[|h| - 1].time <= now) ==>
      TimesNonDecreasing(history) && forall i :: 0 <= i < |history| ==> now - RateWindowMs <= history[i].time <= now
  {
    history := DropStale(h + [Sample(now, count)], now - RateWindowMs);
    newRate := rate;
    if |history| >= 2 {
      var oldest := history[0];
      var newest := history[|history| - 1];
      var timeDiff := newest.time - oldest.time;
      var countDiff := newest.count - oldest.count;
      if timeDiff > 0 {
        newRate := (countDiff as real / timeDiff as real) * 1000.0;
      }
    }
    RecordSample(h, now, count, history);
    RateNonNegative(history, rate);
    RecordSampleWindow(h, now, count, history);
  }

  class Progress {
    var processedPageCount: int
    var runOutputThread: bool
    var fileProgressPercentage: real
    var startTime: int
    var rateHistory: seq<Sample>
    var currentRate: real

    /**
     * The counter is never negative, the rate never negative, the percentage
     * is the sentinel or in [0, 100], and the history's counts grow in
     * insertion order up to the counter.
     */
    ghost predicate Valid()
      reads this
    {
      && processedPageCount >= 0
      && currentRate >= 0.0
      && (fileProgressPercentage == UnknownProgress || 0.0 <= fileProgressPercentage <= 100.0)
      && HistoryBelow(rateHistory, processedPageCount)
    }

    /** The initial values of the fields; the render thread is left out. */
    constructor (now: int)
      ensures Valid()
      ensures processedPageCount == 0 && currentRate == 0.0
      ensures fileProgressPercentage == UnknownProgress
      ensures rateHistory == [] && runOutputThread
      ensures startTime == now
    {
      processedPageCount := 0;
      runOutputThread := true;
      fileProgressPercentage := UnknownProgress;
      startTime := now;
      rateHistory := [];
      currentRate := 0.0;
    }

    /** Counts one more page and records it in the rate window at time `now`. */
    method Increment(now: int)
      requires Valid()
      modifies this
      ensures Valid()
      ensures processedPageCount == old(processedPageCount) + 1
      ensures rateHistory == Evict(old(rateHistory) + [Sample(now, processedPageCount)], now - RateWindowMs)
      ensures rateHistory != [] && rateHistory[|rateHistory| - 1] == Sample(now, processedPageCount)
      ensures currentRate == RateAfter(rateHistory, old(currentRate))
      ensures TimesNonDecreasing(old(rateHistory)) && (old(rateHistory) == [] || old(rateHistory)[|old(rateHistory)| - 1].time <= now) ==>
        TimesNonDecreasing(rateHistory) && forall i :: 0 <= i < |rateHistory| ==> now - RateWindowMs <= rateHistory[i].time <= now
      ensures runOutputThread == old(runOutputThread)
      ensures fileProgressPercentage == old(fileProgressPercentage) && startTime == old(startTime)
    {
      processedPageCount := processedPageCount + 1;
      UpdateProcessingRate(now);
    }

    /**
     * Appends the current count at `now`, evicts samples older than 30 seconds
     * from the front, and recomputes the rate when the window allows it.
     */
    method UpdateProcessingRate(now: int)
      requires Valid()
      requires processedPageCount > 0
      requires rateHistory != [] ==> rateHistory[|rateHistory| - 1].count < processedPageCount
      modifies this
      ensures Valid()
      ensures rateHistory == Evict(old(rateHistory) + [Sample(now, processedPageCount)], now - RateWindowMs)
      ensures rateHistory != [] && rateHistory[|rateHistory| - 1] == Sample(now, processedPageCount)
      ensures currentRate == RateAfter(rateHistory, old(currentRate))
      ensures TimesNonDecreasing(old(rateHistory)) && (old(rateHistory) == [] || old(rateHistory)[|old(rateHistory)| - 1].time <= now) ==>
        TimesNonDecreasing(rateHistory) && forall i :: 0 <= i < |rateHistory| ==> now - RateWindowMs <= rateHistory[i].time <= now
      ensures processedPageCount == old(processedPageCount) && runOutputThread == old(runOutputThread)
      ensures fileProgressPercentage == old(fileProgressPercentage) && startTime == old(startTime)
    {
      var history, rate := NextWindow(rateHistory, now, processedPageCount, currentRate);
      rateHistory, currentRate := history, rate;
    }

    /** Stores a percentage in [0, 100] and ignores anything else. */
    method SetFileProgress(percentage: real)
      requires Valid()
      modifies this
      ensures Valid()
      ensures 0.0 <= percentage <= 100.0 ==> fileProgressPercentage == percentage
      ensures !(0.0 <= percentage <= 100.0) ==> fileProgressPercentage == old(fileProgressPercentage)
      ensures fileProgressPercentage == UnknownProgress ==> old(fileProgressPercentage) == UnknownProgress
      ensures processedPageCount == old(processedPageCount) && rateHistory == old(rateHistory)
      ensures currentRate == old(currentRate) && runOutputThread == old(runOutputThread)
      ensures startTime == old(startTime)
    {
      if percentage >= 0.0 && percentage <= 100.0 {
        fileProgressPercentage := percentage;
      }
    }

    /** Stops the render loop; nothing sets the flag back. */
    method Finish()
      requires Valid()
      modifies this
      ensures Valid()
      ensures !runOutputThread
      ensures processedPageCount == old(processedPageCount) && rateHistory == old(rateHistory)
      ensures currentRate == old(currentRate) && fileProgressPercentage == old(fileProgressPercentage)
      ensures startTime == old(startTime)
    {
      runOutputThread := false;
    }
  }
}
