/**
 * The sliding window of detection history: three parallel series (time
 * labels, vehicle counts, illegal-parking counts) that grow by one sample on
 * every successful tick. The oldest sample is dropped first, but only when
 * the series already holds MORE than ten samples, so the window settles at
 * eleven samples.
 */
module HistoryWindow {
  import opened Wire

  /** Longest length a series reaches. */
  const Capacity: nat := 11

  /** One sample appended to one series: shift when the length exceeds 10, then push. */
  function Push<T>(w: seq<T>, x: T): (r: seq<T>)
    ensures |r| == if |w| > 10 then |w| else |w| + 1
  {
    (if |w| > 10 then w[1..] else w) + [x]
  }

  /** A series never grows past the capacity, and grows by one until it reaches it. */
  lemma PushBounded<T>(w: seq<T>, x: T)
    requires |w| <= Capacity
    ensures |Push(w, x)| == Min(|w| + 1, Capacity)
  {
  }

  /** The series after pushing every element of `xs`, in order, onto `w`. */
  function PushAll<T>(w: seq<T>, xs: seq<T>): seq<T>
    decreases |xs|
  {
    if xs == [] then w else Push(PushAll(w, xs[..|xs| - 1]), xs[|xs| - 1])
  }

  /** From an empty window, the series holds exactly the last min(n, 11) samples, oldest first. */
  lemma {:induction false} WindowKeepsLatest<T>(xs: seq<T>)
    ensures PushAll([], xs) == xs[|xs| - Min(|xs|, Capacity)..]
  {
    if xs != [] {
      var n := |xs| - 1;
      WindowKeepsLatest(xs[..n]);
      var w := PushAll([], xs[..n]);
      assert xs[..n][..n] == xs[..n];
      assert PushAll([], xs) == Push(w, xs[n]);
      if n > 10 {
        assert w == xs[n - Capacity..n];
        assert Push(w, xs[n]) == w[1..] + [xs[n]];
        assert w[1..] == xs[n - 10..n];
        assert xs[n - 10..n] + [xs[n]] == xs[n - 10..];
      } else {
        assert w == xs[..n];
        assert Push(w, xs[n]) == w + [xs[n]];
        assert xs[..n] + [xs[n]] == xs;
      }
    }
  }

  /** The `detectionHistory` object: time labels, vehicle counts and illegal-parking counts. */
  datatype History = History(labels: seq<string>, vehicles: seq<nat>, illegals: seq<nat>)

  /** The three series have one entry per sample and at most `Capacity` samples. */
  predicate Aligned(h: History) {
    |h.vehicles| == |h.labels| && |h.illegals| == |h.labels| && |h.labels| <= Capacity
  }

  /** One sample recorded in all three series. */
  function RecordSample(h: History, timeLabel: string, vehicles: nat, illegals: nat): History {
    History(Push(h.labels, timeLabel), Push(h.vehicles, vehicles), Push(h.illegals, illegals))
  }

  /** Recording keeps the series aligned and bounded, and the new sample is the last of each. */
  lemma RecordKeepsAligned(h: History, timeLabel: string, vehicles: nat, illegals: nat)
    requires Aligned(h)
    ensures var h' := RecordSample(h, timeLabel, vehicles, illegals);
      && Aligned(h')
      && |h'.labels| == Min(|h.labels| + 1, Capacity)
      && h'.labels[|h'.labels| - 1] == timeLabel
      && h'.vehicles[|h'.vehicles| - 1] == vehicles
      && h'.illegals[|h'.illegals| - 1] == illegals
  {
  }
}
