/**
 * The reconciliation rule of the browser engine, as pure functions: how one
 * successful detection reply updates the per-zone occupancy records, how
 * many zones are then illegally parked, and which zones raise an alert.
 */
module Occupancy {
  import opened Wire

  /**
   * One entry of `occupiedStatus`. `violationTime` counts successful ticks
   * of continuous occupancy (one tick counts as one second, whatever the
   * polling interval).
   */
  datatype Record = Record(occupied: bool, violationTime: nat, lastUpdated: int)

  /** The record invariant: an unoccupied zone has no violation time. */
  predicate Consistent(r: Record) {
    !r.occupied ==> r.violationTime == 0
  }

  predicate AllConsistent(rs: seq<Record>) {
    forall i :: 0 <= i < |rs| ==> Consistent(rs[i])
  }

  /** The record created for a new zone, on start, and for a reply index with no record yet. */
  function Fresh(now: int): Record {
    Record(false, 0, now)
  }

  /** The record at index `i`, or a fresh one when there is none yet. */
  function RecordAt(rs: seq<Record>, i: nat, now: int): Record {
    if i < |rs| then rs[i] else Fresh(now)
  }

  /** The update of one zone's record by one reported flag. */
  function Step(r: Record, occupied: bool, now: int): (s: Record)
    ensures Consistent(s)
  {
    if occupied then
      if r.occupied then r.(violationTime := r.violationTime + 1, lastUpdated := now)
      else r.(occupied := true, violationTime := 0, lastUpdated := now)
    else
      r.(occupied := false, violationTime := 0, lastUpdated := now)
  }

  /**
   * The records after a successful reply whose `parkingStatus` flags are
   * `reports`: the first |reports| records are stepped (a missing one is
   * first defaulted to fresh), the rest are left as they were.
   */
  function Reconcile(prev: seq<Record>, reports: seq<bool>, now: int): (r: seq<Record>)
    ensures |r| == Max(|prev|, |reports|)
  {
    seq(Max(|prev|, |reports|), i requires 0 <= i < Max(|prev|, |reports|) =>
      if i < |reports| then Step(RecordAt(prev, i, now), reports[i], now) else prev[i])
  }

  /**
   * What one successful reply does to each record: an occupied report on an
   * occupied record adds exactly one second, an occupied report otherwise
   * (including on a defaulted record) starts at 0, a free report clears the
   * record, and records past the end of the reply are untouched. The record
   * invariant is kept.
   */
  lemma ReconcileSpec(prev: seq<Record>, reports: seq<bool>, now: int)
    ensures var r := Reconcile(prev, reports, now);
      && (forall i :: |reports| <= i < |prev| ==> r[i] == prev[i])
      && (forall i :: 0 <= i < |reports| ==> r[i].lastUpdated == now)
      && (forall i :: 0 <= i < |reports| && reports[i] && i < |prev| && prev[i].occupied ==>
            r[i].occupied && r[i].violationTime == prev[i].violationTime + 1)
      && (forall i :: 0 <= i < |reports| && reports[i] && !(i < |prev| && prev[i].occupied) ==>
            r[i].occupied && r[i].violationTime == 0)
      && (forall i :: 0 <= i < |reports| && !reports[i] ==> !r[i].occupied && r[i].violationTime == 0)
      && (AllConsistent(prev) ==> AllConsistent(r))
  {
  }

  /** Number of `true` flags; the `occupiedCount` of a reply. */
  function CountTrue(s: seq<bool>): (n: nat)
    ensures n <= |s|
  {
    if s == [] then 0 else CountTrue(s[..|s| - 1]) + (if s[|s| - 1] then 1 else 0)
  }

  /** A record counted as illegal parking under `threshold`. */
  predicate IsIllegal(r: Record, threshold: int) {
    r.occupied && r.violationTime > threshold
  }

  /** The alert condition, nested inside the illegal test as the engine writes it. */
  predicate AlertsAt(r: Record, threshold: int) {
    IsIllegal(r, threshold) && r.violationTime == threshold + 1
  }

  function IllegalIndices(rs: seq<Record>, threshold: int): set<nat> {
    set i: nat | i < |rs| && IsIllegal(rs[i], threshold)
  }

  /** `currentIllegalCount`: the illegal records, counted front to back. */
  function IllegalCount(rs: seq<Record>, threshold: int): (n: nat)
    ensures n <= |rs|
  {
    if rs == [] then 0
    else IllegalCount(rs[..|rs| - 1], threshold) + (if IsIllegal(rs[|rs| - 1], threshold) then 1 else 0)
  }

  /** The illegal count is the number of records that are occupied beyond the threshold. */
  lemma {:induction false} IllegalCountIsCardinality(rs: seq<Record>, threshold: int)
    ensures IllegalCount(rs, threshold) == |IllegalIndices(rs, threshold)|
  {
    if rs != [] {
      var n := |rs| - 1;
      IllegalCountIsCardinality(rs[..n], threshold);
      var before := IllegalIndices(rs[..n], threshold);
      assert n !in before;
      if IsIllegal(rs[n], threshold) {
        assert IllegalIndices(rs, threshold) == before + {n};
      } else {
        assert IllegalIndices(rs, threshold) == before;
      }
    }
  }

  /** The zone indices alerted on, in increasing order (the alert names zone `i + 1`). */
  function Alerts(rs: seq<Record>, threshold: int): (a: seq<nat>)
    ensures |a| <= |rs|
  {
    if rs == [] then []
    else Alerts(rs[..|rs| - 1], threshold) + (if AlertsAt(rs[|rs| - 1], threshold) then [|rs| - 1] else [])
  }

  /**
   * Exactly the records whose violation time is threshold + 1 alert (so an
   * alert fires on the one tick where the threshold is first exceeded), each
   * once, in zone order.
   */
  lemma {:induction false} AlertsSpec(rs: seq<Record>, threshold: int)
    ensures forall j :: 0 <= j < |Alerts(rs, threshold)| ==> Alerts(rs, threshold)[j] < |rs|
    ensures forall i: nat :: i in Alerts(rs, threshold) <==>
              i < |rs| && rs[i].occupied && rs[i].violationTime == threshold + 1
    ensures forall j, k :: 0 <= j < k < |Alerts(rs, threshold)| ==> Alerts(rs, threshold)[j] < Alerts(rs, threshold)[k]
  {
    if rs != [] {
      var n := |rs| - 1;
      AlertsSpec(rs[..n], threshold);
    }
  }

  /** Every alerted zone is one of the zones counted as illegal. */
  lemma AlertsAreIllegal(rs: seq<Record>, threshold: int)
    ensures forall i :: i in Alerts(rs, threshold) ==> i in IllegalIndices(rs, threshold)
  {
    AlertsSpec(rs, threshold);
  }

  /** A reply with one flag per record keeps the records aligned with the zones. */
  lemma AlignedReplyKeepsLength(prev: seq<Record>, reports: seq<bool>, now: int)
    requires |reports| == |prev|
    ensures |Reconcile(prev, reports, now)| == |prev|
  {
  }

  // ---------------------------------------------------------------------
  // One zone over several successful ticks

  /**
   * The records of one zone after each tick of a run of reported flags. The
   * whole run is stamped with one time; `FinalIgnoresStart` and
   * `ZoneEvolvesAlone` below show that the stamps never change a clock.
   */
  function Run(r: Record, reports: seq<bool>, now: int): (rs: seq<Record>)
    ensures |rs| == |reports|
    decreases reports
  {
    if reports == [] then []
    else var s := Step(r, reports[0], now); [s] + Run(s, reports[1..], now)
  }

  /** The record of one zone after a whole run. */
  function Final(r: Record, reports: seq<bool>, now: int): Record
    decreases reports
  {
    if reports == [] then r else Final(Step(r, reports[0], now), reports[1..], now)
  }

  function Trues(k: nat): (s: seq<bool>)
    ensures |s| == k && forall t :: 0 <= t < k ==> s[t]
  {
    seq(k, _ => true)
  }

  lemma {:induction false} RunAppend(r: Record, a: seq<bool>, b: seq<bool>, now: int)
    ensures Run(r, a + b, now) == Run(r, a, now) + Run(Final(r, a, now), b, now)
    decreases a
  {
    if a != [] {
      assert (a + b)[0] == a[0];
      assert (a + b)[1..] == a[1..] + b;
      RunAppend(Step(r, a[0], now), a[1..], b, now);
    } else {
      assert a + b == b;
    }
  }

  /** Continuous occupancy: the first report sets the clock to 0, each further report adds exactly 1. */
  lemma {:induction false} ContinuousOccupancy(r: Record, k: nat, now: int)
    ensures forall t :: 0 <= t < k ==>
              Run(r, Trues(k), now)[t].occupied &&
              Run(r, Trues(k), now)[t].violationTime == (if r.occupied then r.violationTime + 1 + t else t)
    decreases k
  {
    if k > 0 {
      var s := Step(r, true, now);
      assert Trues(k)[1..] == Trues(k - 1);
      ContinuousOccupancy(s, k - 1, now);
      assert Run(r, Trues(k), now) == [s] + Run(s, Trues(k - 1), now);
    }
  }

  /**
   * Debouncing: a zone that was free and is then reported occupied on k
   * consecutive ticks alerts on exactly one of them, the (threshold+2)-th,
   * and on none when the run is shorter.
   */
  lemma AlertsOnceWhileOccupied(r: Record, k: nat, threshold: int, now: int)
    requires !r.occupied
    ensures forall t :: 0 <= t < k ==> (AlertsAt(Run(r, Trues(k), now)[t], threshold) <==> t == threshold + 1)
    ensures |set t | 0 <= t < k && AlertsAt(Run(r, Trues(k), now)[t], threshold)| ==
            (if 0 <= threshold + 1 < k then 1 else 0)
  {
    ContinuousOccupancy(r, k, now);
    var rs := Run(r, Trues(k), now);
    var alerted := set t | 0 <= t < k && AlertsAt(rs[t], threshold);
    if 0 <= threshold + 1 < k {
      assert alerted == {threshold + 1};
    } else {
      assert alerted == {};
    }
  }

  /** A single free report restarts the clock: after it, a run of occupied reports counts from 0 again. */
  lemma GapRestartsClock(r: Record, before: seq<bool>, k: nat, now: int)
    ensures forall t :: |before| + 1 <= t < |before| + 1 + k ==>
              Run(r, before + [false] + Trues(k), now)[t].occupied &&
              Run(r, before + [false] + Trues(k), now)[t].violationTime == t - |before| - 1
  {
    var mid := Final(r, before + [false], now);
    RunAppend(r, before + [false], Trues(k), now);
    FinalAppendFree(r, before, now);
    ContinuousOccupancy(mid, k, now);
  }

  lemma {:induction false} FinalAppendFree(r: Record, before: seq<bool>, now: int)
    ensures !Final(r, before + [false], now).occupied
    decreases before
  {
    if before == [] {
      assert Final(r, [false], now) == Final(Step(r, false, now), [], now);
    } else {
      assert (before + [false])[0] == before[0];
      assert (before + [false])[1..] == before[1..] + [false];
      FinalAppendFree(Step(r, before[0], now), before[1..], now);
    }
  }

  /** The record after a non-empty run is the last record of the run. */
  lemma {:induction false} FinalIsLastOfRun(r: Record, reports: seq<bool>, now: int)
    requires reports != []
    ensures Final(r, reports, now) == Run(r, reports, now)[|reports| - 1]
    decreases reports
  {
    if |reports| > 1 {
      FinalIsLastOfRun(Step(r, reports[0], now), reports[1..], now);
    }
  }

  // ---------------------------------------------------------------------
  // Several ticks over all zones

  /**
   * The records after applying a sequence of successful replies in order,
   * the t-th reply stamped with its own time `nows[t]`.
   */
  function ReconcileAll(prev: seq<Record>, replies: seq<seq<bool>>, nows: seq<int>): seq<Record>
    requires |nows| == |replies|
    decreases replies
  {
    if replies == [] then prev
    else ReconcileAll(Reconcile(prev, replies[0], nows[0]), replies[1..], nows[1..])
  }

  function Column(replies: seq<seq<bool>>, i: nat): (c: seq<bool>)
    requires forall t :: 0 <= t < |replies| ==> i < |replies[t]|
    ensures |c| == |replies|
  {
    seq(|replies|, t requires 0 <= t < |replies| => replies[t][i])
  }

  // ---------------------------------------------------------------------
  // Time stamps are written, never read

  /** Two records that agree on everything but the time they were last updated. */
  predicate SameClock(a: Record, b: Record) {
    a.occupied == b.occupied && a.violationTime == b.violationTime
  }

  predicate ClocksAgree(rs: seq<Record>, ss: seq<Record>) {
    |rs| == |ss| && forall i :: 0 <= i < |rs| ==> SameClock(rs[i], ss[i])
  }

  /** A step's occupancy and violation time depend on the flag and the old clock, never on the time. */
  lemma StepIgnoresTime(a: Record, b: Record, occupied: bool, t1: int, t2: int)
    requires SameClock(a, b)
    ensures SameClock(Step(a, occupied, t1), Step(b, occupied, t2))
  {
  }

  /** One reply applied at two different times to records with the same clocks gives records with the same clocks. */
  lemma ReconcileIgnoresTime(prev: seq<Record>, prev': seq<Record>, reports: seq<bool>, t1: int, t2: int)
    requires ClocksAgree(prev, prev')
    ensures ClocksAgree(Reconcile(prev, reports, t1), Reconcile(prev', reports, t2))
  {
    var r, r' := Reconcile(prev, reports, t1), Reconcile(prev', reports, t2);
    forall i | 0 <= i < |r|
      ensures SameClock(r[i], r'[i])
    {
      if i < |reports| {
        StepIgnoresTime(RecordAt(prev, i, t1), RecordAt(prev', i, t2), reports[i], t1, t2);
      }
    }
  }

  /** However the replies of a run are stamped, every zone ends with the same occupancy and violation time. */
  lemma {:induction false} ReconcileAllIgnoresTime(prev: seq<Record>, prev': seq<Record>, replies: seq<seq<bool>>,
                                                  nows: seq<int>, nows': seq<int>)
    requires |nows| == |replies| && |nows'| == |replies|
    requires ClocksAgree(prev, prev')
    ensures ClocksAgree(ReconcileAll(prev, replies, nows), ReconcileAll(prev', replies, nows'))
    decreases replies
  {
    if replies != [] {
      ReconcileIgnoresTime(prev, prev', replies[0], nows[0], nows'[0]);
      ReconcileAllIgnoresTime(Reconcile(prev, replies[0], nows[0]), Reconcile(prev', replies[0], nows'[0]),
                              replies[1..], nows[1..], nows'[1..]);
    }
  }

  /** The illegal count and the alerts read only occupancy and violation time. */
  lemma {:induction false} VerdictsIgnoreTime(rs: seq<Record>, ss: seq<Record>, threshold: int)
    requires ClocksAgree(rs, ss)
    ensures IllegalCount(rs, threshold) == IllegalCount(ss, threshold)
    ensures Alerts(rs, threshold) == Alerts(ss, threshold)
  {
    if rs != [] {
      var n := |rs| - 1;
      assert ClocksAgree(rs[..n], ss[..n]) by {
        forall i | 0 <= i < n
          ensures SameClock(rs[..n][i], ss[..n][i])
        {
          assert rs[..n][i] == rs[i] && ss[..n][i] == ss[i];
        }
      }
      VerdictsIgnoreTime(rs[..n], ss[..n], threshold);
      assert SameClock(rs[n], ss[n]);
    }
  }

  /** A single-zone run stamped with one time ends with the same clock from any start with the same clock. */
  lemma {:induction false} FinalIgnoresStart(a: Record, b: Record, reports: seq<bool>, now: int)
    requires SameClock(a, b)
    ensures SameClock(Final(a, reports, now), Final(b, reports, now))
    decreases reports
  {
    if reports != [] {
      StepIgnoresTime(a, b, reports[0], now, now);
      FinalIgnoresStart(Step(a, reports[0], now), Step(b, reports[0], now), reports[1..], now);
    }
  }

  /**
   * Zones evolve independently: over replies that all cover zone i, the
   * clock of zone i is that of the single-zone run of its own flags, at
   * whatever times the replies arrive.
   */
  lemma {:induction false} ZoneEvolvesAlone(prev: seq<Record>, replies: seq<seq<bool>>, nows: seq<int>, i: nat, now: int)
    requires |nows| == |replies|
    requires forall t :: 0 <= t < |replies| ==> i < |replies[t]|
    requires |replies| > 0 || i < |prev|
    ensures i < |ReconcileAll(prev, replies, nows)|
    ensures SameClock(ReconcileAll(prev, replies, nows)[i], Final(RecordAt(prev, i, now), Column(replies, i), now))
    decreases replies
  {
    if replies != [] {
      var next := Reconcile(prev, replies[0], nows[0]);
      ReconcileSpec(prev, replies[0], nows[0]);
      assert next[i] == Step(RecordAt(prev, i, nows[0]), replies[0][i], nows[0]);
      assert Column(replies, i)[0] == replies[0][i];
      assert Column(replies, i)[1..] == Column(replies[1..], i);
      ZoneEvolvesAlone(next, replies[1..], nows[1..], i, now);
      assert RecordAt(next, i, now) == next[i];
      StepIgnoresTime(RecordAt(prev, i, nows[0]), RecordAt(prev, i, now), replies[0][i], nows[0], now);
      FinalIgnoresStart(next[i], Step(RecordAt(prev, i, now), replies[0][i], now), Column(replies[1..], i), now);
    }
  }

  /**
   * Debouncing over the whole engine, with a fixed threshold: a zone that is
   * free and then reported occupied by every reply alerts after exactly one
   * of those replies, the (threshold+2)-th, whatever times the replies carry.
   */
  lemma ContinuousOccupancyAlertsOnce(prev: seq<Record>, replies: seq<seq<bool>>, nows: seq<int>, i: nat, threshold: int)
    requires |nows| == |replies|
    requires i < |prev| && !prev[i].occupied
    requires forall t :: 0 <= t < |replies| ==> i < |replies[t]| && replies[t][i]
    ensures forall n :: 1 <= n <= |replies| ==>
              (i in Alerts(ReconcileAll(prev, replies[..n], nows[..n]), threshold) <==> n == threshold + 2)
  {
    forall n | 1 <= n <= |replies|
      ensures i in Alerts(ReconcileAll(prev, replies[..n], nows[..n]), threshold) <==> n == threshold + 2
    {
      var upTo := replies[..n];
      var now := nows[n - 1];
      ZoneEvolvesAlone(prev, upTo, nows[..n], i, now);
      assert Column(upTo, i) == Trues(n);
      FinalIsLastOfRun(prev[i], Trues(n), now);
      ContinuousOccupancy(prev[i], n, now);
      AlertsSpec(ReconcileAll(prev, upTo, nows[..n]), threshold);
    }
  }
}
