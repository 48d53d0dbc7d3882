/**
 * The browser-side occupancy and violation engine: one state object holding
 * the drawn zones, one occupancy record per zone, the detection mode with its
 * polling timer, the illegal-parking count and the history window. Every
 * operation below updates that object in place.
 */
module Engine {
  import opened Wire
  import opened Occupancy
  import HistoryWindow
  import ZoneStore
  import ServerRule

  /** What a `/detect` round trip delivers: no reply at all, or the decoded JSON body. */
  datatype DetectReply =
    | RequestFailed
    | Reply(success: bool, detections: seq<Detection>, parkingStatus: seq<bool>)

  /** The three ways a start request ends. */
  datatype StartOutcome = CameraRequired | ZonesRequired | Started

  class EngineState {
    var detectMode: bool
    var parkingZones: seq<Zone>
    var occupiedStatus: seq<Record>
    var carDetections: seq<Detection>
    /** The handle of the running polling timer, if any. */
    var detectionInterval: Option<nat>
    var illegalParkingCount: nat
    var violationThreshold: int
    var detectionIntervalMs: int
    var detectionHistory: HistoryWindow.History
    /** The browser's table of live interval timers: handle to period in milliseconds. */
    var timers: map<nat, int>
    /** The next handle the browser hands out. */
    var nextTimerId: nat

    /**
     * Detection runs exactly when a timer handle is held; that handle is then
     * the only live timer and fires at the configured period. Records keep
     * their invariant, and the three history series stay aligned and bounded.
     */
    ghost predicate Valid()
      reads this
    {
      && (detectMode <==> detectionInterval.Some?)
      && (detectionInterval.Some? ==> timers == map[detectionInterval.value := detectionIntervalMs])
      && (detectionInterval.None? ==> timers == map[])
      && (forall id :: id in timers ==> id < nextTimerId)
      && AllConsistent(occupiedStatus)
      && HistoryWindow.Aligned(detectionHistory)
    }

    /**
     * The state object as the page declares it. On load the page then copies
     * the two slider values in, which is this constructor followed by
     * `UpdateThreshold` and `UpdateInterval`.
     */
    constructor ()
      ensures Valid()
      ensures !detectMode && detectionInterval.None? && timers == map[]
      ensures parkingZones == [] && occupiedStatus == [] && carDetections == []
      ensures illegalParkingCount == 0 && violationThreshold == 10 && detectionIntervalMs == 1000
      ensures detectionHistory == HistoryWindow.History([], [], [])
    {
      detectMode := false;
      parkingZones := [];
      occupiedStatus := [];
      carDetections := [];
      detectionInterval := None;
      illegalParkingCount := 0;
      violationThreshold := 10;
      detectionIntervalMs := 1000;
      detectionHistory := HistoryWindow.History([], [], []);
      timers := map[];
      nextTimerId := 1;
    }

    /**
     * A drag from (startX, startY) to (x, y) ends: the zone is added with a
     * fresh record when it spans more than 20 pixels on both axes.
     */
    method AddZone(startX: int, startY: int, x: int, y: int, now: int) returns (added: bool)
      requires Valid()
      modifies this`parkingZones, this`occupiedStatus
      ensures Valid()
      ensures added <==> Abs(x - startX) > ZoneStore.MinSpan && Abs(y - startY) > ZoneStore.MinSpan
      ensures added ==> parkingZones == old(parkingZones) + [ZoneStore.NormalizeZone(startX, startY, x, y).value]
      ensures added ==> occupiedStatus == old(occupiedStatus) + [Fresh(now)]
      ensures added ==> var z := parkingZones[|parkingZones| - 1]; z.x1 < z.x2 && z.y1 < z.y2
      ensures !added ==> parkingZones == old(parkingZones) && occupiedStatus == old(occupiedStatus)
    {
      var zone := ZoneStore.NormalizeZone(startX, startY, x, y);
      added := zone.Some?;
      if added {
        parkingZones := parkingZones + [zone.value];
        occupiedStatus := occupiedStatus + [Fresh(now)];
      }
    }

    /** Remove every zone and record; with no zones, nothing changes. */
    method ClearZones() returns (cleared: bool)
      requires Valid()
      modifies this`parkingZones, this`occupiedStatus, this`illegalParkingCount
      ensures Valid()
      ensures cleared <==> old(parkingZones) != []
      ensures !cleared ==> unchanged(this)
      ensures cleared ==> parkingZones == [] && occupiedStatus == [] && illegalParkingCount == 0
    {
      if |parkingZones| == 0 {
        return false;
      }
      parkingZones := [];
      occupiedStatus := [];
      illegalParkingCount := 0;
      cleared := true;
    }

    /** The violation threshold slider moves. */
    method UpdateThreshold(threshold: int)
      requires Valid()
      modifies this`violationThreshold
      ensures Valid()
      ensures violationThreshold == threshold
    {
      violationThreshold := threshold;
    }

    /**
     * Start polling: refused without a camera stream or without zones;
     * otherwise every record is reset to fresh, any previous timer is
     * cancelled, a single new one is set, and a first request goes out.
     */
    method StartDetection(hasCamera: bool, now: int) returns (outcome: StartOutcome, request: Option<seq<Zone>>)
      requires Valid()
      modifies this`detectMode, this`occupiedStatus, this`detectionInterval, this`timers, this`nextTimerId
      ensures Valid()
      ensures outcome == if !hasCamera then CameraRequired
                         else if old(parkingZones) == [] then ZonesRequired
                         else Started
      ensures outcome != Started ==> unchanged(this) && request == None
      ensures outcome == Started ==>
                && detectMode
                && occupiedStatus == seq(|parkingZones|, _ => Fresh(now))
                && detectionInterval == Some(old(nextTimerId))
                && timers == map[old(nextTimerId) := detectionIntervalMs]
                && request == Some(parkingZones)
    {
      if !hasCamera {
        return CameraRequired, None;
      }
      if |parkingZones| == 0 {
        return ZonesRequired, None;
      }
      detectMode := true;
      occupiedStatus := seq(|parkingZones|, _ => Fresh(now));
      if detectionInterval.Some? {
        timers := timers - {detectionInterval.value};
      }
      timers := timers[nextTimerId := detectionIntervalMs];
      detectionInterval := Some(nextTimerId);
      nextTimerId := nextTimerId + 1;
      outcome := Started;
      request := CaptureAndDetect();
    }

    /** Stop polling and cancel the timer; stopping twice is the same as stopping once. */
    method StopDetection()
      requires Valid()
      modifies this`detectMode, this`detectionInterval, this`timers
      ensures Valid()
      ensures !detectMode && detectionInterval == None && timers == map[]
      ensures !old(detectMode) ==> unchanged(this)
    {
      detectMode := false;
      if detectionInterval.Some? {
        timers := timers - {detectionInterval.value};
        detectionInterval := None;
      }
    }

    /**
     * The interval slider moves: the period is stored, and only while
     * detection runs is the timer replaced by one with the new period.
     */
    method UpdateInterval(ms: int)
      requires Valid()
      modifies this`detectionIntervalMs, this`detectionInterval, this`timers, this`nextTimerId
      ensures Valid()
      ensures detectionIntervalMs == ms
      ensures old(detectMode) ==> detectionInterval == Some(old(nextTimerId)) && timers == map[old(nextTimerId) := ms]
      ensures !old(detectMode) ==>
                detectionInterval == old(detectionInterval) && timers == old(timers) && nextTimerId == old(nextTimerId)
    {
      detectionIntervalMs := ms;
      if detectMode && detectionInterval.Some? {
        timers := timers - {detectionInterval.value};
        timers := timers[nextTimerId := detectionIntervalMs];
        detectionInterval := Some(nextTimerId);
        nextTimerId := nextTimerId + 1;
      }
    }

    /** A timer firing: when detection runs, a request carrying the current zones goes out. */
    method CaptureAndDetect() returns (request: Option<seq<Zone>>)
      ensures request == if detectMode then Some(parkingZones) else None
    {
      if !detectMode {
        return None;
      }
      request := Some(parkingZones);
    }

    /**
     * A reply to an earlier request arrives. It is applied whether or not
     * detection still runs. A successful reply reconciles the records with
     * the reported flags, stores the detections, recomputes the illegal count
     * and the alerts over all records, and appends one sample to each history
     * series; any other reply changes nothing. Returns the zones to alert on
     * and the number of zones the reply reports occupied.
     */
    method ApplyReply(reply: DetectReply, now: int, timeLabel: string) returns (alerts: seq<nat>, occupiedCount: nat)
      requires Valid()
      modifies this`occupiedStatus, this`carDetections, this`illegalParkingCount,
               this`detectionHistory
      ensures Valid()
      ensures reply.Reply? && reply.success ==>
                && occupiedStatus == Reconcile(old(occupiedStatus), reply.parkingStatus, now)
                && carDetections == reply.detections
                && illegalParkingCount == IllegalCount(occupiedStatus, violationThreshold)
                && alerts == Alerts(occupiedStatus, violationThreshold)
                && detectionHistory ==
                     HistoryWindow.RecordSample(old(detectionHistory), timeLabel, |reply.detections|, illegalParkingCount)
      ensures !(reply.Reply? && reply.success) ==> unchanged(this) && alerts == []
      ensures occupiedCount == if reply.Reply? && reply.success then CountTrue(reply.parkingStatus) else 0
    {
      if reply.Reply? && reply.success {
        alerts, occupiedCount := ApplySuccess(reply.detections, reply.parkingStatus, now, timeLabel);
      } else {
        alerts, occupiedCount := [], 0;
      }
    }

    /** The `data.success` branch of the reply handler. */
    method ApplySuccess(detections: seq<Detection>, reports: seq<bool>, now: int, timeLabel: string)
      returns (alerts: seq<nat>, occupiedCount: nat)
      requires Valid()
      modifies this`occupiedStatus, this`carDetections, this`illegalParkingCount, this`detectionHistory
      ensures Valid()
      ensures occupiedStatus == Reconcile(old(occupiedStatus), reports, now)
      ensures carDetections == detections
      ensures illegalParkingCount == IllegalCount(occupiedStatus, violationThreshold)
      ensures alerts == Alerts(occupiedStatus, violationThreshold)
      ensures detectionHistory == HistoryWindow.RecordSample(old(detectionHistory), timeLabel, |detections|, illegalParkingCount)
      ensures occupiedCount == CountTrue(reports)
    {
      carDetections := detections;
      occupiedCount := ReconcileRecords(reports, now);
      var currentIllegalCount;
      currentIllegalCount, alerts := CountIllegal();
      if currentIllegalCount != illegalParkingCount {
        illegalParkingCount := currentIllegalCount;
      }
      UpdateHistory(timeLabel);
    }

    /**
     * The `parkingStatus.forEach` of a successful reply: each reported flag
     * updates the record at the same index, a missing record being created
     * fresh first; records past the end of the reply are left alone.
     */
    method ReconcileRecords(reports: seq<bool>, now: int) returns (occupiedCount: nat)
      requires AllConsistent(occupiedStatus)
      modifies this`occupiedStatus
      ensures AllConsistent(occupiedStatus)
      ensures occupiedStatus == Reconcile(old(occupiedStatus), reports, now)
      ensures occupiedCount == CountTrue(reports)
    {
      ghost var prev := occupiedStatus;
      occupiedCount := 0;
      var i := 0;
      while i < |reports|
        invariant 0 <= i <= |reports|
        invariant |occupiedStatus| == Max(|prev|, i)
        invariant forall j :: 0 <= j < i ==> occupiedStatus[j] == Step(RecordAt(prev, j, now), reports[j], now)
        invariant forall j :: i <= j < |prev| ==> occupiedStatus[j] == prev[j]
        invariant occupiedCount == CountTrue(reports[..i])
      {
        if i == |occupiedStatus| {
          occupiedStatus := occupiedStatus + [Fresh(now)];
        }
        var rec := occupiedStatus[i];
        if reports[i] {
          occupiedCount := occupiedCount + 1;
          if rec.occupied {
            rec := rec.(violationTime := rec.violationTime + 1);
          } else {
            rec := rec.(occupied := true, violationTime := 0);
          }
        } else {
          rec := rec.(occupied := false, violationTime := 0);
        }
        rec := rec.(lastUpdated := now);
        occupiedStatus := occupiedStatus[i := rec];
        assert reports[..i + 1][..i] == reports[..i];
        i := i + 1;
      }
      assert reports[..i] == reports;
      assert occupiedStatus == Reconcile(prev, reports, now);
    }

    /**
     * The second `forEach` of a successful reply: count the records occupied
     * beyond the threshold and pick those that have just crossed it.
     */
    method CountIllegal() returns (currentIllegalCount: nat, alerts: seq<nat>)
      ensures currentIllegalCount == IllegalCount(occupiedStatus, violationThreshold)
      ensures alerts == Alerts(occupiedStatus, violationThreshold)
    {
      currentIllegalCount, alerts := 0, [];
      var k := 0;
      while k < |occupiedStatus|
        invariant 0 <= k <= |occupiedStatus|
        invariant currentIllegalCount == IllegalCount(occupiedStatus[..k], violationThreshold)
        invariant alerts == Alerts(occupiedStatus[..k], violationThreshold)
      {
        var status := occupiedStatus[k];
        if status.occupied && status.violationTime > violationThreshold {
          currentIllegalCount := currentIllegalCount + 1;
          if status.violationTime == violationThreshold + 1 {
            alerts := alerts + [k];
          }
        }
        assert occupiedStatus[..k + 1][..k] == occupiedStatus[..k];
        k := k + 1;
      }
      assert occupiedStatus[..k] == occupiedStatus;
    }

    /** Append one history sample: shift all three series once they hold more than ten, then push. */
    method UpdateHistory(timeLabel: string)
      requires HistoryWindow.Aligned(detectionHistory)
      modifies this`detectionHistory
      ensures HistoryWindow.Aligned(detectionHistory)
      ensures detectionHistory ==
                HistoryWindow.RecordSample(old(detectionHistory), timeLabel, |carDetections|, illegalParkingCount)
    {
      var h := detectionHistory;
      if |h.labels| > 10 {
        h := h.(labels := h.labels[1..], vehicles := h.vehicles[1..], illegals := h.illegals[1..]);
      }
      h := h.(labels := h.labels + [timeLabel], vehicles := h.vehicles + [|carDetections|],
               illegals := h.illegals + [illegalParkingCount]);
      detectionHistory := h;
    }

    /**
     * One polling tick: nothing happens when detection is off; otherwise the
     * request goes out and its reply is applied.
     */
    method Tick(reply: DetectReply, now: int, timeLabel: string) returns (alerts: seq<nat>)
      requires Valid()
      modifies this`occupiedStatus, this`carDetections, this`illegalParkingCount,
               this`detectionHistory
      ensures Valid()
      ensures !old(detectMode) || !(reply.Reply? && reply.success) ==> unchanged(this) && alerts == []
      ensures old(detectMode) && reply.Reply? && reply.success ==>
                && occupiedStatus == Reconcile(old(occupiedStatus), reply.parkingStatus, now)
                && carDetections == reply.detections
                && illegalParkingCount == IllegalCount(occupiedStatus, violationThreshold)
                && alerts == Alerts(occupiedStatus, violationThreshold)
                && detectionHistory ==
                     HistoryWindow.RecordSample(old(detectionHistory), timeLabel, |reply.detections|, illegalParkingCount)
    {
      var request := CaptureAndDetect();
      if request.None? {
        return [];
      }
      var occupiedCount;
      alerts, occupiedCount := ApplyReply(reply, now, timeLabel);
    }
  }

  /**
   * One tick served by the detection rule: the request carries the current
   * zones, the server answers with one flag per zone, and the reply is
   * applied. Records aligned with the zones stay aligned.
   */
  method TickWithServer(e: EngineState, raws: seq<ServerRule.RawBox>, now: int, timeLabel: string)
    returns (alerts: seq<nat>)
    requires e.Valid()
    modifies e`occupiedStatus, e`carDetections, e`illegalParkingCount, e`detectionHistory
    ensures e.Valid()
    ensures e.parkingZones == old(e.parkingZones)
    ensures old(|e.occupiedStatus| == |e.parkingZones|) ==> |e.occupiedStatus| == |e.parkingZones|
    ensures old(e.detectMode) ==>
              && e.carDetections == ServerRule.Kept(raws)
              && e.occupiedStatus ==
                   Reconcile(old(e.occupiedStatus), ServerRule.ParkingStatus(e.parkingZones, e.carDetections), now)
              && e.illegalParkingCount == IllegalCount(e.occupiedStatus, e.violationThreshold)
              && alerts == Alerts(e.occupiedStatus, e.violationThreshold)
              && e.detectionHistory ==
                   HistoryWindow.RecordSample(old(e.detectionHistory), timeLabel, |e.carDetections|, e.illegalParkingCount)
    ensures !old(e.detectMode) ==> unchanged(e) && alerts == []
  {
    var request := e.CaptureAndDetect();
    if request.None? {
      return [];
    }
    var detections, status := ServerRule.Detect(request.value, raws);
    var occupiedCount;
    alerts, occupiedCount := e.ApplyReply(Reply(true, detections, status), now, timeLabel);
  }

  /**
   * The timer fires twice and the server answers both ticks: detection keeps
   * running, and the records are those of the two replies applied in order,
   * each at its own time, so the multi-reply lemmas of `Occupancy` apply.
   */
  method TwoServerTicks(e: EngineState, raws1: seq<ServerRule.RawBox>, raws2: seq<ServerRule.RawBox>,
                        now1: int, now2: int, label1: string, label2: string)
    returns (alerts1: seq<nat>, alerts2: seq<nat>)
    requires e.Valid() && e.detectMode
    modifies e`occupiedStatus, e`carDetections, e`illegalParkingCount, e`detectionHistory
    ensures e.Valid() && e.detectMode
    ensures e.occupiedStatus ==
              ReconcileAll(old(e.occupiedStatus),
                           [ServerRule.ParkingStatus(e.parkingZones, ServerRule.Kept(raws1)),
                            ServerRule.ParkingStatus(e.parkingZones, ServerRule.Kept(raws2))],
                           [now1, now2])
    ensures alerts2 == Alerts(e.occupiedStatus, e.violationThreshold)
    ensures e.illegalParkingCount == IllegalCount(e.occupiedStatus, e.violationThreshold)
  {
    ghost var prev := e.occupiedStatus;
    ghost var replies := [ServerRule.ParkingStatus(e.parkingZones, ServerRule.Kept(raws1)),
                          ServerRule.ParkingStatus(e.parkingZones, ServerRule.Kept(raws2))];
    alerts1 := TickWithServer(e, raws1, now1, label1);
    ghost var middle := e.occupiedStatus;
    alerts2 := TickWithServer(e, raws2, now2, label2);
    assert replies[1..] == [replies[1]] && [now1, now2][1..] == [now2];
    assert ReconcileAll(middle, [replies[1]], [now2]) == e.occupiedStatus;
  }

  /**
   * Replies are not checked against the zones they were computed for: a
   * reply to a request sent before the zones were cleared brings back one
   * record per old zone, while no zone is left.
   */
  method StaleReplyAfterClear(e: EngineState, raws: seq<ServerRule.RawBox>, now: int, timeLabel: string)
    requires e.Valid() && e.detectMode && e.parkingZones != []
    modifies e
    ensures e.Valid()
    ensures e.parkingZones == [] && |e.occupiedStatus| == |old(e.parkingZones)| > 0
  {
    var request := e.CaptureAndDetect();
    var cleared := e.ClearZones();
    var detections, status := ServerRule.Detect(request.value, raws);
    var alerts, occupiedCount := e.ApplyReply(Reply(true, detections, status), now, timeLabel);
  }
}
