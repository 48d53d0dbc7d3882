# Illegal-parking check: occupancy engine and zone-occupancy rule

This project is a Dafny model of the two parts of the illegal-parking checker that carry real logic:

- **The browser engine** (`static/js/main.js`). It keeps one state object: the drawn parking zones, one occupancy record per zone, the detection mode and its polling timer, the illegal-parking count, the violation threshold and a short detection history. On each polling tick it sends the zones to the server. Each successful reply then updates the records:
  - A zone reported occupied gains one "second" per reply.
  - Any free report resets the zone's record.
  - The engine recounts the zones occupied beyond the threshold.
  - It raises an alert exactly when a zone's time equals threshold + 1.
  - It appends one sample to each history series.
- **The server rule** (`app.py`, inside `detect`). First the model's boxes are filtered to cars, buses and trucks (classes 2, 5, 7) with confidence above 0.4. A zone is then occupied when some kept box, with its top-left corner clamped at 0, overlaps the zone by more than 30% of the box's own area.

Layout:

- `wire.dfy` (`Wire`): the zone and detection values the two sides exchange.
- `server_rule.dfy` (`ServerRule`): the filter, the overlap test and `Detect`. `Detect` is the loops of `detect`, split into a filter loop and a per-zone scan that stops at the first covering box.
- `occupancy.dfy` (`Occupancy`): the reconciliation rule as pure functions. It also has lemmas about single zones and about runs of replies.
- `history_window.dfy` (`HistoryWindow`): the three-series history window.
- `zone_store.dfy` (`ZoneStore`): zone creation from a drag.
- `presentation.dfy` (`Presentation`): the zone badge and the vehicle label.
- `engine.dfy` (`Engine`): the state object as the class `EngineState`. Its methods update it in place and are proved against the functions above. The browser's interval timers are modelled as a table from handle to period (`timers`) plus the next free handle.

## Behaviour as written

The model follows the code, including these points:

- **History window holds 11 samples.** The window shifts only when a series already holds more than 10 samples, so it settles at 11 (`HistoryWindow.WindowKeepsLatest`). The comment beside it says 10.
- **Alert on the (threshold+2)-th report.** A zone's first occupied report sets its time to 0, so a continuously occupied zone alerts on its (threshold+2)-th consecutive occupied report. This is also when its time first reaches threshold + 1 (`Occupancy.ContinuousOccupancyAlertsOnce`).
- **Zone size check is strict.** A drawn zone must span strictly more than 20 px on each axis; a span of exactly 20 px is refused.
- **No stale-reply check.** A reply is never checked against the zones it was computed for, nor against `detectMode`. A reply that arrives after `stopDetection` or `clearZones` is still applied. After a clear, it brings back one record per old zone while no zone is left (`Engine.StaleReplyAfterClear`). So "one record per zone" is not an invariant of the engine.
- **Start does not reset the count.** `startDetection` resets every record but leaves `illegalParkingCount` as it was until the next successful reply.
- **Alerts scan every record.** The alert test runs over all records, not only those the reply covered. A record past the end of the reply whose time equals threshold + 1 alerts again on every reply. A threshold change can likewise skip or repeat an alert.

## Model

| member | source | states |
|---|---|---|
| ServerRule.Trunc | app.py:67-73 | `int()` of a float truncates toward zero: the result is within one of the input, on the side of 0 |
| ServerRule.Kept | app.py:62-74 | kept detections are exactly the boxes with class 2, 5 or 7 and confidence > 0.4; every kept box appears and nothing else does; never more than the input |
| ServerRule.KeptAppend | app.py:62-74 | filtering distributes over concatenation, so kept detections keep the model's order |
| ServerRule.FilterDetections | app.py:62-74 | the filter loop computes exactly `Kept(raws)` |
| ServerRule.CarAreaPositive | app.py:91-104 | whenever the overlap has positive width and height, the clamped box has positive area (no division by zero), and the overlap area is at most the box area |
| ServerRule.CoversIff | app.py:88-105 | a box covers a zone iff the overlap has positive width and height and 10 × overlap area > 3 × box area |
| ServerRule.EdgeContactNeverCovers | app.py:101 | a box and zone that only share an edge, or are apart, never mark the zone occupied |
| ServerRule.BoxInsideZoneCovers | app.py:84-105 | a clamped box with positive area lying wholly inside a zone always marks it occupied |
| ServerRule.ParkingStatus | app.py:77-108 | one flag per zone, in zone order; flag i is true iff some kept detection covers zone i |
| ServerRule.NothingKeptNothingOccupied | app.py:79-80 | when no box passes the filter, every zone is reported free |
| ServerRule.OccupiedOrderIndependent | app.py:80-106 | a zone's flag depends only on the multiset of detections, not their order |
| ServerRule.ZoneOccupied | app.py:79-106 | the inner loop, which stops at the first covering box, returns whether some detection covers the zone |
| ServerRule.Detect | app.py:62-108 | `detect` returns the kept detections and exactly one flag per zone, as defined by `ParkingStatus` |
| Occupancy.Step | static/js/main.js:759-772 | a record updated by one flag keeps the invariant "not occupied ⇒ violation time 0" |
| Occupancy.Reconcile | static/js/main.js:750-773 | after a reply, the record list is as long as the longer of the old records and the reply |
| Occupancy.ReconcileSpec | static/js/main.js:750-773 | occupied on an occupied record: time + 1; occupied otherwise, including a defaulted missing record: occupied with time 0; free: unoccupied with time 0; records past the reply untouched; the invariant is kept |
| Occupancy.IllegalCountIsCardinality | static/js/main.js:778-782 | the illegal count equals the number of records that are occupied with time > threshold |
| Occupancy.AlertsSpec | static/js/main.js:779-790 | a zone index is alerted iff its record is occupied with time == threshold + 1; alerts are in increasing zone order and within range |
| Occupancy.AlertsAreIllegal | static/js/main.js:780-784 | every alerted zone is also counted as illegal |
| Occupancy.AlignedReplyKeepsLength | static/js/main.js:750-757 | a reply with one flag per record keeps the number of records |
| Occupancy.ContinuousOccupancy | static/js/main.js:759-766 | over consecutive occupied reports, the first sets time 0 (or +1 if already occupied) and each later one adds exactly 1 |
| Occupancy.AlertsOnceWhileOccupied | static/js/main.js:759-790 | a free zone reported occupied k times in a row alerts exactly on the (threshold+2)-th report: once if k ≥ threshold + 2 and threshold ≥ -1, otherwise never |
| Occupancy.GapRestartsClock | static/js/main.js:767-770 | one free report restarts the clock: the following occupied reports count again from 0 |
| Occupancy.StepIgnoresTime | static/js/main.js:759-772 | a record's new occupancy and violation time depend on the flag and its old clock, never on the time stamp |
| Occupancy.ReconcileIgnoresTime | static/js/main.js:750-773 | one reply applied at two different times to records with equal clocks (occupancy and violation time) gives records with equal clocks |
| Occupancy.ReconcileAllIgnoresTime | static/js/main.js:750-773 | however a sequence of replies is time-stamped, every zone ends with the same occupancy and violation time |
| Occupancy.VerdictsIgnoreTime | static/js/main.js:777-790 | records with equal clocks give the same illegal count and the same alerts: time stamps are written, never read |
| Occupancy.FinalIgnoresStart | static/js/main.js:759-772 | a single-zone run from two starts with equal clocks ends with equal clocks |
| Occupancy.ZoneEvolvesAlone | static/js/main.js:750-773 | over replies that all cover zone i, each at its own time, zone i's occupancy and violation time are those of the single-zone run of its own flags, whatever the other zones do |
| Occupancy.ContinuousOccupancyAlertsOnce | static/js/main.js:750-792 | with a fixed threshold, a free zone reported occupied by every reply, each reply at its own time, is alerted after the n-th reply iff n == threshold + 2 |
| HistoryWindow.Push | static/js/main.js:126-135 | one push adds a sample and drops one only when the series held more than 10 |
| HistoryWindow.PushBounded | static/js/main.js:126-135 | a series of at most 11 samples grows by one until it holds 11, then stays at 11 |
| HistoryWindow.WindowKeepsLatest | static/js/main.js:126-135 | from empty, after n pushes the series is exactly the last min(n, 11) samples, oldest first |
| HistoryWindow.RecordKeepsAligned | static/js/main.js:126-135 | recording a sample keeps the three series of equal length and at most 11, with the new sample last in each |
| ZoneStore.NormalizeZone | static/js/main.js:549-562 | a zone is made iff both drag extents exceed 20 px; it then has x1 < x2, y1 < y2, each span > 20, and its corners are the drag's coordinates ordered by min/max |
| ZoneStore.DragDirectionIrrelevant | static/js/main.js:550-554 | the stored zone does not depend on the direction of the drag |
| Presentation.BadgeOf | static/js/main.js:669-683 | a zone shows "Available" iff unoccupied and "Illegal" iff occupied with time > threshold; otherwise "Occupied"; the badge carries the record's time |
| Presentation.StatusList | static/js/main.js:658-659 | one badge per zone; a zone with no record is shown as available |
| Presentation.IllegalBadgesMatchCount | static/js/main.js:658-683 | with one record per zone, the list shows as many illegal badges as the illegal count |
| Presentation.VehicleLabel | static/js/main.js:1006-1013 | the label is "Vehicle" iff the class is not 2, 5 or 7 |
| Presentation.KeptDetectionsHaveSpecificLabels | static/js/main.js:1006-1013 | every detection the server keeps is labelled Car, Bus or Truck |
| Engine.EngineState.constructor | static/js/main.js:35-59 | the declared state object: no zones, records or detections, detection off, no timer, threshold 10, interval 1000 ms, empty history; the page's real start (`init`, main.js:65-72) is this followed by `UpdateThreshold` and `UpdateInterval` with the slider values |
| Engine.EngineState.AddZone | static/js/main.js:549-568 | a drag spanning > 20 px on both axes appends the ordered zone and one fresh record; otherwise zones and records are unchanged |
| Engine.EngineState.ClearZones | static/js/main.js:413-421 | with no zones nothing changes; otherwise zones and records are emptied and the illegal count is set to 0 |
| Engine.EngineState.UpdateThreshold | static/js/main.js:692-695 | the threshold becomes the slider value; nothing else changes and the state stays valid |
| Engine.EngineState.StartDetection | static/js/main.js:467-501 | without a camera or without zones nothing changes; otherwise detection is on, every record is fresh (one per zone), the old timer is cancelled and exactly one new timer with the current period is live, and a first request carrying the zones goes out |
| Engine.EngineState.StopDetection | static/js/main.js:504-510 | detection is off and no timer is live; stopping when already stopped changes nothing |
| Engine.EngineState.UpdateInterval | static/js/main.js:698-707 | the period is stored; only while running is the timer replaced by exactly one new timer with the new period |
| Engine.EngineState.CaptureAndDetect | static/js/main.js:710-735 | a request carrying the current zones goes out iff detection is on |
| Engine.EngineState.ApplyReply | static/js/main.js:736-814 | a successful reply reconciles the records, stores the detections, sets the illegal count and the alerts from the new records, and records one history sample; a failed reply or request changes nothing |
| Engine.EngineState.ApplySuccess | static/js/main.js:738-808 | the success branch: records, detections, illegal count, alerts and history as in `ApplyReply` |
| Engine.EngineState.ReconcileRecords | static/js/main.js:747-775 | the `forEach` over the reply leaves exactly `Reconcile(old records, flags)`, keeps the record invariant and counts the occupied flags |
| Engine.EngineState.CountIllegal | static/js/main.js:777-792 | the counting loop returns the illegal count and the alerted zones of the current records |
| Engine.EngineState.UpdateHistory | static/js/main.js:122-135 | one sample (time label, number of detections, illegal count) is recorded in all three series, which stay aligned and bounded |
| Engine.EngineState.Tick | static/js/main.js:710-814 | with detection off a tick changes nothing; otherwise the reply is applied as in `ApplyReply` |
| Engine.TickWithServer | static/js/main.js:726-808 | only records, detections, count and history change; with detection off nothing changes; otherwise it stores `Kept(raws)`, reconciles with `ParkingStatus` of the current zones, and sets the count, the alerts and one history sample from the new records; records aligned with the zones stay aligned |
| Engine.TwoServerTicks | static/js/main.js:495 | two timer firings answered by the server leave detection running and the records equal to `ReconcileAll` of the two replies at their two times, with count and alerts from those records |
| Engine.StaleReplyAfterClear | static/js/main.js:736-757 | a reply to a request sent before the zones were cleared leaves no zone but one record per old zone |

## Left out

- Camera acquisition and device enumeration (main.js:183-213, 298-392) are browser media I/O. The camera enters only as the `hasCamera` flag of `StartDetection`.
- Canvas drawing, the zone-drawing preview, the pulse animation and FPS are pixels, floats and wall-clock time.
- The Chart.js widget, toasts, status text, dark mode and `localStorage` are presentation only. Alerts are returned as 0-based zone indices; the toast names zone index + 1.
- The drawing-mode toggle and the `isDrawing`/`drawMode` guards of the pointer handlers are input capture. `AddZone` models the zone-adding body that `endDrawing` and `handleTouchEnd` both repeat.
- The network and file I/O are not modelled: `fetch` to `/detect` and `/save-coordinates`, the Flask routes, `saveZones`, `save_coordinates` and the coordinate file. A `/detect` round trip is the `DetectReply` parameter, or `ServerRule.Detect` in `TickWithServer`.
- The server-side steps before the filter are not modelled: base64/PIL/OpenCV decoding and YOLO inference. The model's boxes are the `raws` parameter. The server's exception path (`success: false`) appears only as a failed reply on the engine side. A zone that is not four numbers cannot be expressed.
- Real timer timing and asynchrony are abstract:
  - A timer is an entry in the handle table.
  - A tick is a request (`CaptureAndDetect`) followed by its reply (`ApplyReply`).
  - Overlapping in-flight requests are not serialized in the source and are not modelled beyond `StaleReplyAfterClear`.
- `Math.round` of pointer coordinates and `parseInt` of slider values are not modelled; inputs are integers and `NaN` is not modelled.
- `Date.now()` is read once per reply as `now`, although the source reads it per record; the stamps only feed `lastUpdated`, which nothing reads (`Occupancy.VerdictsIgnoreTime`). `performance.now()` and `lastDetectionTime` are display only. History time labels are opaque strings.
- The unused `car_x`, `car_y`, `car_w`, `car_h` values in `detect` are dead code.
- A successful reply without a `parkingStatus` field throws after `carDetections` was already replaced. This case is not modelled.
- The engine's records are JS objects mutated field by field. They are modelled as values in a sequence that is reassigned, which is exact because no record is shared.
- ServerRule.CoversIff: the source's float test `overlap_area / car_area > 0.3` is modelled with exact real division. The two agree whenever the areas are small enough that double rounding cannot cross 0.3; pixel areas of real frames are.
- ServerRule.Kept: confidence is an exact real, not a 32-bit float.
