/**
 * The server-side zone-occupancy rule of the `/detect` route: the raw boxes
 * of the vehicle model are filtered to cars, buses and trucks with enough
 * confidence, and each zone is marked occupied when some kept box, with its
 * top-left corner clamped at 0, overlaps the zone by more than 30% of the
 * box's own area.
 */
module ServerRule {
  import opened Wire

  /** One row of the model's box tensor: corners, confidence and class, all floats. */
  datatype RawBox = RawBox(x1: real, y1: real, x2: real, y2: real, conf: real, cls: real)

  /** Python's `int()` on a float: truncation toward zero. */
  function Trunc(x: real): (r: int)
    ensures 0.0 <= x ==> r as real <= x < r as real + 1.0
    ensures x < 0.0 ==> r as real - 1.0 < x <= r as real
  {
    if x >= 0.0 then x.Floor else -((-x).Floor)
  }

  /** Class ids of car (2), bus (5) and truck (7). */
  predicate VehicleClass(c: int) {
    c == 2 || c == 5 || c == 7
  }

  /** The filter of the first loop of `detect`. */
  predicate Keep(b: RawBox) {
    VehicleClass(Trunc(b.cls)) && b.conf > 0.4
  }

  function ToDetection(b: RawBox): Detection {
    Detection(Trunc(b.x1), Trunc(b.y1), Trunc(b.x2), Trunc(b.y2), b.conf, Trunc(b.cls))
  }

  /** The detections `detect` keeps, in the model's order. */
  function Kept(raws: seq<RawBox>): (r: seq<Detection>)
    ensures |r| <= |raws|
    ensures forall d :: d in r ==> VehicleClass(d.cls) && d.conf > 0.4
    ensures forall d :: d in r ==> exists b :: b in raws && Keep(b) && d == ToDetection(b)
    ensures forall b :: b in raws && Keep(b) ==> ToDetection(b) in r
  {
    if raws == [] then []
    else (if Keep(raws[0]) then [ToDetection(raws[0])] else []) + Kept(raws[1..])
  }

  /** Filtering commutes with concatenation, so the kept detections keep the model's order. */
  lemma {:induction false} KeptAppend(a: seq<RawBox>, b: seq<RawBox>)
    ensures Kept(a + b) == Kept(a) + Kept(b)
  {
    if a == [] {
      assert a + b == b;
    } else {
      assert (a + b)[0] == a[0];
      assert (a + b)[1..] == a[1..] + b;
      KeptAppend(a[1..], b);
    }
  }

  // The box clamped at the top-left (`car_x1 = max(det['x1'], 0)`, `car_x2 = det['x2']`)
  // and its intersection with a zone (`overlap_x1 .. overlap_y2`).

  function CarArea(d: Detection): int {
    (d.x2 - Max(d.x1, 0)) * (d.y2 - Max(d.y1, 0))
  }

  function OverlapWidth(z: Zone, d: Detection): int {
    Min(d.x2, z.x2) - Max(Max(d.x1, 0), z.x1)
  }

  function OverlapHeight(z: Zone, d: Detection): int {
    Min(d.y2, z.y2) - Max(Max(d.y1, 0), z.y1)
  }

  /** Whenever the overlap is a proper rectangle, the clamped box has positive area, so the ratio is defined. */
  lemma CarAreaPositive(z: Zone, d: Detection)
    requires OverlapWidth(z, d) > 0 && OverlapHeight(z, d) > 0
    ensures CarArea(d) > 0
    ensures OverlapWidth(z, d) * OverlapHeight(z, d) <= CarArea(d)
  {
    var w, h := d.x2 - Max(d.x1, 0), d.y2 - Max(d.y1, 0);
    var ow, oh := OverlapWidth(z, d), OverlapHeight(z, d);
    assert 0 < ow <= w && 0 < oh <= h;
    assert ow * oh <= w * oh by { MulMono(ow, w, oh); }
    assert w * oh <= w * h by { MulMono(oh, h, w); }
  }

  lemma MulMono(a: int, b: int, c: int)
    requires 0 <= a <= b && 0 <= c
    ensures a * c <= b * c
  {
  }

  /** The per-detection test of the inner loop of `detect`. */
  predicate Covers(z: Zone, d: Detection) {
    if OverlapWidth(z, d) > 0 && OverlapHeight(z, d) > 0 then
      CarAreaPositive(z, d);
      (OverlapWidth(z, d) * OverlapHeight(z, d)) as real / CarArea(d) as real > 0.3
    else
      false
  }

  /** The float ratio test is the integer comparison `10 * overlap > 3 * carArea`. */
  lemma CoversIff(z: Zone, d: Detection)
    ensures Covers(z, d) <==>
              OverlapWidth(z, d) > 0 && OverlapHeight(z, d) > 0 &&
              10 * (OverlapWidth(z, d) * OverlapHeight(z, d)) > 3 * CarArea(d)
  {
    if OverlapWidth(z, d) > 0 && OverlapHeight(z, d) > 0 {
      CarAreaPositive(z, d);
      var o, c := (OverlapWidth(z, d) * OverlapHeight(z, d)) as real, CarArea(d) as real;
      RatioAbove(o, c);
    }
  }

  lemma RatioAbove(o: real, c: real)
    requires c > 0.0
    ensures o / c > 0.3 <==> 10.0 * o > 3.0 * c
  {
    var q := o / c;
    assert q * c == o;
    if q > 0.3 {
      assert q * c > 0.3 * c;
    } else {
      assert q * c <= 0.3 * c;
    }
  }

  /** Zones and boxes that only share an edge, or do not meet, never count. */
  lemma EdgeContactNeverCovers(z: Zone, d: Detection)
    requires d.x2 <= z.x1 || z.x2 <= Max(d.x1, 0) || d.y2 <= z.y1 || z.y2 <= Max(d.y1, 0)
    ensures !Covers(z, d)
  {
  }

  /** A box with positive area lying entirely inside a zone always marks it occupied. */
  lemma BoxInsideZoneCovers(z: Zone, d: Detection)
    requires z.x1 <= Max(d.x1, 0) < d.x2 <= z.x2
    requires z.y1 <= Max(d.y1, 0) < d.y2 <= z.y2
    ensures Covers(z, d)
  {
    assert OverlapWidth(z, d) * OverlapHeight(z, d) == CarArea(d);
    CarAreaPositive(z, d);
    CoversIff(z, d);
  }

  /** A zone is occupied when some kept detection covers it. */
  predicate Occupied(z: Zone, dets: seq<Detection>) {
    exists d :: d in dets && Covers(z, d)
  }

  /** The `parking_status` list: one flag per zone, in zone order. */
  function ParkingStatus(zones: seq<Zone>, dets: seq<Detection>): (r: seq<bool>)
    ensures |r| == |zones|
    ensures forall i :: 0 <= i < |zones| ==> (r[i] <==> exists d :: d in dets && Covers(zones[i], d))
  {
    seq(|zones|, i requires 0 <= i < |zones| => Occupied(zones[i], dets))
  }

  /** With no kept detection, every zone is reported free. */
  lemma NothingKeptNothingOccupied(zones: seq<Zone>, raws: seq<RawBox>)
    requires forall b :: b in raws ==> !Keep(b)
    ensures forall i :: 0 <= i < |zones| ==> !ParkingStatus(zones, Kept(raws))[i]
  {
  }

  /** A zone's flag depends only on the multiset of detections, not on their order. */
  lemma OccupiedOrderIndependent(z: Zone, a: seq<Detection>, b: seq<Detection>)
    requires multiset(a) == multiset(b)
    ensures Occupied(z, a) == Occupied(z, b)
  {
    if Occupied(z, a) {
      var d :| d in a && Covers(z, d);
      assert d in multiset(a);
      assert d in b;
    }
    if Occupied(z, b) {
      var d :| d in b && Covers(z, d);
      assert d in multiset(b);
      assert d in a;
    }
  }

  /** The first loop of `detect`: keep the vehicle boxes, converting their corners and class to integers. */
  method FilterDetections(raws: seq<RawBox>) returns (detections: seq<Detection>)
    ensures detections == Kept(raws)
  {
    detections := [];
    var k := 0;
    while k < |raws|
      invariant 0 <= k <= |raws|
      invariant detections == Kept(raws[..k])
    {
      var b := raws[k];
      if VehicleClass(Trunc(b.cls)) && b.conf > 0.4 {
        detections := detections + [ToDetection(b)];
      }
      assert Kept([b]) == if Keep(b) then [ToDetection(b)] else [];
      assert raws[..k + 1] == raws[..k] + [b];
      KeptAppend(raws[..k], [b]);
      k := k + 1;
    }
    assert raws[..k] == raws;
  }

  /** The inner loop of `detect` for one zone: stop at the first detection that covers it. */
  method ZoneOccupied(zone: Zone, detections: seq<Detection>) returns (occupied: bool)
    ensures occupied == Occupied(zone, detections)
  {
    occupied := false;
    var j := 0;
    while j < |detections|
      invariant 0 <= j <= |detections|
      invariant forall m :: 0 <= m < j ==> !Covers(zone, detections[m])
    {
      var det := detections[j];
      var carX1, carY1, carX2, carY2 := Max(det.x1, 0), Max(det.y1, 0), det.x2, det.y2;
      var overlapX1, overlapY1 := Max(carX1, zone.x1), Max(carY1, zone.y1);
      var overlapX2, overlapY2 := Min(carX2, zone.x2), Min(carY2, zone.y2);
      if overlapX1 < overlapX2 && overlapY1 < overlapY2 {
        var overlapArea := (overlapX2 - overlapX1) * (overlapY2 - overlapY1);
        var carArea := (carX2 - carX1) * (carY2 - carY1);
        CarAreaPositive(zone, det);
        if overlapArea as real / carArea as real > 0.3 {
          occupied := true;
          assert Covers(zone, det);
          return;
        }
      }
      j := j + 1;
    }
    forall d | d in detections ensures !Covers(zone, d) {
      var m :| 0 <= m < |detections| && detections[m] == d;
    }
  }

  /**
   * The body of `detect` after inference: the kept detections, and one
   * occupancy flag per zone, in zone order.
   */
  method Detect(zones: seq<Zone>, raws: seq<RawBox>) returns (detections: seq<Detection>, parkingStatus: seq<bool>)
    ensures detections == Kept(raws)
    ensures parkingStatus == ParkingStatus(zones, detections)
  {
    detections := FilterDetections(raws);
    parkingStatus := [];
    var zi := 0;
    while zi < |zones|
      invariant 0 <= zi <= |zones|
      invariant |parkingStatus| == zi
      invariant forall i :: 0 <= i < zi ==> parkingStatus[i] == Occupied(zones[i], detections)
    {
      var occupied := ZoneOccupied(zones[zi], detections);
      parkingStatus := parkingStatus + [occupied];
      zi := zi + 1;
    }
  }
}
