/**
 * The two pure display helpers of the browser engine: the badge each zone
 * gets in the status list, and the label drawn next to a detection box.
 */
module Presentation {
  import opened Occupancy
  import ServerRule

  datatype Badge = Available | OccupiedFor(seconds: nat) | IllegalFor(seconds: nat)

  /** The badge of one zone: free, occupied for some seconds, or illegal beyond the threshold. */
  function BadgeOf(r: Record, threshold: int): (b: Badge)
    ensures b.Available? <==> !r.occupied
    ensures b.IllegalFor? <==> IsIllegal(r, threshold)
    ensures !b.Available? ==> b.seconds == r.violationTime
  {
    if r.occupied then
      if r.violationTime > threshold then IllegalFor(r.violationTime) else OccupiedFor(r.violationTime)
    else
      Available
  }

  /** The status list: one badge per zone; a zone without a record is shown as free. */
  function StatusList(zoneCount: nat, rs: seq<Record>, threshold: int): (bs: seq<Badge>)
    ensures |bs| == zoneCount
    ensures forall i :: |rs| <= i < zoneCount ==> bs[i].Available?
  {
    seq(zoneCount, i requires 0 <= i < zoneCount => BadgeOf(RecordAt(rs, i, 0), threshold))
  }

  function IllegalBadges(bs: seq<Badge>): set<nat> {
    set i: nat | i < |bs| && bs[i].IllegalFor?
  }

  /** With one record per zone, the list shows as many illegal badges as the illegal count. */
  lemma IllegalBadgesMatchCount(rs: seq<Record>, threshold: int)
    ensures |IllegalBadges(StatusList(|rs|, rs, threshold))| == IllegalCount(rs, threshold)
  {
    assert IllegalBadges(StatusList(|rs|, rs, threshold)) == IllegalIndices(rs, threshold);
    IllegalCountIsCardinality(rs, threshold);
  }

  /** The label drawn for a detection class. */
  function VehicleLabel(classId: int): (name: string)
    ensures name == "Vehicle" <==> !ServerRule.VehicleClass(classId)
  {
    match classId
    case 2 => "Car"
    case 5 => "Bus"
    case 7 => "Truck"
    case _ => "Vehicle"
  }

  /** Every detection the server keeps is drawn with a specific label. */
  lemma KeptDetectionsHaveSpecificLabels(raws: seq<ServerRule.RawBox>)
    ensures forall d :: d in ServerRule.Kept(raws) ==> VehicleLabel(d.cls) in {"Car", "Bus", "Truck"}
  {
  }
}
