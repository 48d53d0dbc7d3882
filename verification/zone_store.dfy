/**
 * Zone creation from a drawn rectangle: the drag must span more than 20
 * pixels on both axes, and the stored corners are ordered whatever the drag
 * direction.
 */
module ZoneStore {
  import opened Wire

  /** Smallest span, exclusive, that a drawn zone must exceed on each axis. */
  const MinSpan: int := 20

  /** The zone drawn from the press point (startX, startY) to the release point (x, y), if large enough. */
  function NormalizeZone(startX: int, startY: int, x: int, y: int): (z: Option<Zone>)
    ensures z.Some? <==> Abs(x - startX) > MinSpan && Abs(y - startY) > MinSpan
    ensures z.Some? ==> z.value.x1 < z.value.x2 && z.value.y1 < z.value.y2
    ensures z.Some? ==> z.value.x2 - z.value.x1 > MinSpan && z.value.y2 - z.value.y1 > MinSpan
    ensures z.Some? ==> {z.value.x1, z.value.x2} == {startX, x} && {z.value.y1, z.value.y2} == {startY, y}
  {
    if Abs(x - startX) > MinSpan && Abs(y - startY) > MinSpan then
      Some(Zone(Min(startX, x), Min(startY, y), Max(startX, x), Max(startY, y)))
    else
      None
  }

  /** The stored zone does not depend on the direction of the drag. */
  lemma DragDirectionIrrelevant(startX: int, startY: int, x: int, y: int)
    ensures NormalizeZone(startX, startY, x, y) == NormalizeZone(x, y, startX, startY)
    ensures NormalizeZone(startX, startY, x, y) == NormalizeZone(x, startY, startX, y)
  {
  }
}
