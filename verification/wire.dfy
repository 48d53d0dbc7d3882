/**
 * Values exchanged between the browser engine and the detection server:
 * a parking zone as the browser stores and sends it, and a vehicle
 * detection as the server keeps and returns it.
 */
module Wire {

  datatype Option<+T> = None | Some(value: T)

  /** A parking zone `[x1, y1, x2, y2]` in capture-frame pixels. */
  datatype Zone = Zone(x1: int, y1: int, x2: int, y2: int)

  /** A kept vehicle detection: integer box corners, the model's confidence and its class id. */
  datatype Detection = Detection(x1: int, y1: int, x2: int, y2: int, conf: real, cls: int)

  function Max(a: int, b: int): int { if a < b then b else a }
  function Min(a: int, b: int): int { if a < b then a else b }
  function Abs(a: int): nat { if a < 0 then -a else a }
}
