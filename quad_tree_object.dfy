/**
 * `QuadTreeObject`: what both trees index. The caller owns the objects and
 * the trees hold references to them; here a reference is an `ObjectId` and
 * the caller's storage is a `World` that maps each id to the object's current
 * position and half-width. The sprite payload is never read by the trees and
 * is not modelled.
 */
module QuadTreeObjects {
  import opened Vector2

  datatype QuadTreeObject = QuadTreeObject(position: Vec2, halfWidth: real)

  type ObjectId = nat

  type World = ObjectId -> QuadTreeObject
}
