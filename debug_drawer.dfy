/**
 * The drawing collaborator `DebugDrawer`: `DrawLine(a, b)` is recorded as a
 * segment appended to the sequence of lines drawn so far.
 */
module DebugDraw {
  import opened Vector2

  datatype Segment = Segment(from: Vec2, to: Vec2)

  /** The four `DrawLine` calls that outline a node: top, right, bottom and left
      edge of the square `position ± halfWidth`, in that order. */
  function Outline(position: Vec2, halfWidth: real): seq<Segment>
  {
    var minX := position.x - halfWidth;
    var minY := position.y - halfWidth;
    var maxX := position.x + halfWidth;
    var maxY := position.y + halfWidth;
    [ Segment(Vec2(minX, maxY), Vec2(maxX, maxY)),
      Segment(Vec2(maxX, maxY), Vec2(maxX, minY)),
      Segment(Vec2(maxX, minY), Vec2(minX, minY)),
      Segment(Vec2(minX, minY), Vec2(minX, maxY)) ]
  }

  /** The outline is a closed loop (each edge starts where the previous one ends) of
      two horizontal and two vertical edges, each `2 * halfWidth` long. */
  lemma OutlineIsClosedSquare(position: Vec2, halfWidth: real)
    ensures var o := Outline(position, halfWidth);
      && |o| == 4
      && o[0].to == o[1].from && o[1].to == o[2].from && o[2].to == o[3].from && o[3].to == o[0].from
      && o[0].from.y == o[0].to.y && o[0].to.x - o[0].from.x == 2.0 * halfWidth
      && o[1].from.x == o[1].to.x && o[1].from.y - o[1].to.y == 2.0 * halfWidth
      && o[2].from.y == o[2].to.y && o[2].from.x - o[2].to.x == 2.0 * halfWidth
      && o[3].from.x == o[3].to.x && o[3].to.y - o[3].from.y == 2.0 * halfWidth
  {
  }
}
