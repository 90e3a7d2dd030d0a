/**
  The colour-only stroke draft of `components/whiteboard/whiteboardtypes.ts`. The
  editor component `components/whiteboard.tsx` declares an identical copy of both
  classes (lines 3-35); the model defines them once, here, and the editor uses them.
 */
module WhiteboardTypes {
  import opened Paint

  /** A committed colour-only stroke. */
  datatype StrokeValue = StrokeValue(id: string, color: string, points: seq<Point>)

  /** A document snapshot of colour-only strokes. */
  datatype WhiteboardState = WhiteboardState(version: real, strokes: seq<StrokeValue>)

  /** The in-progress colour-only stroke, whose point list `addPoint` extends in place. */
  class WhiteboardStroke {
    var id: string
    var color: string
    var points: seq<Point>

    /** A new stroke starts with the origin as its only point. */
    constructor (strokeId: string, strokeColor: string, xOrigin: int, yOrigin: int)
      ensures id == strokeId && color == strokeColor
      ensures points == [Point(xOrigin, yOrigin)]
    {
      id := strokeId;
      color := strokeColor;
      points := [Point(xOrigin, yOrigin)];
    }

    /** Appends one point; id, colour and the earlier points stay as they were. */
    method AddPoint(pointX: int, pointY: int)
      modifies this`points
      ensures points == old(points) + [Point(pointX, pointY)]
    {
      points := points + [Point(pointX, pointY)];
    }

    /** The stroke's current value, as the document holds it once committed. */
    function Snapshot(): (s: StrokeValue)
      reads this
      ensures s.id == id && s.color == color && s.points == points
    {
      StrokeValue(id, color, points)
    }
  }
}
