/**
  The stroke and document model of `whiteboardState.ts`: brush settings, the brush
  stroke whose point list grows while the pointer is down, the text stroke, the
  brush/text union, and the versioned document.
 */
module StrokeModel {
  import opened Paint

  /** The tool settings a tool-selection widget hands to the board: colour, size and tool name. */
  datatype BrushDetails = BrushDetails(color: string, size: real, tool: string)

  /**
    A stroke as the document holds it. The source distinguishes the two kinds by
    their classes; here they are two variants of one datatype.
   */
  datatype Stroke =
    | BrushStroke(id: string, color: string, size: real, points: seq<Point>)
    | TextStroke(id: string, color: string, fontSize: real, position: Point, text: string)

  /** A document snapshot: a version tag and the strokes in paint order. */
  datatype WhiteboardState = WhiteboardState(version: real, strokes: seq<Stroke>)

  /** The in-progress brush stroke, whose point list `addPoint` extends in place. */
  class WhiteboardBrushStroke {
    var id: string
    var color: string
    var size: real
    var points: seq<Point>

    /** A new stroke starts with the origin as its only point. */
    constructor (strokeId: string, strokeColor: string, size: real, xOrigin: int, yOrigin: int)
      ensures id == strokeId && color == strokeColor && this.size == size
      ensures points == [Point(xOrigin, yOrigin)]
    {
      id := strokeId;
      color := strokeColor;
      this.size := size;
      points := [Point(xOrigin, yOrigin)];
    }

    /** Appends one point; id, colour, size and the earlier points stay as they were. */
    method AddPoint(pointX: int, pointY: int)
      modifies this`points
      ensures points == old(points) + [Point(pointX, pointY)]
    {
      points := points + [Point(pointX, pointY)];
    }

    /** The stroke's current value, as a document that holds it sees it. */
    function Snapshot(): (s: Stroke)
      reads this
      ensures s.BrushStroke? && s.id == id && s.color == color && s.size == size && s.points == points
    {
      BrushStroke(id, color, size, points)
    }
  }

  /**
    A client of the class: a stroke started at `origin` and extended by `addPoint`
    once for each of `moves` holds `|moves| + 1` points, in call order.
   */
  method TraceBrushStroke(strokeId: string, strokeColor: string, size: real, origin: Point, moves: seq<Point>)
    returns (s: WhiteboardBrushStroke)
    ensures fresh(s)
    ensures s.id == strokeId && s.color == strokeColor && s.size == size
    ensures s.points == [origin] + moves && |s.points| == |moves| + 1
  {
    s := new WhiteboardBrushStroke(strokeId, strokeColor, size, origin.x, origin.y);
    for k := 0 to |moves|
      invariant s.id == strokeId && s.color == strokeColor && s.size == size
      invariant s.points == [origin] + moves[..k]
    {
      assert moves[..k + 1] == moves[..k] + [moves[k]];
      s.AddPoint(moves[k].x, moves[k].y);
    }
    assert moves[..|moves|] == moves;
  }
}
