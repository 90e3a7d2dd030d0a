/**
  The board component of `components/whiteboard/whiteboard.tsx`: `drawCanvas`,
  which clears the surface, draws the grid and paints every stroke of the
  document with the in-progress stroke last, and `drawGrid`, which rules a line
  every `GRID_SIZE` units across and down. Strokes are the brush/text union of
  `whiteboardState.ts`; a text stroke has no point list, and painting one throws.
 */
module BoardCanvas {
  import opened Wrappers
  import opened Paint
  import opened StrokeModel

  const GRID_SIZE: nat := 20
  const GRID_COLOR: string := "rgba(0, 0, 0, 0.1)"
  const GRID_LINE_WIDTH: real := 0.5
  const BOARD_FILL: string := "rgba(255, 255, 255, 1)"

  /** Pairs `moveTo(x, 0)`, `lineTo(x, height)` for x = 0, 20, ..., the first `n` columns. */
  function VerticalLines(n: nat, height: nat): (r: seq<Command>)
    ensures |r| == 2 * n
  {
    if n == 0 then []
    else VerticalLines(n - 1, height) + [MoveTo(GRID_SIZE * (n - 1), 0), LineTo(GRID_SIZE * (n - 1), height)]
  }

  /** Pairs `moveTo(0, y)`, `lineTo(width, y)` for y = 0, 20, ..., the first `n` rows. */
  function HorizontalLines(n: nat, width: nat): (r: seq<Command>)
    ensures |r| == 2 * n
  {
    if n == 0 then []
    else HorizontalLines(n - 1, width) + [MoveTo(0, GRID_SIZE * (n - 1)), LineTo(width, GRID_SIZE * (n - 1))]
  }

  /** Position by position, the column loop's commands: a `moveTo(20k, 0)`, `lineTo(20k, height)` pair for column k. */
  lemma {:induction false} VerticalLinesIndex(n: nat, height: nat)
    ensures forall i :: 0 <= i < 2 * n ==>
              VerticalLines(n, height)[i]
              == if i % 2 == 0 then MoveTo(GRID_SIZE * (i / 2), 0) else LineTo(GRID_SIZE * (i / 2), height)
  {
    if n > 0 {
      VerticalLinesIndex(n - 1, height);
    }
  }

  /** Position by position, the row loop's commands: a `moveTo(0, 20k)`, `lineTo(width, 20k)` pair for row k. */
  lemma {:induction false} HorizontalLinesIndex(n: nat, width: nat)
    ensures forall i :: 0 <= i < 2 * n ==>
              HorizontalLines(n, width)[i]
              == if i % 2 == 0 then MoveTo(0, GRID_SIZE * (i / 2)) else LineTo(width, GRID_SIZE * (i / 2))
  {
    if n > 0 {
      HorizontalLinesIndex(n - 1, width);
    }
  }

  /** The grid style: a faint colour, a half-unit line, a fresh path. */
  function GridHead(): seq<Command>
  {
    [SetStrokeStyle(GRID_COLOR), SetLineWidth(GRID_LINE_WIDTH), BeginPath]
  }

  /**
    What `drawGrid` issues on a `width` by `height` surface: the grid style, one
    line per column at 0, 20, ... up to and including `width`, one per row the
    same way up to `height`, and a single `stroke()` for the whole path.
   */
  function GridCommands(width: nat, height: nat): seq<Command>
  {
    GridHead() + VerticalLines(width / GRID_SIZE + 1, height)
    + HorizontalLines(height / GRID_SIZE + 1, width) + [StrokePath]
  }

  /** The `q`-th grid line lies within a surface of extent `limit` exactly when q <= limit / 20. */
  lemma GridStep(limit: nat, q: nat)
    ensures q < limit / GRID_SIZE + 1 <==> GRID_SIZE * q <= limit
    ensures (GRID_SIZE * q) % GRID_SIZE == 0 && (GRID_SIZE * q) / GRID_SIZE == q
  {
  }

  /** A vertical grid line starts at (x, 0) exactly when x is a multiple of 20 between 0 and the width. */
  lemma VerticalLineAt(width: nat, height: nat, x: int)
    ensures MoveTo(x, 0) in VerticalLines(width / GRID_SIZE + 1, height)
            <==> 0 <= x <= width && x % GRID_SIZE == 0
    ensures |VerticalLines(width / GRID_SIZE + 1, height)| == 2 * (width / GRID_SIZE + 1)
  {
    var r := VerticalLines(width / GRID_SIZE + 1, height);
    VerticalLinesIndex(width / GRID_SIZE + 1, height);
    if MoveTo(x, 0) in r {
      var i :| 0 <= i < |r| && r[i] == MoveTo(x, 0);
      assert i % 2 == 0;
      var q := i / 2;
      assert x == GRID_SIZE * q;
      GridStep(width, q);
    }
    if 0 <= x <= width && x % GRID_SIZE == 0 {
      var q := x / GRID_SIZE;
      assert x == GRID_SIZE * q;
      GridStep(width, q);
      assert r[2 * q] == MoveTo(x, 0);
    }
  }

  /** A horizontal grid line starts at (0, y) exactly when y is a multiple of 20 between 0 and the height. */
  lemma HorizontalLineAt(width: nat, height: nat, y: int)
    ensures MoveTo(0, y) in HorizontalLines(height / GRID_SIZE + 1, width)
            <==> 0 <= y <= height && y % GRID_SIZE == 0
    ensures |HorizontalLines(height / GRID_SIZE + 1, width)| == 2 * (height / GRID_SIZE + 1)
  {
    var r := HorizontalLines(height / GRID_SIZE + 1, width);
    HorizontalLinesIndex(height / GRID_SIZE + 1, width);
    if MoveTo(0, y) in r {
      var i :| 0 <= i < |r| && r[i] == MoveTo(0, y);
      assert i % 2 == 0;
      var q := i / 2;
      assert y == GRID_SIZE * q;
      GridStep(height, q);
    }
    if 0 <= y <= height && y % GRID_SIZE == 0 {
      var q := y / GRID_SIZE;
      assert y == GRID_SIZE * q;
      GridStep(height, q);
      assert r[2 * q] == MoveTo(0, y);
    }
  }

  /** `drawGrid`: the two counting loops, stepping by `GRID_SIZE` while the coordinate stays within the surface. */
  method DrawGrid(width: nat, height: nat) returns (cmds: seq<Command>)
    ensures cmds == GridCommands(width, height)
  {
    cmds := [SetStrokeStyle(GRID_COLOR), SetLineWidth(GRID_LINE_WIDTH), BeginPath];
    var x := 0;
    ghost var k: nat := 0;
    while x <= width
      invariant x == GRID_SIZE * k && k <= width / GRID_SIZE + 1
      invariant cmds == GridHead() + VerticalLines(k, height)
      decreases width - x
    {
      GridStep(width, k);
      SeqAssoc(GridHead(), VerticalLines(k, height), [MoveTo(x, 0), LineTo(x, height)]);
      cmds := cmds + [MoveTo(x, 0), LineTo(x, height)];
      x := x + GRID_SIZE;
      k := k + 1;
    }
    GridStep(width, k);
    ghost var columns := GridHead() + VerticalLines(k, height);
    var y := 0;
    ghost var j: nat := 0;
    while y <= height
      invariant y == GRID_SIZE * j && j <= height / GRID_SIZE + 1
      invariant cmds == columns + HorizontalLines(j, width)
      decreases height - y
    {
      GridStep(height, j);
      SeqAssoc(columns, HorizontalLines(j, width), [MoveTo(0, y), LineTo(width, y)]);
      cmds := cmds + [MoveTo(0, y), LineTo(width, y)];
      y := y + GRID_SIZE;
      j := j + 1;
    }
    GridStep(height, j);
    cmds := cmds + [StrokePath];
  }

  /** The background of a frame: opaque white, the whole surface cleared and filled. */
  function BoardBackground(c: Canvas): seq<Command>
  {
    [SetFillStyle(BOARD_FILL), ClearRect(0, 0, c.width, c.height), FillRect(0, 0, c.width, c.height)]
  }

  /** What one brush stroke issues: a fresh path in its own colour and width, then its points. */
  function BrushCommands(color: string, size: real, points: seq<Point>): seq<Command>
  {
    [BeginPath, SetStrokeStyle(color), SetLineWidth(size)] + PathCommands(points)
  }

  /**
    One pass of the stroke loop. A brush stroke paints its path; a text stroke
    starts a path and sets its colour, then reading the length of its missing
    point list throws.
   */
  function PaintOne(s: Stroke): Frame
  {
    match s
    case BrushStroke(_, color, size, points) => Frame(BrushCommands(color, size, points), None)
    case TextStroke(_, color, _, _, _) => Frame([BeginPath, SetStrokeStyle(color)], Some(PointsUndefined))
  }

  /** The stroke loop over a list: each stroke in order, stopping at the first one that throws. */
  function PaintStrokes(strokes: seq<Stroke>): Frame
  {
    if strokes == [] then Frame([], None)
    else
      var first := PaintOne(strokes[0]);
      if first.thrown.Some? then first else Extend(first.commands, PaintStrokes(strokes[1..]))
  }

  /**
    The frame `drawCanvas` produces: a missing canvas or context throws before
    anything is drawn; otherwise the background, the grid, and then the stroke
    loop over the document's strokes followed by the in-progress stroke.
   */
  function CanvasFrame(canvas: Option<Canvas>, state: WhiteboardState, current: Option<Stroke>): Frame
  {
    match canvas
    case None => Frame([], Some(CanvasMissing))
    case Some(c) =>
      if !c.hasContext then Frame([], Some(ContextMissing))
      else Extend(BoardBackground(c) + GridCommands(c.width, c.height), PaintStrokes(PaintList(state.strokes, current)))
  }

  /** A brush stroke's commands carry its own colour and width and trace exactly its points. */
  lemma BrushStrokePaint(s: Stroke)
    requires s.BrushStroke?
    ensures PaintOne(s).thrown.None?
    ensures PaintOne(s).commands[..3] == [BeginPath, SetStrokeStyle(s.color), SetLineWidth(s.size)]
    ensures Traced(PaintOne(s).commands) == s.points
  {
    var head := [BeginPath, SetStrokeStyle(s.color), SetLineWidth(s.size)];
    PathTracesPoints(s.points);
    TracedConcat(head, PathCommands(s.points));
    assert Traced(head) == [] by {
      var widthOnly := [SetLineWidth(s.size)];
      assert widthOnly[1..] == [] && Traced(widthOnly) == [];
      assert head[1..][1..] == widthOnly;
    }
  }

  /**
    The in-progress brush stroke, painted as it stands: no error, a path in the
    object's own colour and width, tracing exactly the points gathered so far.
   */
  lemma InProgressBrushPaint(s: WhiteboardBrushStroke)
    ensures var f := PaintOne(s.Snapshot());
            && f.thrown.None?
            && f.commands == BrushCommands(s.color, s.size, s.points)
            && f.commands[..3] == [BeginPath, SetStrokeStyle(s.color), SetLineWidth(s.size)]
            && Traced(f.commands) == s.points
  {
    BrushStrokePaint(s.Snapshot());
  }

  /**
    Painting two lists one after the other: if the first paints without error
    the second continues after it; if the first throws, the second is never reached.
   */
  lemma {:induction false} PaintStrokesConcat(a: seq<Stroke>, b: seq<Stroke>)
    ensures PaintStrokes(a).thrown.None? ==>
              PaintStrokes(a + b) == Extend(PaintStrokes(a).commands, PaintStrokes(b))
    ensures PaintStrokes(a).thrown.Some? ==> PaintStrokes(a + b) == PaintStrokes(a)
  {
    if a == [] {
      assert a + b == b;
    } else {
      assert (a + b)[0] == a[0];
      assert (a + b)[1..] == a[1..] + b;
      PaintStrokesConcat(a[1..], b);
      var first := PaintOne(a[0]);
      if first.thrown.None? {
        var restA := PaintStrokes(a[1..]);
        if restA.thrown.None? {
          SeqAssoc(first.commands, restA.commands, PaintStrokes(b).commands);
        }
      }
    }
  }

  /** The stroke loop finishes without error exactly when every stroke in the list is a brush stroke. */
  lemma {:induction false} PaintStrokesSucceeds(strokes: seq<Stroke>)
    ensures PaintStrokes(strokes).thrown.None? <==> forall i :: 0 <= i < |strokes| ==> strokes[i].BrushStroke?
  {
    if strokes != [] {
      PaintStrokesSucceeds(strokes[1..]);
      assert forall i :: 1 <= i < |strokes| ==> strokes[i] == strokes[1..][i - 1];
    }
  }

  /** Only a text stroke makes the stroke loop throw, and what it throws is the missing point list. */
  lemma {:induction false} PaintStrokesError(strokes: seq<Stroke>)
    ensures PaintStrokes(strokes).thrown.None? || PaintStrokes(strokes).thrown == Some(PointsUndefined)
  {
    if strokes != [] {
      PaintStrokesError(strokes[1..]);
    }
  }

  /**
    A redraw fails at once, having drawn nothing, exactly when the canvas or its
    context is missing; in every other case, even when a text stroke throws, the
    background and then the grid come before any stroke command.
   */
  lemma CanvasFrameShape(canvas: Option<Canvas>, state: WhiteboardState, current: Option<Stroke>)
    ensures var f := CanvasFrame(canvas, state, current);
            && (f.thrown == Some(CanvasMissing) <==> canvas.None?)
            && (f.thrown == Some(ContextMissing) <==> canvas.Some? && !canvas.value.hasContext)
            && (f.thrown in {Some(CanvasMissing), Some(ContextMissing)} ==> f.commands == [])
            && (canvas.Some? && canvas.value.hasContext ==>
                  var prefix := BoardBackground(canvas.value) + GridCommands(canvas.value.width, canvas.value.height);
                  |prefix| <= |f.commands| && f.commands[..|prefix|] == prefix)
  {
    PaintStrokesError(PaintList(state.strokes, current));
  }

  /**
    With a brush stroke in progress and only brush strokes in the document, a
    redraw succeeds and its last commands are exactly the in-progress stroke's.
   */
  lemma CurrentPaintedLast(c: Canvas, state: WhiteboardState, current: Stroke)
    requires c.hasContext && current.BrushStroke?
    requires forall i :: 0 <= i < |state.strokes| ==> state.strokes[i].BrushStroke?
    ensures var f := CanvasFrame(Some(c), state, Some(current));
            && f.thrown.None?
            && f.commands == BoardBackground(c) + GridCommands(c.width, c.height)
                             + PaintStrokes(state.strokes).commands
                             + BrushCommands(current.color, current.size, current.points)
  {
    PaintStrokesSucceeds(state.strokes);
    PaintStrokesConcat(state.strokes, [current]);
    assert [current][1..] == [];
    var prefix := BoardBackground(c) + GridCommands(c.width, c.height);
    SeqAssoc(prefix, PaintStrokes(state.strokes).commands, BrushCommands(current.color, current.size, current.points));
  }

  /** One pass of the stroke loop on a brush stroke: its commands are issued and the loop goes on. */
  lemma PaintBrushStep(issued: seq<Command>, rest: seq<Stroke>)
    requires rest != [] && rest[0].BrushStroke?
    ensures Extend(issued, PaintStrokes(rest))
            == Extend(issued + BrushCommands(rest[0].color, rest[0].size, rest[0].points), PaintStrokes(rest[1..]))
  {
    SeqAssoc(issued, BrushCommands(rest[0].color, rest[0].size, rest[0].points), PaintStrokes(rest[1..]).commands);
  }

  /** One pass of the stroke loop on a text stroke: a path in its colour is begun, then the loop throws. */
  lemma PaintTextStep(issued: seq<Command>, rest: seq<Stroke>)
    requires rest != [] && rest[0].TextStroke?
    ensures Extend(issued, PaintStrokes(rest))
            == Frame(issued + [BeginPath, SetStrokeStyle(rest[0].color)], Some(PointsUndefined))
  {
  }

  /**
    `drawCanvas`: checks for the canvas and its context, builds the paint list,
    issues the background and the grid, then paints stroke after stroke.
   */
  method DrawCanvas(canvas: Option<Canvas>, state: WhiteboardState, current: Option<Stroke>) returns (f: Frame)
    ensures f == CanvasFrame(canvas, state, current)
  {
    if canvas.None? {
      return Frame([], Some(CanvasMissing));
    }
    var c := canvas.value;
    if !c.hasContext {
      return Frame([], Some(ContextMissing));
    }
    var allStrokes := PaintList(state.strokes, current);
    var cmds := [SetFillStyle(BOARD_FILL), ClearRect(0, 0, c.width, c.height), FillRect(0, 0, c.width, c.height)];
    var grid := DrawGrid(c.width, c.height);
    cmds := cmds + grid;
    ghost var target := CanvasFrame(canvas, state, current);
    assert allStrokes[0..] == allStrokes;
    var i := 0;
    while i < |allStrokes|
      invariant 0 <= i <= |allStrokes|
      invariant Extend(cmds, PaintStrokes(allStrokes[i..])) == target
    {
      ghost var rest := allStrokes[i..];
      assert rest[0] == allStrokes[i] && rest[1..] == allStrokes[i + 1..];
      var stroke := allStrokes[i];
      if stroke.TextStroke? {
        PaintTextStep(cmds, rest);
        return Frame(cmds + [BeginPath, SetStrokeStyle(stroke.color)], Some(PointsUndefined));
      }
      PaintBrushStep(cmds, rest);
      var path := EmitPath(stroke.points);
      cmds := cmds + ([BeginPath, SetStrokeStyle(stroke.color), SetLineWidth(stroke.size)] + path);
      i := i + 1;
    }
    assert cmds + [] == cmds;
    f := Frame(cmds, None);
  }

  /**
    The redraw effect that runs when the document or the in-progress stroke
    changes: with no canvas mounted it skips the frame; otherwise it redraws.
   */
  method RedrawEffect(canvas: Option<Canvas>, state: WhiteboardState, current: Option<Stroke>) returns (f: Frame)
    ensures canvas.None? ==> f == Frame([], None)
    ensures canvas.Some? ==> f == CanvasFrame(canvas, state, current)
  {
    if canvas.None? {
      return Frame([], None);
    }
    if !canvas.value.hasContext {
      return Frame([], Some(ContextMissing));
    }
    f := DrawCanvas(canvas, state, current);
  }
}
