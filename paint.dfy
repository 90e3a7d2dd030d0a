/**
  The drawing surface as both whiteboard components see it: canvas-local integer
  points, the 2D-context calls they issue (recorded as a command log instead of
  pixels), the failures a redraw raises, and the path a single stroke traces.
 */
module Paint {
  import opened Wrappers

  /** A canvas-local point; the source stores each point as an `[x, y]` pair. */
  datatype Point = Point(x: int, y: int)

  /** One call issued on the canvas 2D context, in the order issued. */
  datatype Command =
    | SetFillStyle(fill: string)
    | ClearRect(left: int, top: int, width: int, height: int)
    | FillRect(left: int, top: int, width: int, height: int)
    | SetStrokeStyle(style: string)
    | SetLineWidth(lineWidth: real)
    | BeginPath
    | MoveTo(x: int, y: int)
    | LineTo(x: int, y: int)
    | StrokePath

  /** The errors a redraw throws instead of skipping the frame. */
  datatype RenderError =
    | CanvasMissing    // "Whiteboard canvas does not exist"
    | ContextMissing   // "Could not get canvas context"
    | PointsUndefined  // a stroke without a `points` array reached `points.length`

  /** The mounted canvas element: its backing size and whether `getContext('2d')` succeeds. */
  datatype Canvas = Canvas(width: nat, height: nat, hasContext: bool)

  /** What one redraw did: the commands that reached the context, and the error it threw, if any. */
  datatype Frame = Frame(commands: seq<Command>, thrown: Option<RenderError>)

  lemma SeqAssoc<T>(a: seq<T>, b: seq<T>, c: seq<T>)
    ensures (a + b) + c == a + (b + c)
  {
  }

  /** The frame `f` with `prefix` issued before it. */
  function Extend(prefix: seq<Command>, f: Frame): (r: Frame)
    ensures r.thrown == f.thrown && |r.commands| == |prefix| + |f.commands|
    ensures r.commands[..|prefix|] == prefix && r.commands[|prefix|..] == f.commands
  {
    Frame(prefix + f.commands, f.thrown)
  }

  /**
    The strokes one redraw paints: the committed ones in document order, then the
    in-progress stroke, if any, on top of them.
   */
  function PaintList<S>(committed: seq<S>, current: Option<S>): (r: seq<S>)
    ensures |committed| <= |r| && r[..|committed|] == committed
    ensures current.None? ==> r == committed
    ensures current.Some? ==> |r| == |committed| + 1 && r[|committed|] == current.value
  {
    match current
    case None => committed
    case Some(c) => committed + [c]
  }

  /** One `lineTo` per point, in order. */
  function LineTos(ps: seq<Point>): (r: seq<Command>)
    ensures |r| == |ps|
    ensures forall i :: 0 <= i < |ps| ==> r[i] == LineTo(ps[i].x, ps[i].y)
  {
    if ps == [] then []
    else LineTos(ps[..|ps| - 1]) + [LineTo(ps[|ps| - 1].x, ps[|ps| - 1].y)]
  }

  /**
    The path of one stroke: nothing for an empty point list; otherwise a `moveTo`
    to the first point, a `lineTo` to each later point, and one `stroke()`.
   */
  function PathCommands(ps: seq<Point>): seq<Command>
  {
    if |ps| == 0 then []
    else [MoveTo(ps[0].x, ps[0].y)] + LineTos(ps[1..]) + [StrokePath]
  }

  /** The points a command list visits with `moveTo` and `lineTo`, in order. */
  function Traced(cmds: seq<Command>): seq<Point>
  {
    if cmds == [] then []
    else
      (match cmds[0]
       case MoveTo(x, y) => [Point(x, y)]
       case LineTo(x, y) => [Point(x, y)]
       case _ => []) + Traced(cmds[1..])
  }

  /** The number of `moveTo` commands in a list. */
  function MoveCount(cmds: seq<Command>): nat
  {
    if cmds == [] then 0 else (if cmds[0].MoveTo? then 1 else 0) + MoveCount(cmds[1..])
  }

  /** The number of `lineTo` commands in a list. */
  function LineCount(cmds: seq<Command>): nat
  {
    if cmds == [] then 0 else (if cmds[0].LineTo? then 1 else 0) + LineCount(cmds[1..])
  }

  lemma {:induction false} TracedConcat(a: seq<Command>, b: seq<Command>)
    ensures Traced(a + b) == Traced(a) + Traced(b)
    ensures MoveCount(a + b) == MoveCount(a) + MoveCount(b)
    ensures LineCount(a + b) == LineCount(a) + LineCount(b)
  {
    if a == [] {
      assert a + b == b;
    } else {
      assert (a + b)[1..] == a[1..] + b;
      TracedConcat(a[1..], b);
    }
  }

  lemma {:induction false} LineTosTrace(ps: seq<Point>)
    ensures Traced(LineTos(ps)) == ps
    ensures MoveCount(LineTos(ps)) == 0 && LineCount(LineTos(ps)) == |ps|
  {
    if ps != [] {
      var init, last := ps[..|ps| - 1], ps[|ps| - 1];
      LineTosTrace(init);
      TracedConcat(LineTos(init), [LineTo(last.x, last.y)]);
      assert [LineTo(last.x, last.y)][1..] == [];
      assert init + [last] == ps;
    }
  }

  /**
    A stroke's path visits exactly its points in order, with one `moveTo` and one
    `lineTo` per further point; an empty point list draws nothing.
   */
  lemma PathTracesPoints(ps: seq<Point>)
    ensures Traced(PathCommands(ps)) == ps
    ensures |ps| == 0 ==> PathCommands(ps) == []
    ensures |ps| > 0 ==> MoveCount(PathCommands(ps)) == 1 && LineCount(PathCommands(ps)) + 1 == |ps|
    ensures |ps| > 0 ==> PathCommands(ps)[0] == MoveTo(ps[0].x, ps[0].y)
  {
    if |ps| > 0 {
      var head := [MoveTo(ps[0].x, ps[0].y)];
      LineTosTrace(ps[1..]);
      TracedConcat(head, LineTos(ps[1..]));
      TracedConcat(head + LineTos(ps[1..]), [StrokePath]);
      assert head[1..] == [] && [StrokePath][1..] == [];
      assert [ps[0]] + ps[1..] == ps;
    }
  }

  lemma LineTosSnoc(ps: seq<Point>, i: nat)
    requires 1 <= i < |ps|
    ensures LineTos(ps[1..i + 1]) == LineTos(ps[1..i]) + [LineTo(ps[i].x, ps[i].y)]
  {
    assert ps[1..i + 1][..i - 1] == ps[1..i];
  }

  /** The inner loop of both redraws: the path commands for one stroke's points. */
  method EmitPath(points: seq<Point>) returns (cmds: seq<Command>)
    ensures cmds == PathCommands(points)
  {
    cmds := [];
    if |points| > 0 {
      cmds := [MoveTo(points[0].x, points[0].y)];
      for i := 1 to |points|
        invariant cmds == [MoveTo(points[0].x, points[0].y)] + LineTos(points[1..i])
      {
        LineTosSnoc(points, i);
        SeqAssoc([MoveTo(points[0].x, points[0].y)], LineTos(points[1..i]), [LineTo(points[i].x, points[i].y)]);
        cmds := cmds + [LineTo(points[i].x, points[i].y)];
      }
      cmds := cmds + [StrokePath];
    }
  }
}
