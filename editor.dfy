/**
  The self-contained editor of `components/whiteboard.tsx`: its state (stroke
  counter, in-progress stroke, document, redo reservoir, pointer state, whether the
  pointer is over the button bar), the pointer and button handlers that change it,
  and `drawStrokes`, its full redraw. Each handler is one atomic update.
 */
module Editor {
  import opened Wrappers
  import opened Paint
  import opened WhiteboardTypes
  import opened StrokeIds
  import UndoRedo

  const BACKGROUND: string := "rgb(231,231,204)"
  const DEFAULT_COLOR: string := "#000000"
  const INITIAL_VERSION: real := 1.0

  /** The colour picker element: its `type` attribute and its current value. */
  datatype ColorInput = ColorInput(inputType: string, value: string)

  /** The colour of a new stroke: the picker's value if it is a colour input, otherwise black. */
  function StrokeColor(picker: Option<ColorInput>): (c: string)
    ensures picker.Some? && picker.value.inputType == "color" ==> c == picker.value.value
    ensures !(picker.Some? && picker.value.inputType == "color") ==> c == DEFAULT_COLOR
  {
    if picker.Some? && picker.value.inputType == "color" then picker.value.value else DEFAULT_COLOR
  }

  /** The identifiers of a list of strokes, in order. */
  function Ids(strokes: seq<StrokeValue>): (ids: seq<string>)
    ensures |ids| == |strokes|
    ensures forall i :: 0 <= i < |strokes| ==> ids[i] == strokes[i].id
  {
    seq(|strokes|, i requires 0 <= i < |strokes| => strokes[i].id)
  }

  lemma IdsConcat(a: seq<StrokeValue>, b: seq<StrokeValue>)
    ensures Ids(a + b) == Ids(a) + Ids(b)
  {
    assert forall i :: 0 <= i < |a + b| ==> Ids(a + b)[i] == (Ids(a) + Ids(b))[i];
  }

  /** What `drawStrokes` issues for one stroke: a fresh path in the stroke's colour, then its points. */
  function StrokeCommands(s: StrokeValue): seq<Command>
  {
    [BeginPath, SetStrokeStyle(s.color)] + PathCommands(s.points)
  }

  /** The commands for a list of strokes, one stroke after another, in list order. */
  function PaintAll(strokes: seq<StrokeValue>): seq<Command>
  {
    if strokes == [] then [] else StrokeCommands(strokes[0]) + PaintAll(strokes[1..])
  }

  /** Painting two lists one after the other is painting their concatenation. */
  lemma {:induction false} PaintAllConcat(a: seq<StrokeValue>, b: seq<StrokeValue>)
    ensures PaintAll(a + b) == PaintAll(a) + PaintAll(b)
  {
    if a == [] {
      assert a + b == b;
    } else {
      assert (a + b)[1..] == a[1..] + b;
      PaintAllConcat(a[1..], b);
    }
  }

  lemma PaintAllSnoc(strokes: seq<StrokeValue>, i: nat)
    requires i < |strokes|
    ensures PaintAll(strokes[..i + 1]) == PaintAll(strokes[..i]) + StrokeCommands(strokes[i])
  {
    assert strokes[..i + 1] == strokes[..i] + [strokes[i]];
    PaintAllConcat(strokes[..i], [strokes[i]]);
    assert [strokes[i]][1..] == [];
  }

  /** The background of a frame: the fill colour, then the whole surface cleared and filled. */
  function Background(c: Canvas): seq<Command>
  {
    [SetFillStyle(BACKGROUND), ClearRect(0, 0, c.width, c.height), FillRect(0, 0, c.width, c.height)]
  }

  /**
    The frame `drawStrokes` produces: a missing canvas or context throws before
    anything is drawn; otherwise the background, then every committed stroke in
    document order, then the in-progress stroke.
   */
  function StrokesFrame(canvas: Option<Canvas>, strokes: seq<StrokeValue>, current: Option<StrokeValue>): Frame
  {
    match canvas
    case None => Frame([], Some(CanvasMissing))
    case Some(c) =>
      if !c.hasContext then Frame([], Some(ContextMissing))
      else Frame(Background(c) + PaintAll(PaintList(strokes, current)), None)
  }

  /**
    A redraw fails exactly when the canvas or its context is missing, and then
    draws nothing; a redraw that succeeds starts with the background, paints the
    committed strokes in document order and the in-progress stroke last.
   */
  lemma StrokesFrameShape(canvas: Option<Canvas>, strokes: seq<StrokeValue>, current: Option<StrokeValue>)
    ensures var f := StrokesFrame(canvas, strokes, current);
            && (f.thrown.None? <==> canvas.Some? && canvas.value.hasContext)
            && (f.thrown.Some? ==> f.commands == [])
            && (f.thrown.None? ==>
                  f.commands == Background(canvas.value) + PaintAll(strokes)
                                + (if current.Some? then StrokeCommands(current.value) else []))
  {
    if current.Some? {
      PaintAllConcat(strokes, [current.value]);
      assert PaintAll([current.value]) == StrokeCommands(current.value) by {
        assert [current.value][1..] == [];
      }
    }
  }

  /** Starting a stroke discards the old in-progress one and adds one with the next identifier. */
  lemma StartKeepsIds(kept: seq<StrokeValue>, rest: seq<StrokeValue>, started: StrokeValue, count: nat)
    requires UniqueIssued(Ids(kept + rest), count)
    requires started.id == StrokeId(count)
    ensures UniqueIssued(Ids(kept + [started]), count + 1)
  {
    IdsConcat(kept, rest);
    assert multiset(Ids(kept)) <= multiset(Ids(kept + rest));
    UniqueIssuedSubBag(Ids(kept + rest), Ids(kept), count);
    UniqueIssuedAllocate(Ids(kept), count);
    IdsConcat(kept, [started]);
    assert Ids([started]) == [StrokeId(count)];
  }

  /** Committing the in-progress stroke moves it from behind the reservoir to the tail of the document. */
  lemma CommitKeepsIds(d: seq<StrokeValue>, u: seq<StrokeValue>, v: StrokeValue, count: nat)
    requires UniqueIssued(Ids(d + u + [v]), count)
    ensures UniqueIssued(Ids(d + [v] + u), count)
  {
    IdsConcat(d + u, [v]);
    IdsConcat(d, u);
    IdsConcat(d + [v], u);
    IdsConcat(d, [v]);
    UniqueIssuedSubBag(Ids(d + u + [v]), Ids(d + [v] + u), count);
  }

  /**
    Moving one stroke between the tail of the document and the top of the
    reservoir, in either direction, keeps the invariant.
   */
  lemma MoveTopKeepsIds(d: seq<StrokeValue>, t: StrokeValue, u: seq<StrokeValue>, rest: seq<StrokeValue>, count: nat)
    ensures UniqueIssued(Ids(d + [t] + u + rest), count) <==> UniqueIssued(Ids(d + (u + [t]) + rest), count)
  {
    var xs, ys := d + [t] + u + rest, d + (u + [t]) + rest;
    IdsConcat(d + [t] + u, rest);
    IdsConcat(d + [t], u);
    IdsConcat(d, [t]);
    IdsConcat(d + (u + [t]), rest);
    IdsConcat(d, u + [t]);
    IdsConcat(u, [t]);
    assert multiset(Ids(xs)) == multiset(Ids(ys));
    if UniqueIssued(Ids(xs), count) {
      UniqueIssuedSubBag(Ids(xs), Ids(ys), count);
    }
    if UniqueIssued(Ids(ys), count) {
      UniqueIssuedSubBag(Ids(ys), Ids(xs), count);
    }
  }

  /** The editor component's state. */
  class Whiteboard {
    var strokeCount: nat
    var inButtonContainer: bool
    /** The redo reservoir: strokes taken off the document by undo, most recent last. */
    var undoStack: seq<StrokeValue>
    var currentStroke: WhiteboardStroke?
    var whiteboardState: WhiteboardState
    /** The last pointer position a move recorded, and whether the button is held. */
    var cursor: Point
    var isDown: bool

    /** The in-progress stroke's current value, if there is one. */
    function Pending(): Option<StrokeValue>
      reads this, currentStroke
    {
      if currentStroke == null then None else Some(currentStroke.Snapshot())
    }

    /** The document and the redo reservoir, as the snapshot builders see them. */
    function Edits(): UndoRedo.History
      reads this
    {
      UndoRedo.History(whiteboardState, undoStack)
    }

    /** Every stroke the editor holds: the document, the reservoir and the in-progress stroke. */
    ghost function InUse(): seq<StrokeValue>
      reads this, currentStroke
    {
      whiteboardState.strokes + undoStack + (if currentStroke == null then [] else [currentStroke.Snapshot()])
    }

    /** Each stroke the editor holds carries its own identifier, issued below the counter. */
    ghost predicate Valid()
      reads this, currentStroke
    {
      UniqueIssued(Ids(InUse()), strokeCount)
    }

    /** The initial state: no strokes anywhere, document version 1.00, counter at zero. */
    constructor ()
      ensures Valid()
      ensures strokeCount == 0 && !inButtonContainer && !isDown && cursor == Point(0, 0)
      ensures undoStack == [] && currentStroke == null
      ensures whiteboardState == WhiteboardState(INITIAL_VERSION, [])
    {
      strokeCount := 0;
      inButtonContainer := false;
      undoStack := [];
      currentStroke := null;
      whiteboardState := WhiteboardState(INITIAL_VERSION, []);
      cursor := Point(0, 0);
      isDown := false;
    }

    /**
      Pointer down at `p`. Without a canvas nothing happens. Otherwise the button is
      held; outside the button bar a new stroke `stroke-<counter>` starts at `p` in
      the picker's colour and the counter grows by one; over the button bar no
      stroke starts and the counter stays.
     */
    method HandleMouseDown(hasCanvas: bool, p: Point, picker: Option<ColorInput>)
      requires Valid()
      modifies this
      ensures Valid()
      ensures isDown == (hasCanvas || old(isDown))
      ensures hasCanvas && !inButtonContainer ==>
                && fresh(currentStroke)
                && currentStroke.Snapshot() == StrokeValue(StrokeId(old(strokeCount)), StrokeColor(picker), [p])
                && strokeCount == old(strokeCount) + 1
      ensures !(hasCanvas && !inButtonContainer) ==>
                currentStroke == old(currentStroke) && strokeCount == old(strokeCount)
      ensures whiteboardState == old(whiteboardState) && undoStack == old(undoStack)
      ensures inButtonContainer == old(inButtonContainer) && cursor == old(cursor)
    {
      if !hasCanvas {
        return;
      }
      isDown := true;
      if !inButtonContainer {
        ghost var kept := whiteboardState.strokes + undoStack;
        ghost var rest := if currentStroke == null then [] else [currentStroke.Snapshot()];
        assert InUse() == kept + rest;
        var color := StrokeColor(picker);
        StartKeepsIds(kept, rest, StrokeValue(StrokeId(strokeCount), color, [p]), strokeCount);
        currentStroke := new WhiteboardStroke(StrokeId(strokeCount), color, p.x, p.y);
        strokeCount := strokeCount + 1;
        assert InUse() == kept + [currentStroke.Snapshot()];
      }
    }

    /**
      Pointer moved to `p`. Without a canvas nothing happens. Otherwise the position
      is recorded, and while the button is held the in-progress stroke, if any, gains
      `p` as its last point; nothing else changes.
     */
    method HandleMouseMove(hasCanvas: bool, p: Point)
      requires Valid()
      modifies this, currentStroke
      ensures Valid()
      ensures cursor == if hasCanvas then p else old(cursor)
      ensures currentStroke == old(currentStroke)
      ensures currentStroke != null ==>
                && currentStroke.id == old(currentStroke.id) && currentStroke.color == old(currentStroke.color)
                && currentStroke.points == if hasCanvas && isDown then old(currentStroke.points) + [p]
                                           else old(currentStroke.points)
      ensures strokeCount == old(strokeCount) && isDown == old(isDown)
      ensures whiteboardState == old(whiteboardState) && undoStack == old(undoStack)
      ensures inButtonContainer == old(inButtonContainer)
    {
      if !hasCanvas {
        return;
      }
      cursor := p;
      if isDown && currentStroke != null {
        ghost var before := InUse();
        currentStroke.AddPoint(p.x, p.y);
        assert Ids(InUse()) == Ids(before);
      }
    }

    /**
      Pointer released, or left the canvas (both events run this handler). The
      button is no longer held; an in-progress stroke is committed to the tail of
      the document and cleared. The reservoir and the version are not touched.
     */
    method HandleMouseUp()
      requires Valid()
      modifies this
      ensures Valid()
      ensures !isDown && currentStroke == null
      ensures old(currentStroke) == null ==> Edits() == old(Edits())
      ensures old(currentStroke) != null ==>
                Edits() == UndoRedo.Commit(old(Edits()), old(currentStroke.Snapshot()))
      ensures strokeCount == old(strokeCount) && cursor == old(cursor)
      ensures inButtonContainer == old(inButtonContainer)
    {
      isDown := false;
      if currentStroke != null {
        ghost var d, u, v := whiteboardState.strokes, undoStack, currentStroke.Snapshot();
        CommitKeepsIds(d, u, v, strokeCount);
        whiteboardState := UndoRedo.Commit(Edits(), currentStroke.Snapshot()).doc;
        currentStroke := null;
        assert InUse() == d + [v] + u + [];
        assert d + [v] + u + [] == d + [v] + u;
      }
    }

    /**
      Undo: nothing happens on an empty document; otherwise the last stroke moves
      from the document to the top of the reservoir, as `UndoRedo.Undo` describes.
     */
    method HandleUndo()
      requires Valid()
      modifies this
      ensures Valid()
      ensures Edits() == UndoRedo.Undo(old(Edits()))
      ensures currentStroke == old(currentStroke) && strokeCount == old(strokeCount)
      ensures isDown == old(isDown) && cursor == old(cursor) && inButtonContainer == old(inButtonContainer)
    {
      if |whiteboardState.strokes| == 0 {
        return;
      }
      ghost var d, u := whiteboardState.strokes, undoStack;
      ghost var rest := if currentStroke == null then [] else [currentStroke.Snapshot()];
      var next := UndoRedo.Undo(Edits());
      ghost var d', t := next.doc.strokes, d[|d| - 1];
      assert d == d' + [t] && next.undoStack == u + [t];
      MoveTopKeepsIds(d', t, u, rest, strokeCount);
      undoStack := next.undoStack;
      whiteboardState := next.doc;
    }

    /**
      Redo: nothing happens on an empty reservoir; otherwise its top stroke moves
      back to the tail of the document, as `UndoRedo.Redo` describes.
     */
    method HandleRedo()
      requires Valid()
      modifies this
      ensures Valid()
      ensures Edits() == UndoRedo.Redo(old(Edits()))
      ensures currentStroke == old(currentStroke) && strokeCount == old(strokeCount)
      ensures isDown == old(isDown) && cursor == old(cursor) && inButtonContainer == old(inButtonContainer)
    {
      if |undoStack| == 0 {
        return;
      }
      ghost var d, u := whiteboardState.strokes, undoStack;
      ghost var rest := if currentStroke == null then [] else [currentStroke.Snapshot()];
      var next := UndoRedo.Redo(Edits());
      ghost var u', t := next.undoStack, u[|u| - 1];
      assert u == u' + [t] && next.doc.strokes == d + [t];
      MoveTopKeepsIds(d, t, u', rest, strokeCount);
      undoStack := next.undoStack;
      whiteboardState := next.doc;
    }

    /** Clear: no strokes in the document, an empty reservoir, the same version. */
    method HandleClear()
      requires Valid()
      modifies this
      ensures Valid()
      ensures Edits() == UndoRedo.Clear(old(Edits()))
      ensures currentStroke == old(currentStroke) && strokeCount == old(strokeCount)
      ensures isDown == old(isDown) && cursor == old(cursor) && inButtonContainer == old(inButtonContainer)
    {
      ghost var rest := if currentStroke == null then [] else [currentStroke.Snapshot()];
      ghost var kept := whiteboardState.strokes + undoStack;
      ghost var before := InUse();
      assert before == kept + rest;
      IdsConcat(kept, rest);
      assert multiset(Ids(rest)) <= multiset(Ids(before));
      UniqueIssuedSubBag(Ids(before), Ids(rest), strokeCount);
      whiteboardState := WhiteboardState(whiteboardState.version, []);
      undoStack := [];
      assert InUse() == rest;
    }

    /** The pointer entered the button bar. */
    method EnterButtonContainer()
      requires Valid()
      modifies this`inButtonContainer
      ensures Valid() && inButtonContainer
    {
      inButtonContainer := true;
    }

    /** The pointer left the button bar. */
    method LeaveButtonContainer()
      requires Valid()
      modifies this`inButtonContainer
      ensures Valid() && !inButtonContainer
    {
      inButtonContainer := false;
    }

    /**
      `drawStrokes`: one full redraw of the current document with the in-progress
      stroke on top, or the error it throws when the canvas or its context is missing.
     */
    method DrawStrokes(canvas: Option<Canvas>) returns (f: Frame)
      ensures f == StrokesFrame(canvas, whiteboardState.strokes, Pending())
    {
      if canvas.None? {
        return Frame([], Some(CanvasMissing));
      }
      var c := canvas.value;
      if !c.hasContext {
        return Frame([], Some(ContextMissing));
      }
      var allStrokes := PaintList(whiteboardState.strokes, Pending());
      var cmds := [SetFillStyle(BACKGROUND), ClearRect(0, 0, c.width, c.height), FillRect(0, 0, c.width, c.height)];
      var i := 0;
      while i < |allStrokes|
        invariant 0 <= i <= |allStrokes|
        invariant cmds == Background(c) + PaintAll(allStrokes[..i])
      {
        var stroke := allStrokes[i];
        var path := EmitPath(stroke.points);
        var strokeCmds := [BeginPath, SetStrokeStyle(stroke.color)] + path;
        PaintAllSnoc(allStrokes, i);
        SeqAssoc(Background(c), PaintAll(allStrokes[..i]), strokeCmds);
        cmds := cmds + strokeCmds;
        i := i + 1;
      }
      assert allStrokes[..i] == allStrokes;
      f := Frame(cmds, None);
    }
  }

  /**
    One drawing gesture on a valid editor with the pointer off the button bar:
    down at `origin`, a move to each of `moves`, then up. The document gains
    exactly one stroke at its tail, `stroke-<counter>` in the picker's colour with
    the points `origin` and `moves` in order; the reservoir is untouched.
   */
  method DrawGesture(wb: Whiteboard, origin: Point, moves: seq<Point>, picker: Option<ColorInput>)
    requires wb.Valid() && !wb.inButtonContainer
    modifies wb
    ensures wb.Valid()
    ensures wb.whiteboardState.version == old(wb.whiteboardState.version)
    ensures wb.whiteboardState.strokes
            == old(wb.whiteboardState.strokes) + [StrokeValue(StrokeId(old(wb.strokeCount)), StrokeColor(picker), [origin] + moves)]
    ensures wb.undoStack == old(wb.undoStack)
    ensures wb.strokeCount == old(wb.strokeCount) + 1
    ensures wb.currentStroke == null && !wb.isDown
    ensures wb.inButtonContainer == old(wb.inButtonContainer)
    ensures wb.cursor == if moves == [] then old(wb.cursor) else moves[|moves| - 1]
  {
    ghost var id, color := StrokeId(wb.strokeCount), StrokeColor(picker);
    ghost var count, state, stack, cursor := wb.strokeCount, wb.whiteboardState, wb.undoStack, wb.cursor;
    wb.HandleMouseDown(true, origin, picker);
    var s := wb.currentStroke;
    for k := 0 to |moves|
      invariant wb.Valid() && wb.isDown && wb.currentStroke == s && fresh(s)
      invariant s.Snapshot() == StrokeValue(id, color, [origin] + moves[..k])
      invariant wb.whiteboardState == state && wb.undoStack == stack
      invariant wb.strokeCount == count + 1 && !wb.inButtonContainer
      invariant wb.cursor == if k == 0 then cursor else moves[k - 1]
    {
      assert moves[..k + 1] == moves[..k] + [moves[k]];
      wb.HandleMouseMove(true, moves[k]);
    }
    assert moves[..|moves|] == moves;
    wb.HandleMouseUp();
  }

  /** One drawing gesture: pointer down at `origin`, then a move to each of `moves`. */
  datatype Gesture = Gesture(origin: Point, moves: seq<Point>)

  /**
    The strokes a run of gestures commits when the counter starts at `count`:
    one per gesture, in drawing order, the i-th named `stroke-<count + i>` and
    holding its gesture's origin and moves, one point more than it has moves.
   */
  function GestureStrokes(count: nat, gestures: seq<Gesture>, color: string): (r: seq<StrokeValue>)
    ensures |r| == |gestures|
    ensures forall i :: 0 <= i < |r| ==>
              && r[i] == StrokeValue(StrokeId(count + i), color, [gestures[i].origin] + gestures[i].moves)
              && |r[i].points| == |gestures[i].moves| + 1
  {
    if gestures == [] then []
    else
      var n := |gestures| - 1;
      GestureStrokes(count, gestures[..n], color)
      + [StrokeValue(StrokeId(count + n), color, [gestures[n].origin] + gestures[n].moves)]
  }

  /**
    Gestures one after another on a valid editor with the pointer off the button
    bar: the document gains exactly the strokes `GestureStrokes` lists, at its
    tail, and the counter grows by the number of gestures.
   */
  method DrawGestures(wb: Whiteboard, gestures: seq<Gesture>, picker: Option<ColorInput>)
    requires wb.Valid() && !wb.inButtonContainer
    modifies wb
    ensures wb.Valid() && !wb.inButtonContainer
    ensures wb.whiteboardState.version == old(wb.whiteboardState.version)
    ensures wb.whiteboardState.strokes
            == old(wb.whiteboardState.strokes) + GestureStrokes(old(wb.strokeCount), gestures, StrokeColor(picker))
    ensures wb.undoStack == old(wb.undoStack)
    ensures wb.strokeCount == old(wb.strokeCount) + |gestures|
  {
    ghost var start := wb.whiteboardState.strokes;
    ghost var count := wb.strokeCount;
    var color := StrokeColor(picker);
    for g := 0 to |gestures|
      invariant wb.Valid() && !wb.inButtonContainer
      invariant wb.whiteboardState.version == old(wb.whiteboardState.version)
      invariant wb.whiteboardState.strokes == start + GestureStrokes(count, gestures[..g], color)
      invariant wb.undoStack == old(wb.undoStack)
      invariant wb.strokeCount == count + g
    {
      assert gestures[..g + 1][..g] == gestures[..g];
      SeqAssoc(start, GestureStrokes(count, gestures[..g], color), [StrokeValue(StrokeId(count + g), color, [gestures[g].origin] + gestures[g].moves)]);
      DrawGesture(wb, gestures[g].origin, gestures[g].moves, picker);
    }
    assert gestures[..|gestures|] == gestures;
  }
}
