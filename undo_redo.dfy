/**
  The snapshot builders behind the editor's commit, undo, redo and clear handlers
  in `components/whiteboard.tsx`. Each takes the document and the redo reservoir
  (the source's `UndoStack`) and produces new values; the versions are carried
  through unchanged.
 */
module UndoRedo {
  import opened WhiteboardTypes

  /** The document together with the stack that redo draws from (its top is the last element). */
  datatype History = History(doc: WhiteboardState, undoStack: seq<StrokeValue>)

  /** `slice(0, -1)`: everything but the last element, and nothing for an empty list. */
  function DropLast<T>(s: seq<T>): (r: seq<T>)
    ensures |s| == 0 ==> r == []
    ensures |s| > 0 ==> r + [s[|s| - 1]] == s
  {
    if |s| == 0 then [] else s[..|s| - 1]
  }

  /** Mouse-up: the in-progress stroke goes to the tail of the document; the stack is not touched. */
  function Commit(h: History, stroke: StrokeValue): (r: History)
    ensures r.doc.version == h.doc.version
    ensures r.doc.strokes == h.doc.strokes + [stroke]
    ensures r.undoStack == h.undoStack
  {
    History(WhiteboardState(h.doc.version, h.doc.strokes + [stroke]), h.undoStack)
  }

  /**
    Undo: on an empty document nothing changes; otherwise the last stroke of the
    document becomes the top of the stack and nothing else moves.
   */
  function Undo(h: History): (r: History)
    ensures r.doc.version == h.doc.version
    ensures |h.doc.strokes| == 0 ==> r == h
    ensures |h.doc.strokes| > 0 ==>
              && |r.undoStack| == |h.undoStack| + 1
              && r.doc.strokes + [r.undoStack[|h.undoStack|]] == h.doc.strokes
              && r.undoStack[..|h.undoStack|] == h.undoStack
  {
    if |h.doc.strokes| == 0 then h
    else
      var last := h.doc.strokes[|h.doc.strokes| - 1];
      History(WhiteboardState(h.doc.version, DropLast(h.doc.strokes)), h.undoStack + [last])
  }

  /**
    Redo: on an empty stack nothing changes; otherwise the top of the stack is
    appended to the tail of the document and nothing else moves.
   */
  function Redo(h: History): (r: History)
    ensures r.doc.version == h.doc.version
    ensures |h.undoStack| == 0 ==> r == h
    ensures |h.undoStack| > 0 ==>
              && |r.doc.strokes| == |h.doc.strokes| + 1
              && r.undoStack + [r.doc.strokes[|h.doc.strokes|]] == h.undoStack
              && r.doc.strokes[..|h.doc.strokes|] == h.doc.strokes
  {
    if |h.undoStack| == 0 then h
    else
      var top := h.undoStack[|h.undoStack| - 1];
      History(WhiteboardState(h.doc.version, h.doc.strokes + [top]), DropLast(h.undoStack))
  }

  /** Clear: no strokes and an empty stack, whatever came before; the version stays. */
  function Clear(h: History): (r: History)
    ensures r.doc.version == h.doc.version
    ensures r.doc.strokes == [] && r.undoStack == []
  {
    History(WhiteboardState(h.doc.version, []), [])
  }

  /** Undo followed by redo restores both the document and the stack. */
  lemma UndoThenRedo(h: History)
    ensures |h.doc.strokes| > 0 ==> Redo(Undo(h)) == h
  {
  }

  /** Redo followed by undo restores both the document and the stack. */
  lemma RedoThenUndo(h: History)
    ensures |h.undoStack| > 0 ==> Undo(Redo(h)) == h
  {
  }

  function Reverse<T>(s: seq<T>): seq<T>
  {
    if s == [] then [] else Reverse(s[1..]) + [s[0]]
  }

  lemma {:induction false} ReverseSnoc<T>(s: seq<T>, x: T)
    ensures Reverse(s + [x]) == [x] + Reverse(s)
  {
    if s != [] {
      assert (s + [x])[1..] == s[1..] + [x];
      ReverseSnoc(s[1..], x);
    }
  }

  /**
    Every stroke that undo and redo can reach, in drawing order: the document,
    then the stack from its top down.
   */
  function Timeline(h: History): seq<StrokeValue>
  {
    h.doc.strokes + Reverse(h.undoStack)
  }

  /**
    Undo and redo only move the boundary between document and stack: the timeline
    is unchanged, and the document shrinks or grows by one stroke, in LIFO order.
   */
  lemma UndoRedoKeepTimeline(h: History)
    ensures Timeline(Undo(h)) == Timeline(h)
    ensures Timeline(Redo(h)) == Timeline(h)
  {
    var d, u := h.doc.strokes, h.undoStack;
    if |d| > 0 {
      ReverseSnoc(u, d[|d| - 1]);
      assert d == DropLast(d) + [d[|d| - 1]];
    }
    if |u| > 0 {
      ReverseSnoc(DropLast(u), u[|u| - 1]);
      assert u == DropLast(u) + [u[|u| - 1]];
    }
  }

  /**
    Because a commit leaves the stack alone, the new stroke is inserted into the
    timeline just below the strokes still waiting to be redone.
   */
  lemma CommitInsertsBeforeRedoable(h: History, stroke: StrokeValue)
    ensures Timeline(Commit(h, stroke)) == h.doc.strokes + [stroke] + Reverse(h.undoStack)
  {
  }

  /**
    Two strokes A and B drawn, then undo, redo, undo, undo: the document goes
    [A, B], [A], [A, B], [A], []; the stack ends as [B, A], with A (the last
    one undone) on top.
   */
  lemma ScenarioTwoStrokes(a: StrokeValue, b: StrokeValue, version: real)
    ensures var h0 := History(WhiteboardState(version, []), []);
            var h2 := Commit(Commit(h0, a), b);
            && h2.doc.strokes == [a, b]
            && Undo(h2).doc.strokes == [a]
            && Redo(Undo(h2)) == h2
            && Undo(Redo(Undo(h2))).doc.strokes == [a]
            && Undo(Undo(Redo(Undo(h2)))).doc.strokes == []
            && Undo(Undo(Redo(Undo(h2)))).undoStack == [b, a]
  {
    var h0 := History(WhiteboardState(version, []), []);
    var h2 := Commit(Commit(h0, a), b);
    assert h2 == History(WhiteboardState(version, [a, b]), []);
    var h3 := Undo(h2);
    assert h3 == History(WhiteboardState(version, [a]), [b]);
    assert Redo(h3) == h2;
    assert Undo(h3) == History(WhiteboardState(version, []), [b, a]);
  }
}
