# Whiteboard core, modelled in Dafny

This project models the drawing core of a collaborative whiteboard front end:

- the stroke and document model;
- the editor's state machine: pointer down, move, up and leave, plus undo, redo and clear;
- the two redraw routines, which clear the surface, optionally rule a grid, and paint every stroke.

The canvas 2D context is replaced by a log of the calls a redraw issues (`Paint.Command`). A redraw is a `Paint.Frame`: the commands issued, plus the error thrown, if any. Points are canvas-local integer pairs.

Modules, following the program's structure:

| module | models |
|---|---|
| `Wrappers` | `Option` |
| `Paint` | points, the command log, and the path one stroke traces; shared by both redraws |
| `StrokeModel` | `whiteboardState.ts` |
| `WhiteboardTypes` | `whiteboard/whiteboardtypes.ts` |
| `StrokeIds` | `stroke-<n>` identifiers and their uniqueness invariant |
| `UndoRedo` | the pure snapshot builders of `whiteboard.tsx` |
| `Editor` | the editor component `whiteboard.tsx`: its state as a class, its handlers as methods, and `drawStrokes` |
| `BoardCanvas` | `whiteboard/whiteboard.tsx`: `drawCanvas` and `drawGrid` |

Some of these sources hold objects whose fields change in place. Those become classes:

- the brush stroke;
- the colour-only stroke and its identical copy at the top of `whiteboard.tsx`, which are defined once;
- the editor component.

A stroke that has been committed is never mutated again, so the document holds strokes as values, taken with `Snapshot()`.

The editor's invariant is `Editor.Whiteboard.Valid`. It says that every stroke the editor holds carries an identifier that was issued below the counter, and that no identifier occurs twice. It covers the document, the redo reservoir and the in-progress stroke. Every handler preserves it.

After strokes A and B are drawn and undo, redo, undo, undo run, the reservoir is [B, A], with A, the last stroke undone, on top (`UndoRedo.ScenarioTwoStrokes`).

## Model

Each method row also covers the specification function it is proved equal to: `Paint.PathCommands` (`Paint.EmitPath`), `Editor.StrokesFrame` (`Editor.Whiteboard.DrawStrokes`), `BoardCanvas.GridCommands` (`BoardCanvas.DrawGrid`), and `BoardCanvas.CanvasFrame` with `BoardCanvas.PaintOne` (`BoardCanvas.DrawCanvas`). `StrokeIds.StrokeId` is covered by `StrokeIds.StrokeIdRoundTrip` and `StrokeIds.StrokeIdInjective`.

| member | source | states |
|---|---|---|
| StrokeModel.WhiteboardBrushStroke.constructor | frontend/src/whiteboardState.ts:37-48 | id, colour and size are stored as given, and the point list is exactly the origin |
| StrokeModel.WhiteboardBrushStroke.AddPoint | frontend/src/whiteboardState.ts:50-52 | the point list becomes the old list followed by the new point; only `points` may change |
| StrokeModel.TraceBrushStroke | frontend/src/whiteboardState.ts:47-52 | after k calls of `addPoint` on a fresh stroke, its points are the origin followed by the k points in call order (k + 1 of them), with id, colour and size unchanged |
| WhiteboardTypes.WhiteboardStroke.constructor | frontend/src/components/whiteboard/whiteboardtypes.ts:11-20 | id and colour are stored as given, and the point list is exactly the origin |
| WhiteboardTypes.WhiteboardStroke.AddPoint | frontend/src/components/whiteboard/whiteboardtypes.ts:22-24 | the new point is appended after all earlier points; id and colour cannot change |
| Paint.PaintList | frontend/src/components/whiteboard/whiteboard.tsx:47-51 | the paint list starts with the committed strokes in document order; the in-progress stroke, if present, is its one extra, last element |
| Paint.LineTos | frontend/src/components/whiteboard/whiteboard.tsx:65-67 | one `lineTo` per point, with the i-th command going to the i-th point |
| Paint.PathTracesPoints | frontend/src/components/whiteboard/whiteboard.tsx:62-69 | a stroke's path visits exactly its points in order; k ≥ 1 points give one `moveTo` to the first point and k - 1 `lineTo`s; zero points give no path command |
| Paint.EmitPath | frontend/src/components/whiteboard.tsx:92-99 | the point loop issues exactly the path of the point list |
| StrokeIds.Decimal | frontend/src/components/whiteboard.tsx:135 | the counter's numeral is non-empty and all digits, with no leading zero unless the counter is 0 |
| StrokeIds.StrokeIdRoundTrip | frontend/src/components/whiteboard.tsx:135 | parsing `stroke-<n>` gives back n |
| StrokeIds.StrokeIdInjective | frontend/src/components/whiteboard.tsx:135 | two identifiers are equal exactly when their counter values are |
| StrokeIds.UniqueIssuedAllocate | frontend/src/components/whiteboard.tsx:134-140 | issuing `stroke-<counter>` and then incrementing the counter keeps every identifier issued and distinct |
| StrokeIds.UniqueIssuedDistinct | frontend/src/components/whiteboard.tsx:134-140 | under the invariant, the identifiers in use are pairwise distinct |
| UndoRedo.Commit | frontend/src/components/whiteboard.tsx:150-156 | the committed stroke goes to the tail of the document; the version and the stack stay |
| UndoRedo.Undo | frontend/src/components/whiteboard.tsx:163-177 | an empty document is a no-op; otherwise the last stroke becomes the new top of the stack, everything else stays, and the version is kept |
| UndoRedo.Redo | frontend/src/components/whiteboard.tsx:179-193 | an empty stack is a no-op; otherwise the top stroke is appended to the document, everything else stays, and the version is kept |
| UndoRedo.Clear | frontend/src/components/whiteboard.tsx:195-204 | no strokes and an empty stack, with the version kept |
| UndoRedo.UndoThenRedo | frontend/src/components/whiteboard.tsx:163-193 | on a non-empty document, undo then redo restores the document and the stack |
| UndoRedo.RedoThenUndo | frontend/src/components/whiteboard.tsx:163-193 | on a non-empty stack, redo then undo restores the document and the stack |
| UndoRedo.UndoRedoKeepTimeline | frontend/src/components/whiteboard.tsx:163-193 | undo and redo never change the document followed by the reversed stack; they only move the boundary, in LIFO order |
| UndoRedo.CommitInsertsBeforeRedoable | frontend/src/components/whiteboard.tsx:146-161 | a commit, which does not clear the stack, puts the new stroke after the document and before the strokes still waiting for redo |
| UndoRedo.ScenarioTwoStrokes | frontend/src/components/whiteboard.tsx:146-193 | A and B drawn, then undo, redo, undo, undo: the document goes [A, B], [A], [A, B], [A], []; the stack ends as [B, A] |
| Editor.StrokeColor | frontend/src/components/whiteboard.tsx:62-68 | the picker's value if it is a colour input, and `#000000` in every other case |
| Editor.StrokesFrameShape | frontend/src/components/whiteboard.tsx:70-101 | `drawStrokes` throws exactly when the canvas or context is missing, and then draws nothing; otherwise it issues the background, the committed strokes in order, and the in-progress stroke last |
| Editor.PaintAllConcat | frontend/src/components/whiteboard.tsx:89-100 | painting a concatenation is painting its parts one after the other |
| Editor.StartKeepsIds | frontend/src/components/whiteboard.tsx:132-141 | dropping the old in-progress stroke and starting one with the next identifier keeps the identifier invariant, with the counter one higher |
| Editor.CommitKeepsIds | frontend/src/components/whiteboard.tsx:149-157 | moving the in-progress stroke to the tail of the document keeps the identifier invariant |
| Editor.MoveTopKeepsIds | frontend/src/components/whiteboard.tsx:163-193 | moving a stroke between the tail of the document and the top of the stack keeps the identifier invariant, in both directions |
| Editor.Whiteboard.constructor | frontend/src/components/whiteboard.tsx:45-51 | counter 0, no stroke anywhere, pointer up and at (0, 0), not over the buttons, document version 1.00 |
| Editor.Whiteboard.HandleMouseDown | frontend/src/components/whiteboard.tsx:122-144 | without a canvas nothing changes; otherwise the button is held; off the button bar a fresh stroke `stroke-<old counter>` starts at the pointer in the picker's colour and the counter grows by one; over the bar no stroke starts and the counter stays; document and stack are untouched; the invariant is kept |
| Editor.Whiteboard.HandleMouseMove | frontend/src/components/whiteboard.tsx:103-120 | without a canvas nothing changes; otherwise the cursor is recorded, and only while the button is held does the in-progress stroke gain the point, keeping its id and colour; nothing else changes |
| Editor.Whiteboard.HandleMouseUp | frontend/src/components/whiteboard.tsx:146-161 | the button is released; an in-progress stroke is committed with `UndoRedo.Commit` and cleared; the stack, counter and version stay; the invariant is kept |
| Editor.Whiteboard.HandleUndo | frontend/src/components/whiteboard.tsx:163-177 | the document and stack become `UndoRedo.Undo` of the old ones; nothing else changes; the invariant is kept |
| Editor.Whiteboard.HandleRedo | frontend/src/components/whiteboard.tsx:179-193 | the document and stack become `UndoRedo.Redo` of the old ones; nothing else changes; the invariant is kept |
| Editor.Whiteboard.HandleClear | frontend/src/components/whiteboard.tsx:195-204 | the document and stack become `UndoRedo.Clear` of the old ones; the in-progress stroke and the counter stay; the invariant is kept |
| Editor.Whiteboard.EnterButtonContainer | frontend/src/components/whiteboard.tsx:247 | the pointer is over the button bar; the invariant is kept |
| Editor.Whiteboard.LeaveButtonContainer | frontend/src/components/whiteboard.tsx:248 | the pointer is off the button bar; the invariant is kept |
| Editor.Whiteboard.DrawStrokes | frontend/src/components/whiteboard.tsx:70-101 | the redraw loop issues exactly `StrokesFrame` of the current document and in-progress stroke |
| Editor.DrawGesture | frontend/src/components/whiteboard.tsx:122-161 | one down / k moves / up gesture off the button bar appends exactly `stroke-<counter>` with the origin and the k points to the document, leaves the stack alone, raises the counter by one, leaves the pointer off the button bar and the cursor at the last move (unchanged when there is none) |
| Editor.GestureStrokes | frontend/src/components/whiteboard.tsx:122-161 | the strokes N gestures commit: one per gesture in drawing order, the i-th named `stroke-<counter + i>`, holding its gesture's origin and moves, one point more than its moves |
| Editor.DrawGestures | frontend/src/components/whiteboard.tsx:122-161 | N gestures in a row append exactly `GestureStrokes` to the document, leave the stack alone and raise the counter by N, keeping the invariant |
| BoardCanvas.VerticalLinesIndex | frontend/src/components/whiteboard/whiteboard.tsx:84-87 | the column loop's commands, position by position: `moveTo(20k, 0)` and then `lineTo(20k, height)` for the k-th column |
| BoardCanvas.HorizontalLinesIndex | frontend/src/components/whiteboard/whiteboard.tsx:89-92 | the row loop's commands, position by position: `moveTo(0, 20k)` and then `lineTo(width, 20k)` for the k-th row |
| BoardCanvas.VerticalLineAt | frontend/src/components/whiteboard/whiteboard.tsx:84-87 | a column starts at x exactly when x is a multiple of 20 between 0 and the width, inclusive, which makes width / 20 + 1 columns |
| BoardCanvas.HorizontalLineAt | frontend/src/components/whiteboard/whiteboard.tsx:89-92 | a row starts at y exactly when y is a multiple of 20 between 0 and the height, inclusive, which makes height / 20 + 1 rows |
| BoardCanvas.DrawGrid | frontend/src/components/whiteboard/whiteboard.tsx:75-95 | the two stepping loops issue exactly `GridCommands`: style, width / 20 + 1 columns, height / 20 + 1 rows, one `stroke()` |
| BoardCanvas.BrushStrokePaint | frontend/src/components/whiteboard/whiteboard.tsx:58-70 | a brush stroke does not throw; it opens a path in its own colour and width, and its path traces exactly its points |
| BoardCanvas.InProgressBrushPaint | frontend/src/components/whiteboard/whiteboard.tsx:58-70 | a brush stroke object, painted as it stands, does not throw, opens a path in its own colour and size, and traces exactly its points |
| BoardCanvas.PaintStrokesConcat | frontend/src/components/whiteboard/whiteboard.tsx:58-70 | the stroke loop over a concatenation continues after the first part when that part succeeds, and stops with the first part's error when it throws |
| BoardCanvas.PaintStrokesSucceeds | frontend/src/components/whiteboard/whiteboard.tsx:58-70 | the stroke loop finishes without error exactly when every stroke is a brush stroke |
| BoardCanvas.PaintStrokesError | frontend/src/components/whiteboard/whiteboard.tsx:62-63 | the only error the stroke loop can throw is the missing point list of a text stroke |
| BoardCanvas.CanvasFrameShape | frontend/src/components/whiteboard/whiteboard.tsx:38-56 | a missing canvas or context is a thrown error with nothing drawn, each reported exactly in its own case; otherwise the background and the grid come before any stroke command |
| BoardCanvas.CurrentPaintedLast | frontend/src/components/whiteboard/whiteboard.tsx:47-70 | with brush strokes throughout, the redraw succeeds, and its commands end with exactly the in-progress stroke's |
| BoardCanvas.DrawCanvas | frontend/src/components/whiteboard/whiteboard.tsx:38-71 | the redraw issues exactly `CanvasFrame` of its inputs, a function of the canvas size, the document and the in-progress stroke alone, including the partial frame when a text stroke throws |
| BoardCanvas.RedrawEffect | frontend/src/components/whiteboard/whiteboard.tsx:106-114 | with no canvas mounted the effect skips the frame without error; otherwise it is `CanvasFrame` |

## Left out

- Browser APIs are replaced by inputs.
  - Canvas availability is a parameter. The pointer handlers take `hasCanvas: bool`. The redraws take an `Option<Canvas>`, where a canvas records its backing size and whether `getContext('2d')` succeeds.
  - The colour picker is an `Option<ColorInput>` parameter.
  - Pixels are not modelled; only the order and arguments of the context calls are.
- Coordinate translation (`clientX - rect.left`) is not modelled. Handlers take canvas-local integer points, so fractional DOM coordinates are not modelled either.
- React scheduling is not modelled.
  - Each handler is one atomic update of the editor's state.
  - State-update batching and stale closures are left out. For example, `drawStrokes` at the end of a handler sees the state from before the update.
  - The redraws a handler or an effect triggers are not modelled as part of the handler itself. `Editor.Whiteboard.DrawStrokes` and `BoardCanvas.DrawCanvas` model one redraw each.
- Mouse-leave runs the mouse-up handler (whiteboard.tsx:233), so it has no separate member.
- Canvas resizing (`setCanvasSize`, resize listeners) and the zoom buttons, which have no handlers, are not modelled.
- The board component's own pointer handlers are not modelled (whiteboard/whiteboard.tsx:27-34). They forward to callback props, and no caller in the source supplies them (`app.tsx` renders the board without props).
- The board's state props (`whiteboardState`, `currentStroke`) are parameters of `BoardCanvas.DrawCanvas` and `BoardCanvas.RedrawEffect`. No caller in the source supplies them either.
- Stroke size, font size, line width and document version are `real`. JavaScript's floating-point behaviour is not modelled.
- The identifier text is the decimal numeral of a natural number. JavaScript's exponent notation above 1e21 and its loss of integer precision above 2^53 are not modelled.
- BoardCanvas.PaintOne: a text stroke assigns `lineWidth = undefined`, which the context ignores. That assignment is left out of the log.
- Text strokes are never drawn as text. The source has no text rendering, so painting a text stroke ends with the thrown error.
- The constructors of `WhiteboardTextStroke`, `BrushDetails` and both `WhiteboardState` classes become datatype constructors. That they store their arguments unchanged holds by construction, so no member states it.
- Committed strokes are values, not shared references. Aliasing between the document, the reservoir and a stroke object is not modelled; the source never mutates a stroke after it is committed.
