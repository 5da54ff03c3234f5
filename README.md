# DB-Sketch editing engine, modelled in Dafny

This project models the editing engine of DB-Sketch (`static/engine.js`), a browser editor for
entity–relationship diagrams. The engine keeps the diagram in two global lists, `shapes` and
`edges`, alongside a little interaction state: the pending connection source `connectForm`,
`selectedShape`, the shape being dragged `dragging` with its `offsetX`/`offsetY`, and the
`editing` flag of the inline cardinality text box. Event handlers update that state in place.

Layout:

- `seqs.dfy`, module `Wrappers`: `Option`, used where the source holds `null` or `undefined`.
- `seqs.dfy`, module `Seqs`: `Array.prototype.filter` and `find` as `Filter` and `Find`. Lemmas
  say what survives a filter, in which order and at which position.
- `grid.dfy`, module `Grid`: `snap`, rounding to the nearest multiple of 20.
- `scene.dfy`, module `Scene`: shape and edge records, and the pure rule behind each handler:
  - `NewShape` (what `addShape` creates) and `IsNotEntity`;
  - the delete filters `WithoutShape` and `WithoutEdgesOf`;
  - the render filter `RenderedEdges`;
  - the connect rule `ConnectStep` and the drag write `DragTo`;
  - the label edits `EditedEdge` and `Labeled`.

  It also holds the highlight invariant `HighlightOk` and the lemmas about all of these.
- `engine.dfy`, module `Engine`: class `Editor`, with the global state as fields and one method
  per handler.
  - Each mutating method's `modifies` clause names the fields it may change. Its `ensures`
    gives their new values.
  - Object references are held as shape ids and resolved the way `shapes.find` resolves them,
    to the first shape with that id.
  - `Valid()` is the object invariant, and every method keeps it:
    - only the first shape carrying the pending source's id can be highlighted;
    - the selected shape exists;
    - an open text box points into `edges`.
- `scenarios.dfy`, module `Scenarios`: sequences of events checked against the handlers'
  contracts:
  - a drag gesture;
  - Delete pressed twice;
  - one connect gesture, and the same pair connected twice;
  - the two text-box cases listed under Findings.

Three behaviours of the code that a reader might not expect:

- Interactive connections do not suppress a duplicate edge. `ConnectTwiceTwoEdges` and
  `Scenarios.ConnectTwice` prove that connecting the same pair twice yields two identical edges.
- Double-clicking an edge prompts for all three fields (`editEdge`); it does not toggle
  participation.
- `saveDiagram` serialises `_highlight` along with the other fields. That path is not modelled;
  see "Left out".

## Model

| member | source | states |
|---|---|---|
| Grid.Snap | static/engine.js:13-15 | the result is a multiple of 20 lying in (v - 10, v + 10], so halves round up |
| Grid.SnapUnique | static/engine.js:13-15 | the multiple of 20 in (v - 10, v + 10] is unique, so Snap is the nearest grid point |
| Grid.SnapAligned | static/engine.js:13-15 | an aligned coordinate is left where it is |
| Grid.SnapIdempotent | static/engine.js:13-15 | snap(snap(v)) == snap(v) |
| Grid.SnapMonotone | static/engine.js:13-15 | snapping keeps the order of two coordinates |
| Grid.SnapShift | static/engine.js:13-15 | moving by k whole cells moves the snapped value by k cells |
| Seqs.Filter | static/engine.js:105-106 | the filter keeps only elements satisfying the predicate, all taken from the input, and never lengthens it |
| Seqs.FilterSource | static/engine.js:105-106 | every entry of a filter's result is a kept element of the input, at the position given by the kept elements before it; with FilterOrder, kept elements and result entries correspond one to one, so nothing appears twice |
| Seqs.Find | static/engine.js:91 | the result is the first index whose element satisfies the predicate, or None when no element does |
| Scene.ToUpper | static/engine.js:57 | upper-casing keeps the length, maps each letter to its capital and leaves no lower-case ASCII letter |
| Scene.NewShape | static/engine.js:50-58 | the record addShape pushes: the given id and type, at (100,100), unhighlighted, text the upper-cased type, 30x30 when the type is "Cr" and 120x60 otherwise |
| Scene.IsNotEntity | static/engine.js:132 | true iff the shape's type is neither "rect" nor "double-rect" |
| Scene.ToolbarShapes | static/engine.js:49-66 | rect, double-rect, diamond and idr shapes are 120x60 and the "Cr" circle is 30x30 with text "CR"; all start at (100,100) unhighlighted |
| Scene.ToolbarEntities | static/engine.js:132 | of the five toolbar kinds, isNotEntity is true exactly for diamond, idr and Cr |
| Scene.FindShape | static/engine.js:91 | the index of the first shape with the id, or None when no shape has it |
| Scene.WithoutShape | static/engine.js:105 | the shapes whose id differs from the deleted one, taken from the list and never more of them |
| Scene.WithoutEdgesOf | static/engine.js:106 | the edges naming the deleted id at neither end, taken from the list and never more of them |
| Scene.DeleteShapeContents | static/engine.js:104-106 | after a delete, a shape remains iff it was there and has another id; an edge remains iff it was there and names the id at neither end |
| Scene.DeleteKeepsOrder | static/engine.js:105-106 | each surviving shape and edge lands at the position given by the survivors before it, and survivors keep their relative order |
| Scene.DeleteAbsent | static/engine.js:104-106 | deleting an id no shape has leaves the shapes unchanged; the edges stay unchanged iff no edge names that id |
| Scene.RenderedEdges | static/engine.js:212-215 | the listed edges both of whose ends resolve to a shape, never more than the list |
| Scene.RenderedEdgesExactly | static/engine.js:212-215 | an edge is drawn iff it is in the list and both its ends resolve to shapes; with no dangling edge, every edge is drawn |
| Scene.DeleteRendersSurvivors | static/engine.js:104-106 | after a delete, the drawn edges are those drawn before minus the edges naming the deleted id |
| Scene.HighlightOkDelete | static/engine.js:104-106 | deleting shapes keeps the invariant that only the pending source is highlighted |
| Scene.ConnectStep | static/engine.js:68-86 | one connect click keeps the number of shapes and changes only highlight flags. With no pending source, the edges stay and the clicked shape becomes the pending, highlighted source. With one, the edge {pending, clicked, "1", "1", "partial"} is appended, the clicked shape is unhighlighted and nothing is pending |
| Scene.ConnectFirstClick | static/engine.js:69-72 | with no pending source, the clicked shape becomes the pending source and the only highlighted shape; edges and other shapes are unchanged |
| Scene.ConnectSecondClick | static/engine.js:73-85 | with a pending source p, exactly one edge {p, clicked, "1", "1", "partial"} is appended, the pending source is cleared, no shape stays highlighted, and nothing but the highlight flags changes |
| Scene.ConnectTwiceTwoEdges | static/engine.js:74-80 | two complete connect gestures between the same pair append two identical edges |
| Scene.DragTo | static/engine.js:330-335 | the shapes after a mousemove write: the same number of shapes, each either unchanged or moved to the snapped point |
| Scene.DragToMovesOnlyTarget | static/engine.js:330-335 | a move changes only the position of the first shape with the dragged id, to grid-aligned values within 10 of the request; with no drag, or the dragged shape gone, nothing changes |
| Scene.DragFollowsPointer | static/engine.js:100-101 | snap(pointer - offset) == snap(start position + pointer displacement); for aligned starts and whole-cell moves, no snapping happens |
| Scene.HighlightOkDrag | static/engine.js:330-335 | moving a shape keeps the highlight invariant |
| Scene.EditedEdge | static/engine.js:123-131 | the endpoints are kept; each label changes only to a non-null prompt result; participation changes only to an input of exactly "total" or "partial" |
| Scene.EditEdgeKeepsParticipation | static/engine.js:129 | a participation of "total" or "partial" stays in that set |
| Scene.Labeled | static/engine.js:154-155 | a commit writes the value to the named side only, leaving the other label, the endpoints and participation unchanged |
| Scene.RemapEdgeIndex | static/engine.js:104-106 | an edge held by an open text box is removed iff it names the deleted id; otherwise it stays at the returned position of the filtered list |
| Engine.InlineAfterDelete | static/engine.js:104-109 | an open text box keeps its side and guard; its edge is dropped iff the delete removed that edge, and otherwise points at the same edge in the filtered list |
| Engine.Editor.constructor | static/engine.js:4-11 | initial state: empty lists, no pending source, selection or drag, offsets 0, not editing |
| Engine.Editor.AddShape | static/engine.js:49-61 | exactly one shape is appended: the given id and type, at (100,100), 30x30 for "Cr" and 120x60 otherwise, text the upper-cased type, unhighlighted; only `shapes` changes |
| Engine.Editor.AddRect | static/engine.js:62 | appends NewShape(id, "rect") |
| Engine.Editor.AddDoubleRect | static/engine.js:63 | appends NewShape(id, "double-rect") |
| Engine.Editor.AddDiamond | static/engine.js:64 | appends NewShape(id, "diamond") |
| Engine.Editor.AddIdentifyingRelationship | static/engine.js:65 | appends NewShape(id, "idr") |
| Engine.Editor.AddCircle | static/engine.js:66 | appends NewShape(id, "Cr") |
| Engine.Editor.HandleConnection | static/engine.js:68-86 | applies ConnectStep. First click: edges unchanged, the shape becomes pending and highlighted. Second click: one default edge appended, pending cleared, nothing highlighted |
| Engine.Editor.StartDrag | static/engine.js:88-102 | nothing changes while editing; otherwise the shape is selected, and a button-2 press applies ConnectStep without touching the drag, while any other press drags the shape with offset = pointer - position; an unknown id clears the selection (and, for a non-secondary press, the drag) |
| Engine.Editor.DeleteShape | static/engine.js:104-109 | shapes and edges become the filtered lists; afterwards no shape has the id and no edge names it; the selection is cleared; an open text box follows its edge |
| Engine.Editor.KeyDown | static/engine.js:110-114 | Delete with a selection and no open text box deletes the selected shape; any other key press changes nothing |
| Engine.Editor.KeyDownAsWritten | static/engine.js:110-114 | Delete with a selection deletes the selected shape even while a text box is open; any other key press changes nothing |
| Engine.Editor.EditText | static/engine.js:116-122 | the shape's text changes to the prompt result only when that is non-null; nothing else changes |
| Engine.Editor.EditEdge | static/engine.js:123-131 | only the chosen edge changes, as EditedEdge describes |
| Engine.Editor.OpenInlineEdit | static/engine.js:181-184 | opens only when not editing, sets `editing`, and records the edge, the side and an uncommitted guard; otherwise nothing changes |
| Engine.Editor.Commit | static/engine.js:151-163 | the first commit writes the value to the named side of the box's edge, resets `editing` and sets the guard; once committed, later commits change nothing |
| Engine.Editor.Escape | static/engine.js:164-167 | resets `editing` without writing a label, and closes the guard so that a later blur writes nothing |
| Engine.Editor.EscapeAsWritten | static/engine.js:164-167 | resets `editing` without writing a label, but leaves the guard open |
| Engine.Editor.MouseMove | static/engine.js:330-335 | shapes become DragTo(pointer - offset); with no drag active, nothing changes |
| Engine.Editor.EndDrag | static/engine.js:336-337 | `dragging` becomes null |
| Engine.Editor.DrawnEdges | static/engine.js:212-215 | the loop returns, in order, exactly the edges whose two ends resolve, and changes nothing: dangling edges are skipped, not removed |
| Scenarios.DragGesture | static/engine.js:99-101 | press, move, release, move: the shape ends at snap(start + displacement) per axis; the move after release changes nothing; no other shape and no edge changes |
| Scenarios.DeleteTwice | static/engine.js:110-114 | the first Delete deletes the selected shape and its edges; the second changes nothing |
| Scenarios.ConnectOnce | static/engine.js:68-86 | two secondary-button presses on a and then b append exactly the edge a -> b with default cardinalities, leave nothing highlighted or pending, and otherwise keep every shape |
| Scenarios.ConnectTwice | static/engine.js:68-86 | connecting a to b twice leaves two identical edges a -> b and nothing highlighted |
| Scenarios.DeleteInTextBoxAsWritten | static/engine.js:110-114 | with the source's handler, Delete typed into an open text box deletes the selected rectangle and its edge while the box stays open |
| Scenarios.DeleteInTextBox | static/engine.js:110-114 | with the corrected handler, the same keystroke leaves the diagram alone, and the commit then writes the typed label |
| Scenarios.EscapeThenBlurAsWritten | static/engine.js:161-167 | with the source's Escape, a blur after Escape still writes the typed label |
| Scenarios.EscapeThenBlur | static/engine.js:161-167 | with the corrected Escape, a blur after Escape writes nothing |

## Left out

- `saveDiagram` and `loadDiagram` (static/engine.js:20-47) are file and JSON I/O, so they are not
  modelled. As written they also save `_highlight`, and a load keeps `connectForm` pointing at a
  shape object that is no longer in the list.
- SVG output in `render` (static/engine.js:188-328) is not modelled: the grid lines, line and
  arrow geometry, the doubled line, and the floating-point placement of cardinality labels. Only
  the filter that decides which edges are drawn is modelled. `render()` calls change no state and
  are omitted.
- `prompt()` and the text box's DOM creation, placement and styling (static/engine.js:117, 124-126,
  135-147, 156) are not modelled. Prompt results become `Option<string>` parameters, and the
  typed value is the `Commit` parameter.
- `Date.now()` (static/engine.js:51) is a clock. The id is a parameter of `AddShape`, and no
  uniqueness is claimed.
- Event-listener registration and `contextmenu` suppression are browser plumbing. Each listener
  body is a method. The browser decides which events occur and in what order.
- Object identity is not modelled. `connectForm`, `selectedShape` and `dragging` hold shape ids,
  resolved to the first shape with that id. This matches what `startDrag`'s `find` selects. A
  shape deleted while pending or dragged is no longer found, unless a later shape reuses its id.
  - `editText` and `editEdge` get the shape or edge by its index in the current list.
- Engine.Editor.MouseMove: suppose the dragged shape is deleted mid-drag and a new shape is
  added under the same id. The model then moves the new shape. The source keeps writing to the
  removed object that `dragging` still holds (static/engine.js:99, 105, 332-333), so the new shape
  stays where it is. No such difference arises for the pending source, because a shape that
  reuses its id is never highlighted.
- Engine.Editor.StartDrag: for an id that no shape carries, the source throws a TypeError after
  clearing the selection (and the drag, for a non-secondary press). The model applies those
  writes and returns; it does not model the exception.
- Engine.Editor.Commit and Engine.Editor.EscapeAsWritten are separate steps in the model. In the
  source, a browser that fires `blur` on removal runs commit from inside Escape's `removeChild`
  (static/engine.js:165), while the box is still attached. Commit writes the label, removes the
  box and resets `editing`. Escape's own `removeChild` then throws, so its `editing = false`
  (line 166) is skipped. The model runs Escape's reset first and the commit after it. The end
  state is the same: the label is written and `editing` is false. The exception is not modelled.
- Scene.ToUpper: upper-cases ASCII letters only, because every type string the toolbar passes is
  ASCII. JavaScript's `toUpperCase` also maps non-ASCII letters.
- Pointer coordinates are modelled as integers. `clientX`/`clientY` can be fractional on zoomed
  pages, where `Math.round` on a fraction is not modelled.

## Findings

| source | as written | input that shows it | evidently intended | confidence | as-written member | corrected member |
|---|---|---|---|---|---|---|
| static/engine.js:110-114 | The document's keydown handler deletes `selectedShape` on every Delete key. A key typed into the cardinality text box bubbles up to this handler. | Press on a shape, then click a cardinality label, then press Delete in the box to erase a character. The shape and its edges are deleted. | While a text box is open (`editing`), Delete edits the text and does not delete the diagram. Dragging is already suppressed the same way. | medium; not executed | Scenarios.DeleteInTextBoxAsWritten (with Engine.Editor.KeyDownAsWritten) | Engine.Editor.KeyDown (with Scenarios.DeleteInTextBox) |
| static/engine.js:164-167 | Escape removes the focused input and resets `editing`, but never sets `committed`. In a browser that fires `blur` when a focused element is removed, the blur handler's `commit` then writes the typed label. | Click a cardinality label, type "N", press Escape. | Escape discards the edit, so the `committed` guard should be closed before the input is removed. | medium (depends on the browser firing blur on removal); not executed | Scenarios.EscapeThenBlurAsWritten (with Engine.Editor.EscapeAsWritten) | Engine.Editor.Escape (with Scenarios.EscapeThenBlur) |
