/**
 * The editing engine of static/engine.js: the global diagram lists and the
 * interaction state (static/engine.js:4-11) as the fields of one `Editor`,
 * and each handler as a method that says exactly what it changes. Object
 * references held by `connectForm`, `selectedShape` and `dragging` are held
 * here as shape ids, resolved like `shapes.find` does, to the first shape
 * carrying the id.
 */
module Engine {
  import opened Wrappers
  import opened Seqs
  import opened Grid
  import opened Scene

  /**
   * The state of one open cardinality text box (static/engine.js:134-169):
   * the edge its closure writes to (None once a delete has taken that edge
   * out of the list), the side it edits and its `committed` guard.
   */
  datatype InlineEdit = InlineEdit(edge: Option<nat>, side: Side, committed: bool)

  /** The inline editor's closure after `deleteShape(id)` filtered `edges`. */
  function InlineAfterDelete(ed: InlineEdit, edges: seq<Edge>, id: int): (r: InlineEdit)
    requires ed.edge.Some? ==> ed.edge.value < |edges|
    ensures r.side == ed.side && r.committed == ed.committed
    ensures r.edge.None? <==>
      ed.edge.None? || edges[ed.edge.value].from == id || edges[ed.edge.value].to == id
    ensures r.edge.Some? ==> ed.edge.Some? && r.edge.value < |WithoutEdgesOf(edges, id)|
    ensures r.edge.Some? ==> WithoutEdgesOf(edges, id)[r.edge.value] == edges[ed.edge.value]
  {
    ed.(edge := if ed.edge.Some? then RemapEdgeIndex(edges, id, ed.edge.value) else None)
  }

  class Editor {
    var shapes: seq<Shape>
    var edges: seq<Edge>
    var dragging: Option<int>
    var offsetX: int
    var offsetY: int
    /** The pending connection source, `connectForm`. */
    var connectFrom: Option<int>
    /** `selectedShape`. */
    var selected: Option<int>
    var editing: bool
    /** The most recently opened cardinality text box, if any. */
    var inlineEdit: Option<InlineEdit>

    /**
     * Only the pending source can be highlighted; the selected shape exists;
     * an open text box refers to an edge of the list.
     */
    ghost predicate Valid()
      reads this
    {
      HighlightOk(shapes, connectFrom) &&
      (selected.Some? ==> FindShape(shapes, selected.value).Some?) &&
      (inlineEdit.Some? && inlineEdit.value.edge.Some? ==> inlineEdit.value.edge.value < |edges|)
    }

    /** The state when the page loads (static/engine.js:4-11). */
    constructor ()
      ensures Valid()
      ensures shapes == [] && edges == []
      ensures dragging.None? && offsetX == 0 && offsetY == 0
      ensures connectFrom.None? && selected.None? && !editing && inlineEdit.None?
    {
      shapes, edges := [], [];
      dragging, offsetX, offsetY := None, 0, 0;
      connectFrom, selected, editing := None, None, false;
      inlineEdit := None;
    }

    /**
     * `addShape(type)` with the id `Date.now()` would give
     * (static/engine.js:49-61): one new shape at the end, nothing else changes.
     */
    method AddShape(id: int, kind: string)
      requires Valid()
      modifies this`shapes
      ensures Valid()
      ensures shapes == old(shapes) + [NewShape(id, kind)]
      ensures |shapes| == |old(shapes)| + 1 && shapes[..|old(shapes)|] == old(shapes)
      ensures var s := shapes[|old(shapes)|];
        s.id == id && s.kind == kind && s.x == 100 && s.y == 100 &&
        (kind == CIRCLE ==> s.w == 30 && s.h == 30) &&
        (kind != CIRCLE ==> s.w == 120 && s.h == 60) &&
        s.text == ToUpper(kind) && !s.highlight
    {
      var shape := NewShape(id, kind);
      HighlightOkAppend(shapes, connectFrom, shape);
      if selected.Some? {
        FindAfterAppend(shapes, shape, selected.value);
      }
      shapes := shapes + [shape];
    }

    // The toolbar buttons (static/engine.js:62-66).

    method AddRect(id: int)
      requires Valid()
      modifies this`shapes
      ensures Valid() && shapes == old(shapes) + [NewShape(id, RECT)]
    {
      AddShape(id, RECT);
    }

    method AddDoubleRect(id: int)
      requires Valid()
      modifies this`shapes
      ensures Valid() && shapes == old(shapes) + [NewShape(id, DOUBLE_RECT)]
    {
      AddShape(id, DOUBLE_RECT);
    }

    method AddDiamond(id: int)
      requires Valid()
      modifies this`shapes
      ensures Valid() && shapes == old(shapes) + [NewShape(id, DIAMOND)]
    {
      AddShape(id, DIAMOND);
    }

    method AddIdentifyingRelationship(id: int)
      requires Valid()
      modifies this`shapes
      ensures Valid() && shapes == old(shapes) + [NewShape(id, IDR)]
    {
      AddShape(id, IDR);
    }

    method AddCircle(id: int)
      requires Valid()
      modifies this`shapes
      ensures Valid() && shapes == old(shapes) + [NewShape(id, CIRCLE)]
    {
      AddShape(id, CIRCLE);
    }

    /**
     * `handleConnection(shape)` (static/engine.js:68-86) for the shape at
     * index i, which its caller found by id.
     */
    method HandleConnection(i: nat)
      requires Valid() && i < |shapes| && FindShape(shapes, shapes[i].id) == Some(i)
      modifies this`shapes, this`edges, this`connectFrom
      ensures Valid()
      ensures Connection(shapes, edges, connectFrom) ==
        ConnectStep(old(shapes), old(edges), old(connectFrom), i)
      ensures old(connectFrom).None? ==>
        edges == old(edges) && connectFrom == Some(old(shapes)[i].id) && shapes[i].highlight
      ensures old(connectFrom).Some? ==>
        edges == old(edges) + [Edge(old(connectFrom).value, old(shapes)[i].id, "1", "1", "partial")] &&
        connectFrom.None? && NoHighlight(shapes)
    {
      ghost var step := ConnectStep(shapes, edges, connectFrom, i);
      ConnectStepKeeps(shapes, edges, connectFrom, i);
      if connectFrom.None? {
        connectFrom := Some(shapes[i].id);
        shapes := shapes[i := shapes[i].(highlight := true)];
      } else {
        var p := connectFrom.value;
        edges := edges + [Edge(p, shapes[i].id, "1", "1", "partial")];
        shapes := Unhighlight(shapes, FindShape(shapes, p));
        shapes := shapes[i := shapes[i].(highlight := false)];
        connectFrom := None;
      }
      assert Connection(shapes, edges, connectFrom) == step;
      assert HighlightOk(shapes, connectFrom) && SameIds(old(shapes), shapes);
      assert |old(edges)| <= |edges|;
      if selected.Some? {
        SameIdsFind(old(shapes), shapes, selected.value);
        assert FindShape(shapes, selected.value).Some?;
      }
    }

    /**
     * `startDrag` (static/engine.js:88-102): a press on the shape with this
     * id. Ignored while a text box is open; a secondary-button press
     * (button 2) is a connect click; any other press starts a drag, recording
     * pointer minus shape position. An id no shape carries makes the source
     * clear the selection (and the drag, for a non-secondary press) and then
     * throw a TypeError, which ends the handler.
     */
    method StartDrag(id: int, button: int, clientX: int, clientY: int)
      requires Valid()
      modifies this`selected, this`dragging, this`offsetX, this`offsetY
      modifies this`shapes, this`edges, this`connectFrom
      ensures Valid()
      ensures old(editing) ==> unchanged(this)
      ensures !old(editing) && FindShape(old(shapes), id).None? ==>
        selected.None? && shapes == old(shapes) && edges == old(edges) &&
        connectFrom == old(connectFrom) && offsetX == old(offsetX) && offsetY == old(offsetY) &&
        dragging == (if button == 2 then old(dragging) else None)
      ensures !old(editing) && FindShape(old(shapes), id).Some? && button == 2 ==>
        selected == Some(id) && dragging == old(dragging) &&
        offsetX == old(offsetX) && offsetY == old(offsetY) &&
        Connection(shapes, edges, connectFrom) ==
          ConnectStep(old(shapes), old(edges), old(connectFrom), FindShape(old(shapes), id).value)
      ensures !old(editing) && FindShape(old(shapes), id).Some? && button != 2 ==>
        var i := FindShape(old(shapes), id).value;
        selected == Some(id) && dragging == Some(id) &&
        offsetX == clientX - old(shapes)[i].x && offsetY == clientY - old(shapes)[i].y &&
        shapes == old(shapes) && edges == old(edges) && connectFrom == old(connectFrom)
    {
      if editing {
        return;
      }
      var found := FindShape(shapes, id);
      if found.None? {
        selected := None;
        if button != 2 {
          dragging := None;
        }
        return;
      }
      var i := found.value;
      selected := Some(id);
      if button == 2 {
        HandleConnection(i);
        return;
      }
      dragging := Some(id);
      offsetX := clientX - shapes[i].x;
      offsetY := clientY - shapes[i].y;
    }

    /**
     * `deleteShape(id)` (static/engine.js:104-109): the shapes with the id and
     * every edge naming it go, in one step; the selection is cleared. An open
     * text box keeps writing to its edge object wherever that now sits.
     */
    method DeleteShape(id: int)
      requires Valid()
      modifies this`shapes, this`edges, this`selected, this`inlineEdit
      ensures Valid()
      ensures shapes == WithoutShape(old(shapes), id)
      ensures edges == WithoutEdgesOf(old(edges), id)
      ensures selected.None?
      ensures forall k :: 0 <= k < |shapes| ==> shapes[k].id != id
      ensures forall k :: 0 <= k < |edges| ==> edges[k].from != id && edges[k].to != id
      ensures inlineEdit == if old(inlineEdit).None? then None
                            else Some(InlineAfterDelete(old(inlineEdit).value, old(edges), id))
    {
      HighlightOkDelete(shapes, connectFrom, id);
      if inlineEdit.Some? {
        inlineEdit := Some(InlineAfterDelete(inlineEdit.value, edges, id));
      }
      shapes := WithoutShape(shapes, id);
      edges := WithoutEdgesOf(edges, id);
      selected := None;
      assert shapes == WithoutShape(old(shapes), id);
      assert forall k :: 0 <= k < |shapes| ==> shapes[k] in WithoutShape(old(shapes), id);
      assert forall k :: 0 <= k < |edges| ==> edges[k] in WithoutEdgesOf(old(edges), id);
    }

    /**
     * The document's Delete key handler, as the rest of the model uses it:
     * deletes the selected shape, unless a cardinality text box is open
     * (static/engine.js:110-114, with the `editing` check the source lacks).
     */
    method KeyDown(key: string)
      requires Valid()
      modifies this`shapes, this`edges, this`selected, this`inlineEdit
      ensures Valid()
      ensures key == "Delete" && old(selected).Some? && !editing ==>
        shapes == WithoutShape(old(shapes), old(selected).value) &&
        edges == WithoutEdgesOf(old(edges), old(selected).value) && selected.None? &&
        inlineEdit == if old(inlineEdit).None? then None
                      else Some(InlineAfterDelete(old(inlineEdit).value, old(edges), old(selected).value))
      ensures !(key == "Delete" && old(selected).Some? && !editing) ==> unchanged(this)
    {
      if key == "Delete" && selected.Some? && !editing {
        DeleteShape(selected.value);
      }
    }

    /**
     * The Delete key handler exactly as static/engine.js:110-114 writes it:
     * it also fires for a Delete pressed inside an open text box.
     */
    method KeyDownAsWritten(key: string)
      requires Valid()
      modifies this`shapes, this`edges, this`selected, this`inlineEdit
      ensures Valid()
      ensures key == "Delete" && old(selected).Some? ==>
        shapes == WithoutShape(old(shapes), old(selected).value) &&
        edges == WithoutEdgesOf(old(edges), old(selected).value) && selected.None? &&
        inlineEdit == if old(inlineEdit).None? then None
                      else Some(InlineAfterDelete(old(inlineEdit).value, old(edges), old(selected).value))
      ensures !(key == "Delete" && old(selected).Some?) ==> unchanged(this)
    {
      if key == "Delete" && selected.Some? {
        DeleteShape(selected.value);
      }
    }

    /** `editText(shape)` (static/engine.js:116-122), given the prompt's result. */
    method EditText(i: nat, input: Option<string>)
      requires Valid() && i < |shapes|
      modifies this`shapes
      ensures Valid()
      ensures input.None? ==> shapes == old(shapes)
      ensures input.Some? ==> shapes == old(shapes)[i := old(shapes)[i].(text := input.value)]
    {
      if input.Some? {
        HighlightOkUpdate(shapes, connectFrom, i, shapes[i].(text := input.value));
        shapes := shapes[i := shapes[i].(text := input.value)];
        assert SameIds(old(shapes), shapes);
        if selected.Some? {
          SameIdsFind(old(shapes), shapes, selected.value);
        }
      }
    }

    /** `editEdge(edge)` (static/engine.js:123-131), given the three prompt results. */
    method EditEdge(i: nat, fromLabel: Option<string>, toLabel: Option<string>,
                    participation: Option<string>)
      requires Valid() && i < |edges|
      modifies this`edges
      ensures Valid()
      ensures edges == old(edges)[i := EditedEdge(old(edges)[i], fromLabel, toLabel, participation)]
    {
      var e := edges[i];
      if fromLabel.Some? {
        e := e.(fromLabel := fromLabel.value);
      }
      if toLabel.Some? {
        e := e.(toLabel := toLabel.value);
      }
      if participation == Some("total") || participation == Some("partial") {
        e := e.(participation := participation.value);
      }
      edges := edges[i := e];
    }

    /**
     * A click on the `side` cardinality text of the edge at index i
     * (static/engine.js:181-184, 148-150): opens a text box unless one is open.
     */
    method OpenInlineEdit(i: nat, side: Side)
      requires Valid() && i < |edges|
      modifies this`editing, this`inlineEdit
      ensures Valid()
      ensures old(editing) ==> unchanged(this)
      ensures !old(editing) ==> editing && inlineEdit == Some(InlineEdit(Some(i), side, false))
    {
      if !editing {
        inlineEdit := Some(InlineEdit(Some(i), side, false));
        editing := true;
      }
    }

    /**
     * `commit()` of the open text box, run on blur or Enter
     * (static/engine.js:151-159, 161-163): the first call writes the typed
     * value into the side the box edits and closes the box; later calls do
     * nothing.
     */
    method Commit(value: string)
      requires Valid()
      modifies this`edges, this`editing, this`inlineEdit
      ensures Valid()
      ensures old(inlineEdit).None? || old(inlineEdit).value.committed ==> unchanged(this)
      ensures old(inlineEdit).Some? && !old(inlineEdit).value.committed ==>
        var ed := old(inlineEdit).value;
        !editing && inlineEdit == Some(ed.(committed := true)) &&
        edges == if ed.edge.Some?
                 then old(edges)[ed.edge.value := Labeled(old(edges)[ed.edge.value], ed.side, value)]
                 else old(edges)
    {
      if inlineEdit.Some? && !inlineEdit.value.committed {
        var ed := inlineEdit.value;
        inlineEdit := Some(ed.(committed := true));
        if ed.edge.Some? {
          edges := edges[ed.edge.value := Labeled(edges[ed.edge.value], ed.side, value)];
        }
        editing := false;
      }
    }

    /**
     * Escape in the open text box, as the rest of the model uses it: closes
     * the box without writing, and marks it committed so that the blur that
     * removing a focused input can raise writes nothing either
     * (static/engine.js:164-167, with the guard the source lacks).
     */
    method Escape()
      requires Valid()
      modifies this`editing, this`inlineEdit
      ensures Valid()
      ensures old(inlineEdit).None? || old(inlineEdit).value.committed ==> unchanged(this)
      ensures old(inlineEdit).Some? && !old(inlineEdit).value.committed ==>
        !editing && inlineEdit == Some(old(inlineEdit).value.(committed := true))
    {
      if inlineEdit.Some? && !inlineEdit.value.committed {
        inlineEdit := Some(inlineEdit.value.(committed := true));
        editing := false;
      }
    }

    /**
     * Escape exactly as static/engine.js:164-167 writes it: the box is
     * removed and `editing` reset, but `committed` stays false, so a later
     * `commit` from the box's blur still writes the label.
     */
    method EscapeAsWritten()
      requires Valid()
      modifies this`editing
      ensures Valid()
      ensures old(inlineEdit).None? || old(inlineEdit).value.committed ==> unchanged(this)
      ensures old(inlineEdit).Some? && !old(inlineEdit).value.committed ==> !editing
    {
      if inlineEdit.Some? && !inlineEdit.value.committed {
        editing := false;
      }
    }

    /**
     * The canvas `mousemove` handler (static/engine.js:330-335): the dragged
     * shape moves to the snapped pointer-minus-offset position.
     */
    method MouseMove(clientX: int, clientY: int)
      requires Valid()
      modifies this`shapes
      ensures Valid()
      ensures shapes == DragTo(old(shapes), dragging, clientX - offsetX, clientY - offsetY)
      ensures dragging.None? ==> shapes == old(shapes)
    {
      HighlightOkDrag(shapes, connectFrom, dragging, clientX - offsetX, clientY - offsetY);
      if dragging.Some? {
        var found := FindShape(shapes, dragging.value);
        if found.Some? {
          var i := found.value;
          shapes := shapes[i := shapes[i].(x := Snap(clientX - offsetX), y := Snap(clientY - offsetY))];
          assert SameIds(old(shapes), shapes);
          if selected.Some? {
            SameIdsFind(old(shapes), shapes, selected.value);
          }
        }
      }
    }

    /** The canvas `mouseup` and `mouseleave` handlers (static/engine.js:336-337). */
    method EndDrag()
      requires Valid()
      modifies this`dragging
      ensures Valid() && dragging.None?
    {
      dragging := None;
    }

    /**
     * The edge pass of `render` (static/engine.js:212-215): the edges drawn,
     * in order. An edge with an end that resolves to no shape is skipped and
     * stays in the list.
     */
    method DrawnEdges() returns (drawn: seq<Edge>)
      ensures drawn == RenderedEdges(shapes, edges)
      ensures forall e :: e in drawn <==> e in edges && Resolves(shapes, e)
    {
      drawn := [];
      var k := 0;
      while k < |edges|
        invariant 0 <= k <= |edges|
        invariant drawn == RenderedEdges(shapes, edges[..k])
      {
        var edge := edges[k];
        var from := FindShape(shapes, edge.from);
        var to := FindShape(shapes, edge.to);
        assert edges[..k + 1] == edges[..k] + [edge];
        FilterAppend(edges[..k], [edge], ResolvesIn(shapes));
        if from.Some? && to.Some? {
          drawn := drawn + [edge];
        }
        k := k + 1;
      }
      assert edges[..k] == edges;
      RenderedEdgesExactly(shapes, edges);
    }
  }
}
