/**
 * Sequences of events run against an Editor, checking what the handlers'
 * contracts promise about them together: a drag gesture, Delete pressed
 * twice, a connection made twice, and the two cardinality text box cases in
 * which the handlers as written and as corrected part ways.
 */
module Scenarios {
  import opened Wrappers
  import opened Grid
  import opened Scene
  import opened Engine

  /**
   * Press on a shape, move, release, move again: the shape ends at its start
   * position plus the pointer's displacement, snapped per axis; the move after
   * the release changes nothing; no other shape and no edge changes.
   */
  method DragGesture(ed: Editor, id: int, x0: int, y0: int, x1: int, y1: int)
    requires ed.Valid() && !ed.editing && FindShape(ed.shapes, id).Some?
    modifies ed
    ensures ed.Valid() && ed.dragging.None? && ed.edges == old(ed.edges)
    ensures var i := FindShape(old(ed.shapes), id).value;
      var s := old(ed.shapes)[i];
      |ed.shapes| == |old(ed.shapes)| &&
      ed.shapes[i] == s.(x := Snap(s.x + (x1 - x0)), y := Snap(s.y + (y1 - y0))) &&
      forall k :: 0 <= k < |ed.shapes| && k != i ==> ed.shapes[k] == old(ed.shapes)[k]
  {
    var i := FindShape(ed.shapes, id).value;
    ed.StartDrag(id, 0, x0, y0);
    ed.MouseMove(x1, y1);
    DragToMovesOnlyTarget(old(ed.shapes), Some(id), x1 - ed.offsetX, y1 - ed.offsetY);
    DragFollowsPointer(old(ed.shapes)[i].x, x0, x1);
    DragFollowsPointer(old(ed.shapes)[i].y, y0, y1);
    ed.EndDrag();
    ed.MouseMove(x1 + 40, y1 + 40);
  }

  /**
   * Delete pressed twice with a shape selected: the first press deletes it and
   * its edges and clears the selection, so the second press does nothing.
   */
  method DeleteTwice(ed: Editor)
    requires ed.Valid() && !ed.editing && ed.selected.Some?
    modifies ed
    ensures ed.Valid() && ed.selected.None?
    ensures ed.shapes == WithoutShape(old(ed.shapes), old(ed.selected).value)
    ensures ed.edges == WithoutEdgesOf(old(ed.edges), old(ed.selected).value)
  {
    ed.KeyDown("Delete");
    ed.KeyDown("Delete");
  }

  /**
   * One connect gesture, two secondary-button presses on shape a and then on
   * shape b: exactly one edge a -> b with the default cardinalities is
   * appended, nothing stays highlighted, and the shapes keep their ids.
   */
  method ConnectOnce(ed: Editor, a: int, b: int)
    requires ed.Valid() && !ed.editing && ed.connectFrom.None?
    requires FindShape(ed.shapes, a).Some? && FindShape(ed.shapes, b).Some?
    modifies ed
    ensures ed.Valid() && !ed.editing && ed.connectFrom.None? && NoHighlight(ed.shapes)
    ensures ed.inlineEdit == old(ed.inlineEdit)
    ensures ed.edges == old(ed.edges) + [Edge(a, b, "1", "1", "partial")]
    ensures |ed.shapes| == |old(ed.shapes)|
    ensures forall k :: 0 <= k < |ed.shapes| ==> ed.shapes[k] == old(ed.shapes)[k].(highlight := false)
  {
    ghost var s0 := ed.shapes;
    ed.StartDrag(a, 2, 0, 0);
    assert SameIds(s0, ed.shapes);
    SameIdsFind(s0, ed.shapes, b);
    ghost var s1 := ed.shapes;
    ed.StartDrag(b, 2, 0, 0);
    HighlightOkNone(ed.shapes);
  }

  /**
   * Connecting shape a to shape b twice leaves two identical edges a -> b:
   * no duplicate is suppressed.
   */
  method ConnectTwice(ed: Editor, a: int, b: int)
    requires ed.Valid() && !ed.editing && ed.connectFrom.None?
    requires FindShape(ed.shapes, a).Some? && FindShape(ed.shapes, b).Some?
    modifies ed
    ensures ed.Valid() && ed.connectFrom.None? && NoHighlight(ed.shapes)
    ensures var e := Edge(a, b, "1", "1", "partial");
      ed.edges == old(ed.edges) + [e, e]
  {
    ghost var s0 := ed.shapes;
    ConnectOnce(ed, a, b);
    assert SameIds(s0, ed.shapes);
    SameIdsFind(s0, ed.shapes, a);
    SameIdsFind(s0, ed.shapes, b);
    ConnectOnce(ed, a, b);
  }

  /** A fresh editor after the rectangle (id 1) and diamond (id 2) buttons. */
  method TwoShapes() returns (ed: Editor)
    ensures fresh(ed) && ed.Valid() && !ed.editing && ed.inlineEdit.None?
    ensures ed.shapes == [NewShape(1, RECT), NewShape(2, DIAMOND)] && ed.edges == []
    ensures ed.connectFrom.None?
  {
    ed := new Editor();
    ed.AddRect(1);
    ed.AddDiamond(2);
  }

  /** The rectangle connected to the diamond with two secondary-button presses. */
  method Connected() returns (ed: Editor)
    ensures fresh(ed) && ed.Valid() && !ed.editing && ed.inlineEdit.None?
    ensures ed.shapes == [NewShape(1, RECT), NewShape(2, DIAMOND)]
    ensures ed.edges == [Edge(1, 2, "1", "1", "partial")]
  {
    ed := TwoShapes();
    ghost var s0 := ed.shapes;
    assert HasId(1)(s0[0]) && HasId(2)(s0[1]);
    ConnectOnce(ed, 1, 2);
    assert ed.shapes[0] == s0[0] && ed.shapes[1] == s0[1];
  }

  /**
   * Connected, then the rectangle selected by a press and release on it, and
   * the edge's "from" cardinality text clicked open.
   */
  method LabelBoxOpen() returns (ed: Editor)
    ensures fresh(ed) && ed.Valid() && ed.editing && ed.selected == Some(1)
    ensures ed.shapes == [NewShape(1, RECT), NewShape(2, DIAMOND)]
    ensures ed.edges == [Edge(1, 2, "1", "1", "partial")]
    ensures ed.inlineEdit == Some(InlineEdit(Some(0), From, false))
  {
    ed := Connected();
    assert HasId(1)(ed.shapes[0]);
    ed.StartDrag(1, 0, 110, 110);
    ed.EndDrag();
    ed.OpenInlineEdit(0, From);
  }

  /**
   * Delete typed into the open text box, handled as static/engine.js:110-114
   * writes it: the key event reaches the document handler, which deletes the
   * selected rectangle and its edge while the box is still open.
   */
  method DeleteInTextBoxAsWritten() returns (ed: Editor)
    ensures fresh(ed)
    ensures ed.Valid() && ed.editing
    ensures ed.shapes == [NewShape(2, DIAMOND)] && ed.edges == []
    ensures ed.inlineEdit == Some(InlineEdit(None, From, false))
  {
    ed := LabelBoxOpen();
    ghost var s := ed.shapes;
    assert s[1..] == [NewShape(2, DIAMOND)] && s[1..][1..] == [];
    assert WithoutShape(s, 1) == WithoutShape(s[1..], 1);
    assert RemapEdgeIndex(ed.edges, 1, 0).None?;
    ed.KeyDownAsWritten("Delete");
  }

  /**
   * The same keystroke with the corrected handler: the diagram is untouched,
   * and committing the box then writes the typed cardinality.
   */
  method DeleteInTextBox() returns (ed: Editor)
    ensures fresh(ed)
    ensures ed.Valid() && !ed.editing
    ensures ed.shapes == [NewShape(1, RECT), NewShape(2, DIAMOND)]
    ensures ed.edges == [Edge(1, 2, "N", "1", "partial")]
  {
    ed := LabelBoxOpen();
    ed.KeyDown("Delete");
    assert ed.inlineEdit == Some(InlineEdit(Some(0), From, false));
    assert Labeled(Edge(1, 2, "1", "1", "partial"), From, "N") == Edge(1, 2, "N", "1", "partial");
    ed.Commit("N");
  }

  /**
   * Escape in the open box as static/engine.js:164-167 writes it, followed
   * by the blur that removing the focused box raises: the blur's commit
   * writes the typed value although the user cancelled.
   */
  method EscapeThenBlurAsWritten() returns (ed: Editor)
    ensures fresh(ed)
    ensures ed.Valid() && !ed.editing
    ensures ed.edges == [Edge(1, 2, "N", "1", "partial")]
  {
    ed := LabelBoxOpen();
    ed.EscapeAsWritten();
    ed.Commit("N");
  }

  /** The same with the corrected Escape: the cancelled value is not written. */
  method EscapeThenBlur() returns (ed: Editor)
    ensures fresh(ed)
    ensures ed.Valid() && !ed.editing
    ensures ed.edges == [Edge(1, 2, "1", "1", "partial")]
  {
    ed := LabelBoxOpen();
    ed.Escape();
    ed.Commit("N");
  }
}
