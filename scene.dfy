/**
 * The diagram held by static/engine.js: its shape and edge records and the
 * pure rules the handlers apply to them. Each rule is a function over the
 * lists; the handlers in module Engine are proved to apply exactly these
 * rules, and the lemmas here state what the rules guarantee.
 */
module Scene {
  import opened Wrappers
  import opened Seqs
  import opened Grid

  /**
   * A shape record (static/engine.js:50-58). `kind` is the source's `type`
   * string; `highlight` is `_highlight`, absent (falsy) until first set.
   */
  datatype Shape = Shape(id: int, kind: string, x: int, y: int, w: int, h: int,
                         text: string, highlight: bool)

  /** An edge record (static/engine.js:74-80); `from` and `to` are shape ids. */
  datatype Edge = Edge(from: int, to: int, fromLabel: string, toLabel: string,
                       participation: string)

  /** The end of an edge whose cardinality text is being edited. */
  datatype Side = From | To

  // The kinds the toolbar creates (static/engine.js:62-66).
  const RECT: string := "rect"
  const DOUBLE_RECT: string := "double-rect"
  const DIAMOND: string := "diamond"
  const IDR: string := "idr"
  const CIRCLE: string := "Cr"

  // ---------------------------------------------------------------- addShape

  function UpperChar(c: char): char
  {
    if 'a' <= c <= 'z' then (c as int - 32) as char else c
  }

  /** `String.prototype.toUpperCase`, on the ASCII letters. */
  function ToUpper(s: string): (r: string)
    ensures |r| == |s|
    ensures forall i :: 0 <= i < |s| ==> r[i] == UpperChar(s[i])
    ensures forall i :: 0 <= i < |r| ==> !('a' <= r[i] <= 'z')
  {
    if s == [] then [] else [UpperChar(s[0])] + ToUpper(s[1..])
  }

  /** The record `addShape(type)` pushes (static/engine.js:50-58). */
  function NewShape(id: int, kind: string): (r: Shape)
    ensures r.id == id && r.kind == kind && !r.highlight
    ensures r.x == 100 && r.y == 100
    ensures r.w == r.h <==> kind == CIRCLE
    ensures kind == CIRCLE ==> r.w == 30 && r.h == 30
    ensures kind != CIRCLE ==> r.w == 120 && r.h == 60
    ensures |r.text| == |kind| && forall i :: 0 <= i < |kind| ==> r.text[i] == UpperChar(kind[i])
  {
    Shape(id, kind, 100, 100,
          if kind == CIRCLE then 30 else 120,
          if kind == CIRCLE then 30 else 60,
          ToUpper(kind), false)
  }

  /** Entities are drawn with their cardinality text at the edge's midpoint. */
  function IsNotEntity(s: Shape): (r: bool)
    ensures r <==> s.kind !in {RECT, DOUBLE_RECT}
  {
    s.kind != RECT && s.kind != DOUBLE_RECT
  }

  /**
   * What the toolbar buttons create: a 30x30 shape for the circle and 120x60
   * for the others, all at (100, 100) and unhighlighted.
   */
  lemma ToolbarShapes(id: int)
    ensures forall k :: k in {RECT, DOUBLE_RECT, DIAMOND, IDR} ==>
      var s := NewShape(id, k);
      s.id == id && s.kind == k && s.x == 100 && s.y == 100 && s.w == 120 && s.h == 60 && !s.highlight
    ensures NewShape(id, CIRCLE) == Shape(id, "Cr", 100, 100, 30, 30, "CR", false)
  {
    assert ToUpper("Cr") == [UpperChar('C')] + ToUpper("r");
  }

  /** Of the toolbar's kinds, exactly "rect" and "double-rect" are entities. */
  lemma ToolbarEntities(id: int)
    ensures forall k :: k in {RECT, DOUBLE_RECT, DIAMOND, IDR, CIRCLE} ==>
      (IsNotEntity(NewShape(id, k)) <==> k in {DIAMOND, IDR, CIRCLE})
  {
  }

  // ------------------------------------------------------- lookup and delete

  function HasId(id: int): Shape -> bool
  {
    (s: Shape) => s.id == id
  }

  function KeepShape(id: int): Shape -> bool
  {
    (s: Shape) => s.id != id
  }

  function KeepEdge(id: int): Edge -> bool
  {
    (e: Edge) => e.from != id && e.to != id
  }

  /** `shapes.find(s => s.id === id)`, as the index of the shape found. */
  function FindShape(shapes: seq<Shape>, id: int): (r: Option<nat>)
    ensures r.Some? ==> r.value < |shapes| && shapes[r.value].id == id
    ensures r.Some? ==> forall j :: 0 <= j < r.value ==> shapes[j].id != id
    ensures r.None? ==> forall j :: 0 <= j < |shapes| ==> shapes[j].id != id
  {
    Find(shapes, HasId(id))
  }

  /** `shapes.filter(s => s.id !== id)` (static/engine.js:105). */
  function WithoutShape(shapes: seq<Shape>, id: int): (r: seq<Shape>)
    ensures |r| <= |shapes|
    ensures forall s :: s in r ==> s in shapes && s.id != id
  {
    Filter(shapes, KeepShape(id))
  }

  /** `edges.filter(edge => edge.from !== id && edge.to !== id)` (static/engine.js:106). */
  function WithoutEdgesOf(edges: seq<Edge>, id: int): (r: seq<Edge>)
    ensures |r| <= |edges|
    ensures forall e :: e in r ==> e in edges && e.from != id && e.to != id
  {
    Filter(edges, KeepEdge(id))
  }

  /** After a delete, exactly the shapes and edges not naming the id remain. */
  lemma DeleteShapeContents(shapes: seq<Shape>, edges: seq<Edge>, id: int)
    ensures forall s :: s in WithoutShape(shapes, id) <==> s in shapes && s.id != id
    ensures forall e :: e in WithoutEdgesOf(edges, id) <==> e in edges && e.from != id && e.to != id
  {
    forall s | s in shapes && s.id != id
      ensures s in WithoutShape(shapes, id)
    {
      FilterKeeps(shapes, KeepShape(id), s);
    }
    forall e | e in edges && e.from != id && e.to != id
      ensures e in WithoutEdgesOf(edges, id)
    {
      FilterKeeps(edges, KeepEdge(id), e);
    }
  }

  /**
   * Survivors keep their relative order: the i-th shape (edge), if it does
   * not name the id, lands at position |WithoutShape(shapes[..i], id)| of the
   * result, and these positions increase with i.
   */
  lemma DeleteKeepsOrder(shapes: seq<Shape>, edges: seq<Edge>, id: int)
    ensures forall i :: 0 <= i < |shapes| && shapes[i].id != id ==>
      |WithoutShape(shapes[..i], id)| < |WithoutShape(shapes, id)| &&
      WithoutShape(shapes, id)[|WithoutShape(shapes[..i], id)|] == shapes[i]
    ensures forall i, j :: 0 <= i < j < |shapes| && shapes[i].id != id ==>
      |WithoutShape(shapes[..i], id)| < |WithoutShape(shapes[..j], id)|
    ensures forall i :: 0 <= i < |edges| && edges[i].from != id && edges[i].to != id ==>
      |WithoutEdgesOf(edges[..i], id)| < |WithoutEdgesOf(edges, id)| &&
      WithoutEdgesOf(edges, id)[|WithoutEdgesOf(edges[..i], id)|] == edges[i]
    ensures forall i, j :: 0 <= i < j < |edges| && edges[i].from != id && edges[i].to != id ==>
      |WithoutEdgesOf(edges[..i], id)| < |WithoutEdgesOf(edges[..j], id)|
  {
    forall i | 0 <= i < |shapes| && shapes[i].id != id
      ensures |WithoutShape(shapes[..i], id)| < |WithoutShape(shapes, id)|
      ensures WithoutShape(shapes, id)[|WithoutShape(shapes[..i], id)|] == shapes[i]
    {
      FilterAt(shapes, KeepShape(id), i);
    }
    forall i, j | 0 <= i < j < |shapes| && shapes[i].id != id
      ensures |WithoutShape(shapes[..i], id)| < |WithoutShape(shapes[..j], id)|
    {
      FilterOrder(shapes, KeepShape(id), i, j);
    }
    forall i | 0 <= i < |edges| && edges[i].from != id && edges[i].to != id
      ensures |WithoutEdgesOf(edges[..i], id)| < |WithoutEdgesOf(edges, id)|
      ensures WithoutEdgesOf(edges, id)[|WithoutEdgesOf(edges[..i], id)|] == edges[i]
    {
      FilterAt(edges, KeepEdge(id), i);
    }
    forall i, j | 0 <= i < j < |edges| && edges[i].from != id && edges[i].to != id
      ensures |WithoutEdgesOf(edges[..i], id)| < |WithoutEdgesOf(edges[..j], id)|
    {
      FilterOrder(edges, KeepEdge(id), i, j);
    }
  }

  /**
   * Deleting an id no shape carries leaves the shapes as they are; the edges
   * stay as they are exactly when none of them names the id (a dangling edge
   * naming it is still removed).
   */
  lemma DeleteAbsent(shapes: seq<Shape>, edges: seq<Edge>, id: int)
    requires FindShape(shapes, id).None?
    ensures WithoutShape(shapes, id) == shapes
    ensures WithoutEdgesOf(edges, id) == edges <==>
      forall k :: 0 <= k < |edges| ==> edges[k].from != id && edges[k].to != id
  {
    FilterAll(shapes, KeepShape(id));
    if forall k :: 0 <= k < |edges| ==> edges[k].from != id && edges[k].to != id {
      FilterAll(edges, KeepEdge(id));
    } else {
      var k :| 0 <= k < |edges| && (edges[k].from == id || edges[k].to == id);
      assert edges[k] in edges && edges[k] !in WithoutEdgesOf(edges, id);
    }
  }

  // ------------------------------------------------------------------ render

  /** Both endpoint ids of `e` resolve to a shape (static/engine.js:213-215). */
  predicate Resolves(shapes: seq<Shape>, e: Edge)
  {
    FindShape(shapes, e.from).Some? && FindShape(shapes, e.to).Some?
  }

  function ResolvesIn(shapes: seq<Shape>): Edge -> bool
  {
    (e: Edge) => Resolves(shapes, e)
  }

  /** The edges `render` draws, in drawing order. */
  function RenderedEdges(shapes: seq<Shape>, edges: seq<Edge>): (r: seq<Edge>)
    ensures |r| <= |edges|
    ensures forall e :: e in r ==> e in edges && Resolves(shapes, e)
  {
    Filter(edges, ResolvesIn(shapes))
  }

  /** An edge is drawn iff it is in the list and both its ends resolve. */
  lemma RenderedEdgesExactly(shapes: seq<Shape>, edges: seq<Edge>)
    ensures forall e :: e in RenderedEdges(shapes, edges) <==> e in edges && Resolves(shapes, e)
    ensures (forall k :: 0 <= k < |edges| ==> Resolves(shapes, edges[k])) ==>
      RenderedEdges(shapes, edges) == edges
  {
    forall e | e in edges && Resolves(shapes, e)
      ensures e in RenderedEdges(shapes, edges)
    {
      FilterKeeps(edges, ResolvesIn(shapes), e);
    }
    if forall k :: 0 <= k < |edges| ==> Resolves(shapes, edges[k]) {
      FilterAll(edges, ResolvesIn(shapes));
    }
  }

  /** Two shape lists with the same ids, position by position. */
  predicate SameIds(s: seq<Shape>, t: seq<Shape>)
  {
    |s| == |t| && forall j :: 0 <= j < |s| ==> s[j].id == t[j].id
  }

  /** Lookups by id only see ids: rewriting other fields does not change them. */
  lemma {:induction false} SameIdsFind(s: seq<Shape>, t: seq<Shape>, id: int)
    requires SameIds(s, t)
    ensures FindShape(s, id) == FindShape(t, id)
    decreases |s|
  {
    if s != [] {
      SameIdsFind(s[1..], t[1..], id);
    }
  }

  /** Appending a shape does not change which shape an existing id finds. */
  lemma FindAfterAppend(s: seq<Shape>, x: Shape, id: int)
    requires FindShape(s, id).Some?
    ensures FindShape(s + [x], id) == FindShape(s, id)
  {
    var i := FindShape(s, id).value;
    assert (s + [x])[i] == s[i];
    var r := FindShape(s + [x], id);
    assert r.Some?;
    assert forall j :: 0 <= j < i ==> (s + [x])[j] == s[j];
  }

  /** A shape id that resolves still resolves once a different id is deleted. */
  lemma FindAfterDelete(shapes: seq<Shape>, id: int, other: int)
    requires other != id && FindShape(shapes, other).Some?
    ensures FindShape(WithoutShape(shapes, id), other).Some?
  {
    var i := FindShape(shapes, other).value;
    FilterKeeps(shapes, KeepShape(id), shapes[i]);
  }

  /** A shape id that does not resolve does not resolve after any delete. */
  lemma FindAfterDeleteNone(shapes: seq<Shape>, id: int, other: int)
    requires FindShape(shapes, other).None?
    ensures FindShape(WithoutShape(shapes, id), other).None?
  {
    var r := WithoutShape(shapes, id);
    forall j | 0 <= j < |r|
      ensures r[j].id != other
    {
      assert r[j] in shapes;
    }
  }

  /**
   * Deleting a shape takes out of the drawing exactly the edges that name
   * it: the drawing after the delete is the drawing before it, filtered.
   */
  lemma DeleteRendersSurvivors(shapes: seq<Shape>, edges: seq<Edge>, id: int)
    ensures RenderedEdges(WithoutShape(shapes, id), WithoutEdgesOf(edges, id)) ==
      WithoutEdgesOf(RenderedEdges(shapes, edges), id)
  {
    var after := WithoutShape(shapes, id);
    forall e | e in edges
      ensures KeepEdge(id)(e) && ResolvesIn(after)(e) <==> ResolvesIn(shapes)(e) && KeepEdge(id)(e)
    {
      if e.from != id && e.to != id {
        if Resolves(shapes, e) {
          FindAfterDelete(shapes, id, e.from);
          FindAfterDelete(shapes, id, e.to);
        } else if FindShape(shapes, e.from).None? {
          FindAfterDeleteNone(shapes, id, e.from);
        } else {
          FindAfterDeleteNone(shapes, id, e.to);
        }
      }
    }
    FilterSwap(edges, KeepEdge(id), ResolvesIn(after), ResolvesIn(shapes), KeepEdge(id));
  }

  // -------------------------------------------------------------- highlights

  /**
   * Scanning the shapes in order, a shape may be highlighted only if it is the
   * first one carrying the pending connection source's id.
   */
  predicate HighlightOk(s: seq<Shape>, pending: Option<int>)
    decreases |s|
  {
    s == [] ||
    ((s[0].highlight ==> pending == Some(s[0].id)) &&
     HighlightOk(s[1..], if pending == Some(s[0].id) then None else pending))
  }

  predicate NoHighlight(s: seq<Shape>)
  {
    forall i :: 0 <= i < |s| ==> !s[i].highlight
  }

  lemma {:induction false} NoHighlightOk(s: seq<Shape>, pending: Option<int>)
    requires NoHighlight(s)
    ensures HighlightOk(s, pending)
    decreases |s|
  {
    if s != [] {
      NoHighlightOk(s[1..], if pending == Some(s[0].id) then None else pending);
    }
  }

  /** With no pending source, nothing is highlighted. */
  lemma {:induction false} HighlightOkNone(s: seq<Shape>)
    requires HighlightOk(s, None)
    ensures NoHighlight(s)
    decreases |s|
  {
    if s != [] {
      HighlightOkNone(s[1..]);
    }
  }

  lemma {:induction false} HighlightOkAppend(s: seq<Shape>, pending: Option<int>, x: Shape)
    requires HighlightOk(s, pending) && !x.highlight
    ensures HighlightOk(s + [x], pending)
    decreases |s|
  {
    if s == [] {
      NoHighlightOk([x], pending);
    } else {
      assert (s + [x])[0] == s[0];
      assert (s + [x])[1..] == s[1..] + [x];
      HighlightOkAppend(s[1..], if pending == Some(s[0].id) then None else pending, x);
    }
  }

  lemma {:induction false} HighlightOkDelete(s: seq<Shape>, pending: Option<int>, id: int)
    requires HighlightOk(s, pending)
    ensures HighlightOk(WithoutShape(s, id), pending)
    decreases |s|
  {
    if s != [] {
      var next := if pending == Some(s[0].id) then None else pending;
      var rest := WithoutShape(s[1..], id);
      HighlightOkDelete(s[1..], next, id);
      if s[0].id != id {
        assert WithoutShape(s, id) == [s[0]] + rest;
        assert ([s[0]] + rest)[1..] == rest;
      } else if pending == Some(s[0].id) {
        HighlightOkNone(rest);
        NoHighlightOk(rest, pending);
      }
    }
  }

  /** Rewriting one shape without touching its id or highlight keeps the invariant. */
  lemma {:induction false} HighlightOkUpdate(s: seq<Shape>, pending: Option<int>, k: nat, y: Shape)
    requires HighlightOk(s, pending) && k < |s|
    requires y.id == s[k].id && y.highlight == s[k].highlight
    ensures HighlightOk(s[k := y], pending)
    decreases k
  {
    if k == 0 {
      assert s[k := y][1..] == s[1..];
    } else {
      assert s[k := y][1..] == s[1..][k - 1 := y];
      HighlightOkUpdate(s[1..], if pending == Some(s[0].id) then None else pending, k - 1, y);
    }
  }

  lemma {:induction false} HighlightFirstClick(s: seq<Shape>, i: nat)
    requires NoHighlight(s) && i < |s|
    requires forall j :: 0 <= j < i ==> s[j].id != s[i].id
    ensures HighlightOk(s[i := s[i].(highlight := true)], Some(s[i].id))
    decreases i
  {
    var t := s[i := s[i].(highlight := true)];
    if i == 0 {
      assert t[1..] == s[1..];
      NoHighlightOk(s[1..], None);
    } else {
      assert t[1..] == s[1..][i - 1 := s[i].(highlight := true)];
      HighlightFirstClick(s[1..], i - 1);
    }
  }

  /** Clearing the first shape with the pending id leaves nothing highlighted. */
  lemma {:induction false} HighlightClearPending(s: seq<Shape>, p: int)
    requires HighlightOk(s, Some(p))
    ensures FindShape(s, p).None? ==> NoHighlight(s)
    ensures FindShape(s, p).Some? ==>
      NoHighlight(s[FindShape(s, p).value := s[FindShape(s, p).value].(highlight := false)])
    decreases |s|
  {
    if s != [] {
      if s[0].id == p {
        HighlightOkNone(s[1..]);
        assert FindShape(s, p) == Some(0);
      } else {
        HighlightClearPending(s[1..], p);
        match FindShape(s[1..], p)
        case None =>
          assert FindShape(s, p).None?;
        case Some(j) =>
          assert FindShape(s, p) == Some(j + 1);
          var t := s[j + 1 := s[j + 1].(highlight := false)];
          assert t[1..] == s[1..][j := s[1..][j].(highlight := false)];
      }
    }
  }

  // ---------------------------------------------------------------- connect

  /** The shapes, edges and pending source after one `handleConnection` call. */
  datatype Connection = Connection(shapes: seq<Shape>, edges: seq<Edge>, pending: Option<int>)

  function Unhighlight(s: seq<Shape>, k: Option<nat>): seq<Shape>
  {
    if k.Some? && k.value < |s| then s[k.value := s[k.value].(highlight := false)] else s
  }

  /**
   * `handleConnection(shapes[i])` (static/engine.js:68-86): the first click
   * makes the shape the pending source and highlights it; the second pushes
   * an edge from the pending source to the shape, unhighlights both and
   * clears the pending source. `pending` is the id of `connectForm`.
   */
  function ConnectStep(shapes: seq<Shape>, edges: seq<Edge>, pending: Option<int>, i: nat): (c: Connection)
    requires i < |shapes|
    ensures |c.shapes| == |shapes|
    ensures forall j :: 0 <= j < |shapes| ==> c.shapes[j] == shapes[j].(highlight := c.shapes[j].highlight)
    ensures pending.None? ==> c.edges == edges && c.pending == Some(shapes[i].id) && c.shapes[i].highlight
    ensures pending.Some? ==> c.pending.None? && !c.shapes[i].highlight
    ensures pending.Some? ==> c.edges == edges + [Edge(pending.value, shapes[i].id, "1", "1", "partial")]
  {
    if pending.None? then
      Connection(shapes[i := shapes[i].(highlight := true)], edges, Some(shapes[i].id))
    else
      var cleared := Unhighlight(shapes, FindShape(shapes, pending.value));
      Connection(cleared[i := cleared[i].(highlight := false)],
                 edges + [Edge(pending.value, shapes[i].id, "1", "1", "partial")],
                 None)
  }

  /**
   * First click: the clicked shape becomes the pending source and the only
   * highlighted shape; no edge is added and no other shape changes.
   */
  lemma ConnectFirstClick(shapes: seq<Shape>, edges: seq<Edge>, i: nat)
    requires i < |shapes| && FindShape(shapes, shapes[i].id) == Some(i)
    requires HighlightOk(shapes, None)
    ensures var c := ConnectStep(shapes, edges, None, i);
      c.edges == edges && c.pending == Some(shapes[i].id) &&
      |c.shapes| == |shapes| && c.shapes[i].highlight &&
      (forall k :: 0 <= k < |shapes| && k != i ==> c.shapes[k] == shapes[k]) &&
      HighlightOk(c.shapes, c.pending)
  {
    HighlightOkNone(shapes);
    HighlightFirstClick(shapes, i);
  }

  /**
   * Second click: exactly one edge {from: pending, to: clicked, "1", "1",
   * "partial"} is appended, the pending source is cleared and no shape is
   * highlighted any more; apart from the highlight flags no shape changes.
   */
  lemma ConnectSecondClick(shapes: seq<Shape>, edges: seq<Edge>, p: int, i: nat)
    requires i < |shapes| && HighlightOk(shapes, Some(p))
    ensures var c := ConnectStep(shapes, edges, Some(p), i);
      c.edges == edges + [Edge(p, shapes[i].id, "1", "1", "partial")] &&
      c.pending.None? && |c.shapes| == |shapes| && NoHighlight(c.shapes) &&
      (forall k :: 0 <= k < |shapes| ==> c.shapes[k] == shapes[k].(highlight := false)) &&
      HighlightOk(c.shapes, c.pending)
  {
    HighlightClearPending(shapes, p);
    var c := ConnectStep(shapes, edges, Some(p), i);
    NoHighlightOk(c.shapes, None);
  }

  /** Either click keeps the highlight invariant and rewrites highlight flags only. */
  lemma ConnectStepKeeps(shapes: seq<Shape>, edges: seq<Edge>, pending: Option<int>, i: nat)
    requires i < |shapes| && HighlightOk(shapes, pending)
    requires pending.None? ==> FindShape(shapes, shapes[i].id) == Some(i)
    ensures var c := ConnectStep(shapes, edges, pending, i);
      HighlightOk(c.shapes, c.pending) && SameIds(shapes, c.shapes) &&
      (pending.Some? ==> NoHighlight(c.shapes))
  {
    if pending.None? {
      ConnectFirstClick(shapes, edges, i);
    } else {
      ConnectSecondClick(shapes, edges, pending.value, i);
    }
  }

  /**
   * Two complete connect gestures between the same pair of shapes append two
   * identical edges: this code does not suppress a duplicate edge.
   */
  lemma ConnectTwiceTwoEdges(shapes: seq<Shape>, edges: seq<Edge>, a: nat, b: nat)
    requires a < |shapes| && b < |shapes|
    ensures var c1 := ConnectStep(shapes, edges, None, a);
      var c2 := ConnectStep(c1.shapes, c1.edges, c1.pending, b);
      var c3 := ConnectStep(c2.shapes, c2.edges, c2.pending, a);
      var c4 := ConnectStep(c3.shapes, c3.edges, c3.pending, b);
      var e := Edge(shapes[a].id, shapes[b].id, "1", "1", "partial");
      c4.edges == edges + [e, e] && c4.pending.None?
  {
    var c1 := ConnectStep(shapes, edges, None, a);
    var c2 := ConnectStep(c1.shapes, c1.edges, c1.pending, b);
    var c3 := ConnectStep(c2.shapes, c2.edges, c2.pending, a);
    var c4 := ConnectStep(c3.shapes, c3.edges, c3.pending, b);
    assert c4.edges == (edges + [Edge(shapes[a].id, shapes[b].id, "1", "1", "partial")])
                       + [Edge(shapes[a].id, shapes[b].id, "1", "1", "partial")];
  }

  // ------------------------------------------------------------------- drag

  /**
   * The `mousemove` write (static/engine.js:330-335): the shape being dragged,
   * found by id, moves to the snapped pointer-minus-offset position.
   */
  function DragTo(shapes: seq<Shape>, dragging: Option<int>, x: int, y: int): (r: seq<Shape>)
    ensures |r| == |shapes|
    ensures forall j :: 0 <= j < |shapes| ==>
      r[j] == shapes[j] || r[j] == shapes[j].(x := Snap(x), y := Snap(y))
  {
    if dragging.None? then shapes
    else match FindShape(shapes, dragging.value)
      case None => shapes
      case Some(i) => shapes[i := shapes[i].(x := Snap(x), y := Snap(y))]
  }

  /**
   * A move changes only the first shape with the dragged id, and only its
   * position, which becomes grid aligned and within half a cell of the
   * requested point; with no drag active, or the dragged shape gone, nothing
   * changes.
   */
  lemma DragToMovesOnlyTarget(shapes: seq<Shape>, dragging: Option<int>, x: int, y: int)
    ensures |DragTo(shapes, dragging, x, y)| == |shapes|
    ensures dragging.None? || FindShape(shapes, dragging.value).None? ==>
      DragTo(shapes, dragging, x, y) == shapes
    ensures dragging.Some? && FindShape(shapes, dragging.value).Some? ==>
      var i := FindShape(shapes, dragging.value).value;
      var m := DragTo(shapes, dragging, x, y)[i];
      m == shapes[i].(x := m.x, y := m.y) &&
      m.x % GRID_SIZE == 0 && m.y % GRID_SIZE == 0 &&
      x - 10 < m.x <= x + 10 && y - 10 < m.y <= y + 10 &&
      forall k :: 0 <= k < |shapes| && k != i ==> DragTo(shapes, dragging, x, y)[k] == shapes[k]
  {
  }

  /**
   * With the offset `startDrag` records (pointer minus shape position), the
   * position written is the snapped start position plus the pointer's
   * displacement, per axis.
   */
  lemma DragFollowsPointer(x0: int, startPointer: int, pointer: int)
    ensures Snap(pointer - (startPointer - x0)) == Snap(x0 + (pointer - startPointer))
    ensures (pointer - startPointer) % GRID_SIZE == 0 && x0 % GRID_SIZE == 0 ==>
      Snap(pointer - (startPointer - x0)) == x0 + (pointer - startPointer)
  {
    if (pointer - startPointer) % GRID_SIZE == 0 && x0 % GRID_SIZE == 0 {
      SnapAligned(x0 + (pointer - startPointer));
    }
  }

  lemma HighlightOkDrag(shapes: seq<Shape>, pending: Option<int>, dragging: Option<int>, x: int, y: int)
    requires HighlightOk(shapes, pending)
    ensures HighlightOk(DragTo(shapes, dragging, x, y), pending)
  {
    if dragging.Some? && FindShape(shapes, dragging.value).Some? {
      var i := FindShape(shapes, dragging.value).value;
      HighlightOkUpdate(shapes, pending, i, shapes[i].(x := Snap(x), y := Snap(y)));
    }
  }

  // ------------------------------------------------------------ label edits

  /**
   * `editEdge` (static/engine.js:123-131): each cardinality is overwritten by
   * its prompt result unless that is null; participation only by exactly
   * "total" or "partial".
   */
  function EditedEdge(e: Edge, fromLabel: Option<string>, toLabel: Option<string>,
                      participation: Option<string>): (r: Edge)
    ensures r.from == e.from && r.to == e.to
    ensures fromLabel.Some? ==> r.fromLabel == fromLabel.value
    ensures fromLabel.None? ==> r.fromLabel == e.fromLabel
    ensures toLabel.Some? ==> r.toLabel == toLabel.value
    ensures toLabel.None? ==> r.toLabel == e.toLabel
    ensures r.participation != e.participation ==>
      participation == Some(r.participation) && r.participation in {"total", "partial"}
    ensures participation == Some("total") || participation == Some("partial") ==>
      r.participation == participation.value
  {
    var p := if participation == Some("total") || participation == Some("partial")
             then participation.value else e.participation;
    Edge(e.from, e.to,
         if fromLabel.Some? then fromLabel.value else e.fromLabel,
         if toLabel.Some? then toLabel.value else e.toLabel,
         p)
  }

  /** An edge whose participation is "total" or "partial" keeps it in that set. */
  lemma EditEdgeKeepsParticipation(e: Edge, fromLabel: Option<string>, toLabel: Option<string>,
                                   participation: Option<string>)
    requires e.participation in {"total", "partial"}
    ensures EditedEdge(e, fromLabel, toLabel, participation).participation in {"total", "partial"}
  {
  }

  /** The inline editor's `commit` write (static/engine.js:154-155): one side only. */
  function Labeled(e: Edge, side: Side, value: string): (r: Edge)
    ensures r.from == e.from && r.to == e.to && r.participation == e.participation
    ensures side == From ==> r.fromLabel == value && r.toLabel == e.toLabel
    ensures side == To ==> r.toLabel == value && r.fromLabel == e.fromLabel
  {
    match side
    case From => e.(fromLabel := value)
    case To => e.(toLabel := value)
  }

  /**
   * Where the edge at index i sits after `deleteShape(id)`, or None when the
   * delete removes it. The inline editor holds the edge object itself, so a
   * commit after the delete writes to this position, or nowhere visible.
   */
  function RemapEdgeIndex(edges: seq<Edge>, id: int, i: nat): (r: Option<nat>)
    requires i < |edges|
    ensures r.None? <==> edges[i].from == id || edges[i].to == id
    ensures r.Some? ==>
      r.value < |WithoutEdgesOf(edges, id)| && WithoutEdgesOf(edges, id)[r.value] == edges[i]
  {
    if KeepEdge(id)(edges[i]) then
      FilterAt(edges, KeepEdge(id), i);
      Some(|WithoutEdgesOf(edges[..i], id)|)
    else None
  }
}
