/** The draw list put to work: every operation, every shape and every run of operations on it is what
    the painter of DrawRun paints. */
module DrawPlay {
  import opened DrawModel
  import opened DrawShapes
  import opened DrawRun
  import opened DrawList
  import Ring
  import Triangulator

  /** What the caller owes an operation.  A primitive has fewer than 2^16 vertices, and without vertex
      offsets all vertices of the list are within reach of the indices. */
  predicate CanDo(list: DrawList, op: Op)
    reads list
  {
    match op
    case PopClip => list.clipRectStack != []
    case PopTexture => list.textureIdStack != []
    case Merge => |list.cmdBuffer| >= 2
    case Primitive(vs, rel, idxCount, vtxCount) =>
      && InRange(rel, |vs|) && |rel| <= idxCount && |vs| <= vtxCount
      && Reachable(list, |vs|)
    case _ => true
  }

  predicate Reachable(list: DrawList, vertices: nat)
    reads list
  {
    vertices < INDEX_LIMIT && (list.allowVtxOffset || list.vtxCurrentIdx + vertices <= INDEX_LIMIT)
  }

  /** Between operations: nothing is half written, and every index names a vertex. */
  ghost predicate Playing(list: DrawList)
    reads list
  {
    list.Settled() && Paintable(list.Snapshot())
  }

  /** An operation on the list paints what it says. */
  method Do(list: DrawList, op: Op)
    requires Playing(list) && CanDo(list, op)
    modifies list
    ensures Playing(list) && list.allowVtxOffset == old(list.allowVtxOffset)
    ensures Allowed(old(PainterOf(list.Snapshot())), op)
    ensures Stepped(list.fullscreen, old(list.Snapshot()), op, list.Snapshot())
    ensures PainterOf(list.Snapshot()) == Paint(list.fullscreen, old(PainterOf(list.Snapshot())), op)
  {
    hide Tiled, Expand, Pictures, Named, Narrowed;
    ghost var a := list.Snapshot();
    match op {
      case Primitive(vs, rel, idxCount, vtxCount) =>
        list.AddPrimitive(vs, rel, idxCount, vtxCount);
      case Nothing =>
      case _ => DoState(list, op);
    }
    StepPaints(list.fullscreen, a, op, list.Snapshot());
  }

  /** The operations that draw no vertices. */
  method DoState(list: DrawList, op: Op)
    requires Playing(list) && CanDo(list, op) && !op.Primitive? && !op.Nothing?
    modifies list
    ensures list.Settled() && list.allowVtxOffset == old(list.allowVtxOffset)
    ensures Allowed(old(PainterOf(list.Snapshot())), op)
    ensures Stepped(list.fullscreen, old(list.Snapshot()), op, list.Snapshot())
  {
    hide Tiled, Expand, Pictures, Named, ClipPushed, Added, Compact;
    match op {
      case PushClip(cr, intersect) => list.PushClipRect(cr, intersect);
      case PopClip => list.PopClipRect();
      case PushTexture(t) => list.PushTextureID(t);
      case PopTexture => list.PopTextureID();
      case SetTexture(t) => list.SetTextureID(t);
      case Merge => list.TryMergeDrawCmds();
      case Call(callback) => list.AddCallback(callback);
    }
  }

  /** As far as a run of operations is allowed, the list shows what the painter has painted. */
  method Play(list: DrawList, ops: seq<Op>) returns (n: nat)
    requires Playing(list)
    modifies list
    ensures Playing(list) && n <= |ops| && (n < |ops| ==> !CanDo(list, ops[n]))
    ensures PaintAll(list.fullscreen, old(PainterOf(list.Snapshot())), ops[..n]) == (true, PainterOf(list.Snapshot()))
  {
    hide Paint, Allowed, CanDo, Stepped, Tiled, Expand, Pictures, Named;
    n := 0;
    ghost var p := PainterOf(list.Snapshot());
    while n < |ops| && CanDo(list, ops[n])
      invariant Playing(list) && n <= |ops|
      invariant PaintAll(list.fullscreen, p, ops[..n]) == (true, PainterOf(list.Snapshot()))
    {
      ghost var q := PainterOf(list.Snapshot());
      Do(list, ops[n]);
      PaintOneMore(list.fullscreen, p, ops[..n], q, ops[n]);
      assert ops[..n] + [ops[n]] == ops[..n + 1];
      n := n + 1;
    }
  }

  lemma {:induction false} PaintOneMore(fullscreen: Clip, p: Painter, ops: seq<Op>, q: Painter, op: Op)
    requires PaintAll(fullscreen, p, ops) == (true, q) && Allowed(q, op)
    ensures PaintAll(fullscreen, p, ops + [op]) == (true, Paint(fullscreen, q, op))
    decreases |ops|
  {
    hide Paint, Allowed;
    if ops == [] {
      assert (ops + [op])[1..] == [];
    } else {
      assert (ops + [op])[1..] == ops[1..] + [op];
      PaintOneMore(fullscreen, Paint(fullscreen, p, ops[0]), ops[1..], q, op);
    }
  }

  // ---------------------------------------------------------------- shapes

  datatype Shape =
    | Convex(inner: seq<Vertex>, outer: seq<Vertex>, antiAliased: bool, visible: bool)
    | Concave(points: seq<Ring.Point>, inner: seq<Vertex>, outer: seq<Vertex>, antiAliased: bool, visible: bool,
        clockwise: (Ring.Point, Ring.Point, Ring.Point) -> bool,
        contains: (Ring.Point, Ring.Point, Ring.Point, Ring.Point) -> bool)
    | Polyline(vs: seq<Vertex>, n: nat, closed: bool, visible: bool, antiAliased: bool, useTexture: bool, thick: bool)
    | Quads(vs: seq<Vertex>, count: nat, max: nat)

  /** The vertices across the line at every point, or four of its own for every segment. */
  function VerticesOf(st: Stroke, n: nat, count: nat): nat {
    if st == Plain then 4 * count else |Across(st)| * n
  }

  lemma VerticesAre(st: Stroke, n: nat, count: nat)
    ensures VerticesOf(st, n, count) == StrokeVertices(st, n, count)
  {
    match st
    case Textured =>
    case Thin =>
    case Thick =>
    case Plain =>
  }

  predicate Drawable(shape: Shape) {
    match shape
    case Convex(inner, outer, _, _) => |outer| == |inner|
    case Concave(points, inner, outer, _, _, _, _) => |outer| == |inner| == |points|
    case Polyline(vs, n, closed, _, aa, tex, thick) =>
      n >= 2 ==> |vs| == VerticesOf(StrokeKind(aa, tex, thick), n, if closed then n else n - 1)
    case Quads(vs, count, max) => count <= max && |vs| == 4 * count
  }

  /** Shapes that come to nothing. */
  predicate Blank(shape: Shape) {
    match shape
    case Convex(inner, _, _, visible) => |inner| < 3 || !visible
    case Concave(points, _, _, _, visible, _, _) => |points| < 3 || !visible
    case Polyline(_, n, _, visible, _, _, _) => n < 2 || !visible
    case Quads(_, _, _) => false
  }

  function Corners(shape: Shape): seq<Vertex>
    requires Drawable(shape)
  {
    match shape
    case Convex(inner, outer, aa, _) => if aa then Interleaved(inner, outer) else inner
    case Concave(_, inner, outer, aa, _, _, _) => if aa then Interleaved(inner, outer) else inner
    case Polyline(vs, _, _, _, _, _, _) => vs
    case Quads(vs, _, _) => vs
  }

  /** The order in which a shape draws its vertices; the triangles of a concave one come from clipping. */
  ghost predicate DrawnAs(shape: Shape, rel: seq<int>) {
    match shape
    case Convex(inner, _, aa, _) => rel == FillIndices(|inner|, aa)
    case Concave(points, _, _, aa, _, clockwise, contains) =>
      exists ts :: Triangulator.Triangulation(Triangulator.Polygon(points, clockwise, contains), ts)
        && rel == if aa then TriangleIndices(ts, 2) + Fringe(|points|, |points|) else TriangleIndices(ts, 1)
    case Polyline(_, n, closed, _, aa, tex, thick) =>
      n >= 1 && rel == StrokeIndices(StrokeKind(aa, tex, thick), n, if closed then n else n - 1)
    case Quads(_, count, _) => rel == QuadIndices(count)
  }

  /** What the triangles of a shape cover, and with how many of them. */
  ghost predicate Covered(shape: Shape, rel: seq<int>) {
    match shape
    case Convex(inner, _, aa, _) => FillCovered(|inner|, aa, rel)
    case Concave(points, _, _, aa, _, clockwise, contains) =>
      exists ts :: Triangulator.Triangulation(Triangulator.Polygon(points, clockwise, contains), ts)
        && ConcaveCovered(ts, |points|, aa, rel)
    case Polyline(_, n, closed, _, aa, tex, thick) =>
      n >= 1 && StrokeCovered(StrokeKind(aa, tex, thick), n, if closed then n else n - 1, rel)
    case Quads(_, count, _) => StrokeCovered(Plain, count + 1, count, rel)
  }

  /** The triangles over the inner vertices, and then the fringe. */
  predicate ConcaveCovered(ts: seq<Triangulator.Triangle>, n: nat, antiAliased: bool, rel: seq<int>) {
    && |rel| >= 3 * |ts|
    && TrianglesDrawn(ts, if antiAliased then 2 else 1, rel[..3 * |ts|])
    && FringeCovered(n, if antiAliased then n else 0, rel[3 * |ts|..])
  }

  lemma ConcaveCovers(ts: seq<Triangulator.Triangle>, n: nat, antiAliased: bool)
    ensures ConcaveCovered(ts, n, antiAliased,
      if antiAliased then TriangleIndices(ts, 2) + Fringe(n, n) else TriangleIndices(ts, 1))
  {
    hide TrianglesDrawn, FringeCovered;
    TrianglesCover(ts, 2);
    TrianglesCover(ts, 1);
    FringeCovers(n, n);
    FringeCovers(n, 0);
    var rel := if antiAliased then TriangleIndices(ts, 2) + Fringe(n, n) else TriangleIndices(ts, 1);
    assert rel[..3 * |ts|] == TriangleIndices(ts, if antiAliased then 2 else 1);
    assert rel[3 * |ts|..] == if antiAliased then Fringe(n, n) else Fringe(n, 0);
  }

  /** The triangles of a shape cover what they should. */
  lemma ShapeCovers(shape: Shape, rel: seq<int>)
    requires Drawable(shape) && !Blank(shape) && DrawnAs(shape, rel)
    ensures Covered(shape, rel)
  {
    hide FillIndices, StrokeIndices, TriangleIndices, Fringe, FillCovered, StrokeCovered, ConcaveCovered;
    match shape
    case Convex(inner, _, aa, _) => FillCovers(|inner|, aa);
    case Concave(points, _, _, aa, _, clockwise, contains) =>
      var ts :| Triangulator.Triangulation(Triangulator.Polygon(points, clockwise, contains), ts)
        && rel == if aa then TriangleIndices(ts, 2) + Fringe(|points|, |points|) else TriangleIndices(ts, 1);
      ConcaveCovers(ts, |points|, aa);
    case Polyline(_, n, closed, _, aa, tex, thick) =>
      StrokeCovers(StrokeKind(aa, tex, thick), n, if closed then n else n - 1);
    case Quads(_, count, _) => StrokeCovers(Plain, count + 1, count);
  }

  /** Every index of a shape is of one of its vertices. */
  lemma ShapeInRange(shape: Shape, rel: seq<int>)
    requires Drawable(shape) && !Blank(shape) && DrawnAs(shape, rel)
    ensures InRange(rel, |Corners(shape)|)
  {
    hide InRange, FillIndices, StrokeIndices, TriangleIndices, Fringe, VerticesOf, StrokeVertices, StrokeKind,
      Triangulator.Triangulation;
    match shape
    case Convex(inner, _, aa, _) => FillInRange(|inner|, aa);
    case Concave(points, _, _, aa, _, clockwise, contains) =>
      var p := Triangulator.Polygon(points, clockwise, contains);
      var ts :| Triangulator.Triangulation(p, ts)
        && rel == if aa then TriangleIndices(ts, 2) + Fringe(|points|, |points|) else TriangleIndices(ts, 1);
      ConcaveInRange(p, ts, aa);
    case Polyline(vs, n, closed, _, aa, tex, thick) =>
      PolylineInRange(StrokeKind(aa, tex, thick), n, if closed then n else n - 1);
    case Quads(vs, count, _) =>
      QuadVertices(count);
      PolylineInRange(Plain, count + 1, count);
  }

  lemma ConcaveInRange(p: Triangulator.Polygon, ts: seq<Triangulator.Triangle>, antiAliased: bool)
    requires Triangulator.Triangulation(p, ts)
    ensures var n := |p.points|;
      if antiAliased then InRange(TriangleIndices(ts, 2) + Fringe(n, n), 2 * n) else InRange(TriangleIndices(ts, 1), n)
  {
    hide InRange, TriangleIndices, Fringe, Triangulator.Clipped;
    var n := |p.points|;
    TrianglesInRange(ts, n, if antiAliased then 2 else 1);
    FringeInRange(n, n);
    BothInRange(TriangleIndices(ts, 2), Fringe(n, n), n * 2);
  }

  lemma PolylineInRange(st: Stroke, n: nat, count: nat)
    requires count <= n
    ensures InRange(StrokeIndices(st, n, count), VerticesOf(st, n, count))
  {
    VerticesAre(st, n, count);
    StrokeInRange(st, n, count, VerticesOf(st, n, count));
  }

  lemma QuadVertices(count: nat)
    ensures VerticesOf(Plain, count + 1, count) == 4 * count
  {}

  lemma BothInRange(a: seq<int>, b: seq<int>, n: int)
    ensures InRange(a, n) && InRange(b, n) ==> InRange(a + b, n)
  {}

  /** Drawing a shape is one operation: the primitive of its vertices in its order. */
  method Draw(list: DrawList, shape: Shape) returns (ghost op: Op)
    requires Playing(list) && Drawable(shape) && Reachable(list, |Corners(shape)|)
    modifies list
    ensures Playing(list)
    ensures if Blank(shape) then op == Nothing else op.Primitive? && op.vs == Corners(shape) && DrawnAs(shape, op.rel)
    ensures !Blank(shape) ==> Covered(shape, op.rel)
    ensures Allowed(old(PainterOf(list.Snapshot())), op)
    ensures Stepped(list.fullscreen, old(list.Snapshot()), op, list.Snapshot())
    ensures PainterOf(list.Snapshot()) == Paint(list.fullscreen, old(PainterOf(list.Snapshot())), op)
  {
    hide Tiled, Expand, Pictures, Named, Narrowed, InRange, FillIndices, StrokeIndices, TriangleIndices, Fringe,
      Interleaved;
    ghost var a := list.Snapshot();
    ghost var rel := AddShape(list, shape);
    if Blank(shape) {
      op := Nothing;
    } else {
      ShapeInRange(shape, rel);
      ShapeCovers(shape, rel);
      op := Primitive(Corners(shape), rel, |rel|, |Corners(shape)|);
    }
    StepPaints(list.fullscreen, a, op, list.Snapshot());
  }

  method AddShape(list: DrawList, shape: Shape) returns (ghost rel: seq<int>)
    requires list.Settled() && Drawable(shape)
    modifies list
    ensures list.allowVtxOffset == old(list.allowVtxOffset)
    ensures Blank(shape) ==> list.Settled() && list.Snapshot() == old(list.Snapshot())
    ensures !Blank(shape) ==> DrawnAs(shape, rel) && list.Drew(Corners(shape), rel)
  {
    hide Tiled, Expand, FillIndices, StrokeIndices, TriangleIndices, Fringe, Interleaved, VerticesOf, StrokeVertices,
      Triangulator.Triangulation;
    match shape {
      case Convex(inner, outer, aa, visible) =>
        list.AddConvexPolyFilled(inner, outer, aa, visible);
        rel := FillIndices(|inner|, aa);
      case Concave(points, inner, outer, aa, visible, clockwise, contains) =>
        ghost var ts := list.AddConcavePolyFilled(points, inner, outer, aa, visible, clockwise, contains);
        rel := if aa then TriangleIndices(ts, 2) + Fringe(|points|, |points|) else TriangleIndices(ts, 1);
        assert !Blank(shape) ==> Triangulator.Triangulation(Triangulator.Polygon(points, clockwise, contains), ts);
      case Polyline(vs, n, closed, visible, aa, tex, thick) =>
        VerticesAre(StrokeKind(aa, tex, thick), n, if closed || n == 0 then n else n - 1);
        list.AddPolyline(vs, n, closed, visible, aa, tex, thick);
        rel := StrokeIndices(StrokeKind(aa, tex, thick), n, if closed || n == 0 then n else n - 1);
      case Quads(vs, count, max) =>
        list.RenderQuads(vs, count, max);
        rel := QuadIndices(count);
    }
  }
}
