/** Addressing with 16-bit indices, and the index patterns of the filled and stroked shapes. */
module DrawShapes {
  import opened DrawModel
  import Ring

  const INDEX_LIMIT := 0x1_0000

  /** The cast to a 16-bit index. */
  function Narrow(i: int): int { i % INDEX_LIMIT }

  function Narrowed(base: int, rel: seq<int>): (r: seq<int>)
    ensures |r| == |rel|
  {
    seq(|rel|, k requires 0 <= k < |rel| => Narrow(base + rel[k]))
  }

  lemma NarrowedConcat(base: int, a: seq<int>, b: seq<int>)
    ensures Narrowed(base, a + b) == Narrowed(base, a) + Narrowed(base, b)
  {}

  datatype Vertex = Vertex(x: real, y: real, u: real, v: real, col: int)

  /** What the renderer makes of an event. */
  datatype Picture = Seen(clip: Clip, texture: int, vertex: Vertex) | Ran(clip: Clip, texture: int, callback: Callback)

  predicate NamesVertex(e: Event, n: int) {
    e.Drawn? ==> 0 <= e.header.vtxOffset + e.index < n
  }

  predicate Named(es: seq<Event>, n: int) {
    forall i | 0 <= i < |es| :: NamesVertex(es[i], n)
  }

  function PictureOf(e: Event, vtx: seq<Vertex>): Picture
    requires NamesVertex(e, |vtx|)
  {
    match e
    case Drawn(h, index) => Seen(h.clip, h.texture, vtx[h.vtxOffset + index])
    case Called(h, callback) => Ran(h.clip, h.texture, callback)
  }

  function Pictures(es: seq<Event>, vtx: seq<Vertex>): (ps: seq<Picture>)
    requires Named(es, |vtx|)
    ensures |ps| == |es|
  {
    seq(|es|, i requires 0 <= i < |es| => PictureOf(es[i], vtx))
  }

  /** The pictures the caller of a primitive has in mind: the vertices `vs` in the order `rel`. */
  function Intended(clip: Clip, texture: int, vs: seq<Vertex>, rel: seq<int>): seq<Picture>
    requires InRange(rel, |vs|)
  {
    seq(|rel|, k requires 0 <= k < |rel| => Seen(clip, texture, vs[rel[k]]))
  }

  predicate InRange(rel: seq<int>, n: int) {
    forall k | 0 <= k < |rel| :: 0 <= rel[k] < n
  }

  /** A primitive of the vertices `vs`, drawn in the order `rel`: its indices count from where the
      vertices were in the buffer, less the offset of the header, and are then narrowed. */
  predicate Added(es: seq<Event>, vtx: seq<Vertex>, h: Header, vs: seq<Vertex>, rel: seq<int>, es': seq<Event>,
      vtx': seq<Vertex>) {
    && h.vtxOffset >= 0 && vtx' == vtx + vs
    && es' == es + Draws(h, Narrowed(|vtx| - h.vtxOffset, rel))
  }

  /** An open reservation: the stream and the buffers before it, where its vertices start, counted
      from the offset of the header, and how much has been reserved. */
  datatype Reservation = Reservation(
    es: seq<Event>, idx: seq<int>, vtx: seq<Vertex>, base: int, idxCount: nat, vtxCount: nat)

  /** A narrowed index names the vertex meant exactly when it did not need narrowing. */
  lemma NarrowIsExact(n: int, offset: int, r: int)
    requires 0 <= offset <= n && r >= 0
    ensures offset + Narrow(n - offset + r) == n + r <==> n - offset + r < 0x1_0000
    ensures 0 <= offset + Narrow(n - offset + r) <= n + r
  {}

  /** Between the vertex buffer and the 16-bit indices nothing is lost, as long as the primitive
      ends within reach of the offset of its header. */
  lemma AddressingIsLossless(es: seq<Event>, vtx: seq<Vertex>, h: Header, vs: seq<Vertex>, rel: seq<int>,
      es': seq<Event>, vtx': seq<Vertex>)
    requires Added(es, vtx, h, vs, rel, es', vtx') && Named(es, |vtx|) && InRange(rel, |vs|) && h.vtxOffset <= |vtx|
    ensures Named(es', |vtx'|)
    ensures |vtx'| - h.vtxOffset <= INDEX_LIMIT ==>
      Pictures(es', vtx') == Pictures(es, vtx) + Intended(h.clip, h.texture, vs, rel)
  {
    forall i | 0 <= i < |es'| ensures NamesVertex(es'[i], |vtx'|) {
      if i >= |es| { NarrowIsExact(|vtx|, h.vtxOffset, rel[i - |es|]); }
      else { assert es'[i] == es[i] && NamesVertex(es[i], |vtx|); }
    }
    if |vtx'| - h.vtxOffset <= INDEX_LIMIT {
      forall i | 0 <= i < |es'|
        ensures PictureOf(es'[i], vtx') == (Pictures(es, vtx) + Intended(h.clip, h.texture, vs, rel))[i]
      {
        if i >= |es| {
          NarrowIsExact(|vtx|, h.vtxOffset, rel[i - |es|]);
        } else {
          assert es'[i] == es[i] && NamesVertex(es[i], |vtx|);
        }
      }
    }
  }

  // ---------------------------------------------------------------- fills

  /** The triangle fan over `n` points, `stride` vertices apart. */
  function Fan(n: nat, stride: nat): (rel: seq<int>)
    ensures |rel| == if n < 3 then 0 else (n - 2) * 3
  {
    if n < 3 then [] else Fan(n - 1, stride) + [0, (n - 2) * stride, (n - 1) * stride]
  }

  lemma {:induction false} FanInRange(n: nat, stride: nat)
    requires n > 0 && stride > 0
    ensures InRange(Fan(n, stride), n * stride)
  {
    if n >= 3 {
      FanInRange(n - 1, stride);
      assert (n - 1) * stride == n * stride - stride && 0 <= (n - 2) * stride == (n - 1) * stride - stride;
    }
  }

  /** The fringe along the first `k` edges of `n` points with an inner and an outer vertex each;
      edge `i` leads from the point before `i` to `i`. */
  function Fringe(n: nat, k: nat): (rel: seq<int>)
    ensures |rel| == 6 * k
  {
    if k == 0 then []
    else
      var i1 := k - 1;
      var i0 := if i1 == 0 then n - 1 else i1 - 1;
      Fringe(n, k - 1) + [2 * i1, 2 * i0, 2 * i0 + 1, 2 * i0 + 1, 2 * i1 + 1, 2 * i1]
  }

  lemma {:induction false} FringeInRange(n: nat, k: nat)
    requires k <= n
    ensures InRange(Fringe(n, k), 2 * n)
  {
    if k > 0 { FringeInRange(n, k - 1); }
  }

  function FillIndices(n: nat, antiAliased: bool): seq<int> {
    if antiAliased then Fan(n, 2) + Fringe(n, n) else Fan(n, 1)
  }

  lemma FillInRange(n: nat, antiAliased: bool)
    requires n > 0
    ensures InRange(FillIndices(n, antiAliased), if antiAliased then 2 * n else n)
  {
    FanInRange(n, if antiAliased then 2 else 1);
    FringeInRange(n, n);
  }

  function Interleaved(a: seq<Vertex>, b: seq<Vertex>): (r: seq<Vertex>)
    requires |a| == |b|
    ensures |r| == 2 * |a|
  {
    seq(2 * |a|, i requires 0 <= i < 2 * |a| => if i % 2 == 0 then a[i / 2] else b[i / 2])
  }

  lemma InterleavedAt(a: seq<Vertex>, b: seq<Vertex>, i: nat)
    requires i < |a| == |b|
    ensures Interleaved(a, b)[2 * i] == a[i] && Interleaved(a, b)[2 * i + 1] == b[i]
  {}

  lemma InterleavedSnoc(a: seq<Vertex>, b: seq<Vertex>, i: nat)
    requires i < |a| == |b|
    ensures Interleaved(a[..i + 1], b[..i + 1]) == Interleaved(a[..i], b[..i]) + [a[i], b[i]]
  {}

  // ---------------------------------------------------------------- strokes

  /** The four ways a line is drawn. */
  datatype Stroke = Textured | Thin | Thick | Plain

  /** Vertices per point. */
  function Stride(st: Stroke): nat {
    match st case Textured => 2 case Thin => 3 case Thick => 4 case Plain => 4
  }

  /** The vertices of a line through `n` points with `count` segments. */
  function StrokeVertices(st: Stroke, n: nat, count: nat): nat {
    if st == Plain then 4 * count else Stride(st) * n
  }

  function StrokeKind(antiAliased: bool, useTexture: bool, thick: bool): Stroke {
    if !antiAliased then Plain else if useTexture then Textured else if thick then Thick else Thin
  }

  /** The indices of one segment between the vertices from `a` and those from `b`. */
  function SegmentIndices(st: Stroke, a: int, b: int): (rel: seq<int>)
    ensures |rel| == match st case Textured => 6 case Thin => 12 case Thick => 18 case Plain => 6
  {
    match st
    case Textured => [b + 0, a + 0, a + 1, b + 1, a + 1, b + 0]
    case Thin => [b + 0, a + 0, a + 2, a + 2, b + 2, b + 0, b + 1, a + 1, a + 0, a + 0, b + 0, b + 1]
    case Thick => [b + 1, a + 1, a + 2, a + 2, b + 2, b + 1, b + 1, a + 1, a + 0, a + 0, b + 0, b + 1,
                   b + 2, a + 2, a + 3, a + 3, b + 3, b + 2]
    case Plain => [a, a + 1, a + 2, a, a + 2, a + 3]
  }

  /** The first `k` segments of a line through `n` points; the one after the last point leads back
      to the first. */
  function StrokeIndices(st: Stroke, n: nat, k: nat): (rel: seq<int>)
    ensures |rel| == k * |SegmentIndices(st, 0, 0)|
  {
    if k == 0 then []
    else
      var i1 := k - 1;
      var i2 := if i1 + 1 == n then 0 else i1 + 1;
      StrokeIndices(st, n, k - 1) + SegmentIndices(st, Stride(st) * i1, Stride(st) * i2)
  }

  /** Quads with four vertices each. */
  function QuadIndices(count: nat): (rel: seq<int>)
    ensures |rel| == 6 * count
  {
    StrokeIndices(Plain, count + 1, count)
  }

  lemma SegmentInRange(st: Stroke, a: int, b: int, n: int)
    requires 0 <= a && a + Stride(st) <= n && (st != Plain ==> 0 <= b && b + Stride(st) <= n)
    ensures InRange(SegmentIndices(st, a, b), n)
  {}

  /** All indices are of vertices of the shape: `n` points' worth, or four for each plain segment. */
  lemma {:induction false} StrokeInRange(st: Stroke, n: nat, k: nat, vertices: nat)
    requires k <= n && vertices >= StrokeVertices(st, n, k)
    ensures InRange(StrokeIndices(st, n, k), vertices)
  {
    hide SegmentIndices;
    if k > 0 {
      StrokeInRange(st, n, k - 1, vertices);
      var i1 := k - 1;
      var i2 := if i1 + 1 == n then 0 else i1 + 1;
      assert Stride(st) * i1 + Stride(st) == Stride(st) * k;
      assert st != Plain ==> Stride(st) * k <= Stride(st) * n && Stride(st) * (i2 + 1) <= Stride(st) * n;
      SegmentInRange(st, Stride(st) * i1, Stride(st) * i2, vertices);
    }
  }

  /** Relative indices moved to where the primitive starts, and narrowed. */
  lemma SegmentMoved(st: Stroke, base: int, a: int, b: int)
    ensures Narrowed(0, SegmentIndices(st, base + a, base + b)) == Narrowed(base, SegmentIndices(st, a, b))
  {}

  // ---------------------------------------------------------------- what the triangles cover

  /** Four vertices, in the order round. */
  datatype Quad = Quad(p: int, q: int, r: int, s: int)

  function Turned(c: Quad): Quad { Quad(c.q, c.r, c.s, c.p) }

  /** Two triangles that have the diagonal from `p` to `r` in common, one on each side of it. */
  predicate Halves(six: seq<int>, c: Quad) {
    && |six| == 6
    && {six[0], six[1], six[2]} == {c.p, c.q, c.r} && {six[3], six[4], six[5]} == {c.r, c.s, c.p}
  }

  /** Two triangles that make up a quad, cut along either diagonal. */
  predicate Split(six: seq<int>, c: Quad) { Halves(six, c) || Halves(six, Turned(c)) }

  /** Part `m` of the indices, in parts of `size`. */
  function Part(rel: seq<int>, m: nat, size: nat): (r: seq<int>)
    requires m * size + size <= |rel|
    ensures |r| == size
  {
    rel[m * size..m * size + size]
  }

  /** The vertices across a line at one of its points, from one side to the other. */
  function Across(st: Stroke): seq<nat> {
    match st case Textured => [0, 1] case Thin => [1, 0, 2] case Thick => [0, 1, 2, 3] case Plain => [0, 1]
  }

  /** Strip `i` of the segment from the vertices at `a` to those at `b`: what lies between two neighbours
      across the line.  A plain segment has four vertices of its own. */
  function StripOf(st: Stroke, a: int, b: int, i: nat): Quad
    requires i + 1 < |Across(st)|
  {
    var x := Across(st);
    if st == Plain then Quad(a, a + 1, a + 2, a + 3) else Quad(b + x[i], a + x[i], a + x[i + 1], b + x[i + 1])
  }

  /** Every strip of a segment is made up by two of the triangles, and there are no more triangles. */
  predicate SegmentCovered(st: Stroke, a: int, b: int, rel: seq<int>) {
    var strips := |Across(st)| - 1;
    && |rel| == 6 * strips
    && forall i: nat | i < strips :: StripCovered(rel, StripOf(st, a, b, i), strips)
  }

  predicate StripCovered(rel: seq<int>, c: Quad, strips: nat)
    requires |rel| == 6 * strips
  {
    exists m: nat | m < strips :: Split(Part(rel, m, 6), c)
  }

  lemma SegmentCovers(st: Stroke, a: int, b: int)
    ensures SegmentCovered(st, a, b, SegmentIndices(st, a, b))
  {
    var rel, strips := SegmentIndices(st, a, b), |Across(st)| - 1;
    forall i: nat | i < strips ensures StripCovered(rel, StripOf(st, a, b, i), strips) {
      StripCovers(st, a, b, i);
    }
  }

  lemma StripCovers(st: Stroke, a: int, b: int, i: nat)
    requires i + 1 < |Across(st)|
    ensures |SegmentIndices(st, a, b)| == 6 * (|Across(st)| - 1)
    ensures StripCovered(SegmentIndices(st, a, b), StripOf(st, a, b, i), |Across(st)| - 1)
  {
    var rel := SegmentIndices(st, a, b);
    var m := if st == Plain || st == Textured || i == 2 then i else 1 - i;
    assert 0 <= m < |Across(st)| - 1;
    var six := Part(rel, m, 6);
    assert forall k | 0 <= k < 6 :: six[k] == rel[6 * m + k];
    assert Split(six, StripOf(st, a, b, i));
  }

  /** The triangles of a line: segment by segment, each from a point to the next one, the last point of a
      closed line being followed by the first. */
  predicate StrokeCovered(st: Stroke, n: nat, k: nat, rel: seq<int>) {
    var size := 6 * (|Across(st)| - 1);
    && |rel| == k * size
    && forall i: nat | i < k :: SegmentAt(st, n, i, rel, size)
  }

  predicate SegmentAt(st: Stroke, n: nat, i: nat, rel: seq<int>, size: nat) {
    && i * size + size <= |rel|
    && var across := if st == Plain then 4 else |Across(st)|;
       SegmentCovered(st, across * i, across * (if i + 1 == n then 0 else i + 1), Part(rel, i, size))
  }

  lemma {:induction false} StrokeCovers(st: Stroke, n: nat, k: nat)
    ensures StrokeCovered(st, n, k, StrokeIndices(st, n, k))
  {
    hide SegmentIndices, SegmentCovered;
    var size := 6 * (|Across(st)| - 1);
    if k > 0 {
      StrokeCovers(st, n, k - 1);
      var rel, i2 := StrokeIndices(st, n, k), if k == n then 0 else k;
      var front, last := StrokeIndices(st, n, k - 1), SegmentIndices(st, Stride(st) * (k - 1), Stride(st) * i2);
      OneMore(k - 1, size);
      SegmentCovers(st, Stride(st) * (k - 1), Stride(st) * i2);
      SegmentSize(st, Stride(st) * (k - 1), Stride(st) * i2);
      assert rel == front + last;
      forall i: nat | i < k ensures SegmentAt(st, n, i, rel, size) {
        if i < k - 1 {
          PartOfFront(front, last, i, k - 1, size);
          assert SegmentAt(st, n, i, front, size);
        } else {
          assert Part(rel, k - 1, size) == last;
        }
      }
    }
  }

  lemma OneMore(k: nat, size: nat)
    ensures (k + 1) * size == k * size + size
  {}

  lemma SegmentSize(st: Stroke, a: int, b: int)
    ensures |SegmentIndices(st, a, b)| == 6 * (|Across(st)| - 1)
  {}

  lemma PartOfFront(front: seq<int>, last: seq<int>, i: nat, k: nat, size: nat)
    requires i < k && |front| == k * size
    ensures i * size + size <= |front| && Part(front + last, i, size) == Part(front, i, size)
  {
    RoomFor(i, k, size);
  }

  lemma RoomFor(i: nat, k: nat, size: nat)
    requires i < k
    ensures i * size + size <= k * size
  {
    OneMore(i, size);
    Steady(i + 1, k, size);
  }

  lemma {:induction false} Steady(i: nat, k: nat, size: nat)
    requires i <= k
    ensures i * size <= k * size
    decreases k - i
  {
    if i < k {
      OneMore(i, size);
      Steady(i + 1, k, size);
    }
  }

  /** Edge `i` of the fringe lies between two neighbouring inner vertices and the outer ones beside them. */
  function FringeQuad(n: nat, i: nat): Quad {
    var before := if i == 0 then n - 1 else i - 1;
    Quad(2 * i, 2 * before, 2 * before + 1, 2 * i + 1)
  }

  predicate FringeCovered(n: nat, k: nat, rel: seq<int>) {
    |rel| == 6 * k && forall i: nat | i < k :: Split(Part(rel, i, 6), FringeQuad(n, i))
  }

  lemma FringeEdge(n: nat, k: nat) returns (last: seq<int>)
    requires k > 0
    ensures Fringe(n, k) == Fringe(n, k - 1) + last && Split(last, FringeQuad(n, k - 1))
  {
    var i1 := k - 1;
    var i0 := if i1 == 0 then n - 1 else i1 - 1;
    last := [2 * i1, 2 * i0, 2 * i0 + 1, 2 * i0 + 1, 2 * i1 + 1, 2 * i1];
  }

  lemma {:induction false} FringeCovers(n: nat, k: nat)
    ensures FringeCovered(n, k, Fringe(n, k))
  {
    if k > 0 {
      FringeCovers(n, k - 1);
      var rel, front := Fringe(n, k), Fringe(n, k - 1);
      var last := FringeEdge(n, k);
      forall i: nat | i < k ensures Split(Part(rel, i, 6), FringeQuad(n, i)) {
        hide Split;
        if i < k - 1 {
          PartOfFront(front, last, i, k - 1, 6);
          assert Split(Part(front, i, 6), FringeQuad(n, i));
        } else {
          assert Part(rel, k - 1, 6) == last;
        }
      }
    }
  }

  /** Triangle `i` of a fan joins the first point to two neighbouring ones. */
  predicate FanCovered(n: nat, stride: nat, rel: seq<int>) {
    && n >= 3 && |rel| == 3 * (n - 2)
    && forall i: nat | i < n - 2 :: Part(rel, i, 3) == [0, (i + 1) * stride, (i + 2) * stride]
  }

  lemma {:induction false} FanCovers(n: nat, stride: nat)
    requires n >= 3
    ensures FanCovered(n, stride, Fan(n, stride))
  {
    if n > 3 {
      FanCovers(n - 1, stride);
      var rel, front := Fan(n, stride), Fan(n - 1, stride);
      assert rel == front + rel[3 * (n - 3)..];
      forall i: nat | i < n - 2 ensures Part(rel, i, 3) == [0, (i + 1) * stride, (i + 2) * stride] {
        if i < n - 3 {
          PartOfFront(front, rel[3 * (n - 3)..], i, n - 3, 3);
          assert Part(front, i, 3) == [0, (i + 1) * stride, (i + 2) * stride];
        }
      }
    }
  }

  predicate FillCovered(n: nat, antiAliased: bool, rel: seq<int>) {
    && n >= 3 && |rel| >= 3 * (n - 2)
    && FanCovered(n, if antiAliased then 2 else 1, rel[..3 * (n - 2)])
    && FringeCovered(n, if antiAliased then n else 0, rel[3 * (n - 2)..])
  }

  lemma FillCovers(n: nat, antiAliased: bool)
    requires n >= 3
    ensures FillCovered(n, antiAliased, FillIndices(n, antiAliased))
  {
    hide FanCovered, FringeCovered;
    FanCovers(n, 2);
    FanCovers(n, 1);
    FringeCovers(n, n);
    FringeCovers(n, 0);
    var rel := FillIndices(n, antiAliased);
    assert rel[..3 * (n - 2)] == Fan(n, if antiAliased then 2 else 1);
    assert rel[3 * (n - 2)..] == if antiAliased then Fringe(n, n) else Fringe(n, 0);
  }

  // ---------------------------------------------------------------- areas

  predicate InPos(pos: seq<Ring.Point>, c: Quad) {
    0 <= c.p < |pos| && 0 <= c.q < |pos| && 0 <= c.r < |pos| && 0 <= c.s < |pos|
  }

  /** Three corners in another order: the same area, up to the way round. */
  lemma SameCorners(pos: seq<Ring.Point>, i: int, j: int, k: int, p: int, q: int, r: int) returns (w: real)
    requires {i, j, k} == {p, q, r} && p != q && q != r && r != p
    requires 0 <= p < |pos| && 0 <= q < |pos| && 0 <= r < |pos|
    ensures 0 <= i < |pos| && 0 <= j < |pos| && 0 <= k < |pos| && (w == 1.0 || w == -1.0)
    ensures Ring.TriArea(pos[p], pos[q], pos[r]) == w * Ring.TriArea(pos[i], pos[j], pos[k])
  {
    hide Ring.TriArea;
    assert i in {p, q, r} && j in {p, q, r} && k in {p, q, r};
    assert p in {i, j, k} && q in {i, j, k} && r in {i, j, k};
    AnyOrder(pos[p], pos[q], pos[r]);
    w := if (i, j, k) == (p, q, r) || (i, j, k) == (q, r, p) || (i, j, k) == (r, p, q) then 1.0 else -1.0;
  }

  lemma AnyOrder(a: Ring.Point, b: Ring.Point, c: Ring.Point)
    ensures Ring.TriArea(a, b, c) == Ring.TriArea(b, c, a) == Ring.TriArea(c, a, b)
    ensures Ring.TriArea(a, b, c) == -Ring.TriArea(b, a, c) == -Ring.TriArea(a, c, b) == -Ring.TriArea(c, b, a)
  {
    hide Ring.TriArea, Ring.Cross;
    Ring.TriAreaIs(a, b, c);
    Ring.TriAreaIs(b, c, a);
    Ring.TriAreaIs(c, a, b);
    Ring.TriAreaIs(b, a, c);
    Ring.TriAreaIs(a, c, b);
    Ring.TriAreaIs(c, b, a);
    Ring.CrossTurns(a, b);
    Ring.CrossTurns(b, c);
    Ring.CrossTurns(a, c);
  }

  /** Wherever the vertices are: the areas of the two triangles add up to that of the quad, each counted in
      the way round it is drawn. */
  lemma SplitArea(pos: seq<Ring.Point>, six: seq<int>, c: Quad) returns (v: real, w: real)
    requires Split(six, c) && InPos(pos, c)
    requires c.p != c.q && c.q != c.r && c.r != c.s && c.s != c.p && c.p != c.r && c.q != c.s
    ensures InRange(six, |pos|) && |six| == 6 && (v == 1.0 || v == -1.0) && (w == 1.0 || w == -1.0)
    ensures Ring.RingArea(pos, [c.p, c.q, c.r, c.s]) ==
      v * Ring.TriArea(pos[six[0]], pos[six[1]], pos[six[2]]) + w * Ring.TriArea(pos[six[3]], pos[six[4]], pos[six[5]])
  {
    hide Ring.TriArea, Ring.RingArea;
    var d := if Halves(six, c) then c else Turned(c);
    v := SameCorners(pos, six[0], six[1], six[2], d.p, d.q, d.r);
    w := SameCorners(pos, six[3], six[4], six[5], d.r, d.s, d.p);
    QuadArea(pos, c);
    OtherDiagonal(pos[c.p], pos[c.q], pos[c.r], pos[c.s]);
  }

  lemma OtherDiagonal(p: Ring.Point, q: Ring.Point, r: Ring.Point, s: Ring.Point)
    ensures Ring.TriArea(p, q, r) + Ring.TriArea(r, s, p) == Ring.TriArea(q, r, s) + Ring.TriArea(s, p, q)
  {
    hide Ring.TriArea, Ring.Cross;
    Ring.TriAreaIs(p, q, r);
    Ring.TriAreaIs(r, s, p);
    Ring.TriAreaIs(q, r, s);
    Ring.TriAreaIs(s, p, q);
    Ring.CrossTurns(p, r);
    Ring.CrossTurns(q, s);
  }

  lemma QuadArea(pos: seq<Ring.Point>, c: Quad)
    requires InPos(pos, c)
    ensures Ring.RingArea(pos, [c.p, c.q, c.r, c.s]) ==
      Ring.TriArea(pos[c.p], pos[c.q], pos[c.r]) + Ring.TriArea(pos[c.r], pos[c.s], pos[c.p])
  {
    hide Ring.TriArea, Ring.RingArea;
    var four, three := [c.p, c.q, c.r, c.s], [c.p, c.r, c.s];
    assert Ring.Without(four, 1) == three && Ring.Without(three, 1) == [c.p, c.s];
    Ring.CornerArea(pos, four, 1);
    Ring.CornerArea(pos, three, 1);
    Ring.TwoCornersNoArea(pos, [c.p, c.s]);
    AnyOrder(pos[c.p], pos[c.r], pos[c.s]);
  }

  lemma Scaled(i: int, n: nat, stride: nat)
    requires 0 <= i < n && stride > 0
    ensures 0 <= i * stride < n * stride
  {
    assert (n - i) * stride == n * stride - i * stride && (n - i) * stride > 0;
  }

  /** Every `stride`-th vertex. */
  function Every(n: nat, stride: nat): (r: seq<int>)
    ensures |r| == n
  {
    seq(n, i requires 0 <= i < n => i * stride)
  }

  lemma EveryInRange(n: nat, stride: nat, vertices: nat)
    requires n * stride <= vertices && stride > 0
    ensures Ring.Indices(Every(n, stride), vertices)
  {
    forall i: nat | i < n ensures 0 <= i * stride < vertices { Scaled(i, n, stride); }
  }

  function TrianglesArea(pos: seq<Ring.Point>, rel: seq<int>, k: nat): real
    requires InRange(rel, |pos|) && 3 * k <= |rel|
  {
    if k == 0 then 0.0
    else
      TrianglesArea(pos, rel, k - 1)
        + Ring.TriArea(pos[rel[3 * k - 3]], pos[rel[3 * k - 2]], pos[rel[3 * k - 1]])
  }

  /** Wherever the points are: the triangles of a fan add up to the area of the polygon. */
  lemma FanArea(pos: seq<Ring.Point>, n: nat, stride: nat, rel: seq<int>)
    requires FanCovered(n, stride, rel) && stride > 0 && n * stride <= |pos| && InRange(rel, |pos|)
    ensures Ring.Indices(Every(n, stride), |pos|)
    ensures TrianglesArea(pos, rel, n - 2) == Ring.RingArea(pos, Every(n, stride))
  {
    EveryInRange(n, stride, |pos|);
    FanAreaUpTo(pos, n, stride, rel, n - 2);
  }

  lemma {:induction false} FanAreaUpTo(pos: seq<Ring.Point>, n: nat, stride: nat, rel: seq<int>, k: nat)
    requires FanCovered(n, stride, rel) && stride > 0 && k <= n - 2 && InRange(rel, |pos|)
    requires Ring.Indices(Every(n, stride), |pos|)
    ensures Ring.Indices(Every(k + 2, stride), |pos|)
    ensures TrianglesArea(pos, rel, k) == Ring.RingArea(pos, Every(k + 2, stride))
    decreases k
  {
    hide Ring.TriArea, Ring.RingArea;
    var ring := Every(k + 2, stride);
    assert forall i | 0 <= i < k + 2 :: ring[i] == Every(n, stride)[i];
    if k == 0 {
      Ring.TwoCornersNoArea(pos, ring);
    } else {
      FanAreaUpTo(pos, n, stride, rel, k - 1);
      assert Ring.Without(ring, k + 1) == Every(k + 1, stride);
      Ring.CornerArea(pos, ring, k + 1);
      assert Part(rel, k - 1, 3) == [0, k * stride, (k + 1) * stride];
      assert rel[3 * k - 3] == Part(rel, k - 1, 3)[0] && rel[3 * k - 2] == Part(rel, k - 1, 3)[1];
      assert rel[3 * k - 1] == Part(rel, k - 1, 3)[2];
      AnyOrder(pos[0], pos[k * stride], pos[(k + 1) * stride]);
    }
  }
}
