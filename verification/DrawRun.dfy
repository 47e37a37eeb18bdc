/** Runs of a draw list against an immediate painter that batches nothing and addresses vertices
    directly. */
module DrawRun {
  import opened DrawModel
  import opened DrawShapes

  predicate Proper(c: Clip) { c.x <= c.z && c.y <= c.w }

  function MinReal(a: real, b: real): real { if a < b then a else b }
  function MaxReal(a: real, b: real): real { if a > b then a else b }

  /** The rectangle pushed: cut down to the current one if asked for, and never inside out. */
  function ClipPushed(cr: Clip, current: Clip, intersect: bool): (r: Clip)
    ensures Proper(r)
    ensures intersect ==> r.x >= current.x && r.y >= current.y
    ensures intersect && r.x < r.z ==> r.z <= current.z
    ensures intersect && r.y < r.w ==> r.w <= current.w
    ensures !intersect && Proper(cr) ==> r == cr
  {
    var c := if intersect
      then Clip(MaxReal(cr.x, current.x), MaxReal(cr.y, current.y), MinReal(cr.z, current.z), MinReal(cr.w, current.w))
      else cr;
    Clip(c.x, c.y, MaxReal(c.x, c.z), MaxReal(c.y, c.w))
  }

  /** The points a rectangle lets through. */
  predicate Shows(c: Clip, x: real, y: real) { c.x <= x < c.z && c.y <= y < c.w }

  /** What the pushed rectangle lets through is what the given one does, and the current one too if that is
      asked for; and as long as that is anything, its edges are the inner ones of the two. */
  lemma PushedShows(cr: Clip, current: Clip, intersect: bool)
    ensures var r := ClipPushed(cr, current, intersect);
      forall x, y :: Shows(r, x, y) <==> Shows(cr, x, y) && (intersect ==> Shows(current, x, y))
    ensures var r := ClipPushed(cr, current, intersect);
      intersect && r.x < r.z ==> (r.x == cr.x || r.x == current.x) && (r.z == cr.z || r.z == current.z)
    ensures var r := ClipPushed(cr, current, intersect);
      intersect && r.y < r.w ==> (r.y == cr.y || r.y == current.y) && (r.w == cr.w || r.w == current.w)
  {}

  /** A list that never batches: the stream drawn so far and what decides the current header. */
  datatype Log = Log(events: seq<Event>, header: Header, clips: seq<Clip>, textures: seq<int>)

  const NO_TEXTURE := 0
  const NO_CLIP := Clip(0.0, 0.0, 0.0, 0.0)

  function WithClip(l: Log, clips: seq<Clip>, c: Clip): Log {
    l.(header := l.header.(clip := c), clips := clips)
  }

  function WithTexture(l: Log, textures: seq<int>, t: int): Log {
    l.(header := l.header.(texture := t), textures := textures)
  }

  // ---------------------------------------------------------------- the painter

  datatype Op =
    | PushClip(cr: Clip, intersect: bool)
    | PopClip
    | PushTexture(texture: int)
    | PopTexture
    | SetTexture(texture: int)
    | Merge
    | Call(callback: Callback)
    | Primitive(vs: seq<Vertex>, rel: seq<int>, idxCount: nat, vtxCount: nat)
    | Nothing

  // A primitive reserves room for `idxCount` indices and `vtxCount` vertices, writes the vertices `vs` and
  // the indices `rel` among them, and gives back what it has not used.  `Nothing` is a shape that has
  // too few points or cannot be seen.

  /** Draws every vertex at once, under the clip rectangle and the texture of the moment. */
  datatype Painter = Painter(canvas: seq<Picture>, clip: Clip, texture: int, clips: seq<Clip>, textures: seq<int>)

  predicate Allowed(p: Painter, op: Op) {
    match op
    case PopClip => p.clips != []
    case PopTexture => p.textures != []
    case Primitive(vs, rel, idxCount, vtxCount) => InRange(rel, |vs|) && |rel| <= idxCount && |vs| <= vtxCount
    case _ => true
  }

  function Paint(fullscreen: Clip, p: Painter, op: Op): Painter
    requires Allowed(p, op)
  {
    match op
    case PushClip(cr, intersect) =>
      var c := ClipPushed(cr, p.clip, intersect);
      p.(clip := c, clips := p.clips + [c])
    case PopClip =>
      var clips := Front(p.clips);
      p.(clip := if clips == [] then fullscreen else Last(clips), clips := clips)
    case PushTexture(t) => p.(texture := t, textures := p.textures + [t])
    case PopTexture =>
      var ts := Front(p.textures);
      p.(texture := if ts == [] then NO_TEXTURE else Last(ts), textures := ts)
    case SetTexture(t) => p.(texture := t)
    case Merge => p
    case Nothing => p
    case Call(callback) =>
      p.(canvas := p.canvas + if callback == NoCallback then [] else [Ran(p.clip, p.texture, callback)])
    case Primitive(vs, rel, _, _) => p.(canvas := p.canvas + Intended(p.clip, p.texture, vs, rel))
  }

  // ---------------------------------------------------------------- the draw list

  /** A draw list as its methods describe it: what has been logged, and the vertices. */
  datatype View = View(log: Log, vtx: seq<Vertex>)

  predicate Paintable(v: View) {
    Named(v.log.events, |v.vtx|) && 0 <= v.log.header.vtxOffset <= |v.vtx|
  }

  function PainterOf(v: View): Painter
    requires Paintable(v)
  {
    Painter(Pictures(v.log.events, v.vtx), v.log.header.clip, v.log.header.texture, v.log.clips, v.log.textures)
  }

  /** One operation, as the contract of its method states it.  A primitive of fewer than 2^16 vertices
      keeps within reach of its offset when offsets are allowed, and without them as long as the
      whole list has no more than 2^16 vertices. */
  ghost predicate Stepped(fullscreen: Clip, a: View, op: Op, b: View)
    requires Paintable(a) && Allowed(PainterOf(a), op)
  {
    match op
    case PushClip(cr, intersect) =>
      var c := ClipPushed(cr, a.log.header.clip, intersect);
      b == a.(log := WithClip(a.log, a.log.clips + [c], c))
    case PopClip =>
      var clips := Front(a.log.clips);
      b == a.(log := WithClip(a.log, clips, if clips == [] then fullscreen else Last(clips)))
    case PushTexture(t) => b == a.(log := WithTexture(a.log, a.log.textures + [t], t))
    case PopTexture =>
      var ts := Front(a.log.textures);
      b == a.(log := WithTexture(a.log, ts, if ts == [] then NO_TEXTURE else Last(ts)))
    case SetTexture(t) => b == a.(log := WithTexture(a.log, a.log.textures, t))
    case Merge => b == a
    case Nothing => b == a
    case Call(callback) =>
      b == a.(log := a.log.(events := a.log.events +
        if callback == NoCallback then [] else [Called(a.log.header, callback)]))
    case Primitive(vs, rel, _, _) =>
      && Added(a.log.events, a.vtx, b.log.header, vs, rel, b.log.events, b.vtx)
      && b.log.header == a.log.header.(vtxOffset := b.log.header.vtxOffset)
      && b.log.header.vtxOffset <= |a.vtx| && |b.vtx| - b.log.header.vtxOffset <= INDEX_LIMIT
      && b.log.clips == a.log.clips && b.log.textures == a.log.textures
  }

  /** Every operation on the list does to its pictures what the painter does to its canvas. */
  lemma StepPaints(fullscreen: Clip, a: View, op: Op, b: View)
    requires Paintable(a) && Allowed(PainterOf(a), op) && Stepped(fullscreen, a, op, b)
    ensures Paintable(b) && PainterOf(b) == Paint(fullscreen, PainterOf(a), op)
  {
    match op
    case Primitive(vs, rel, _, _) =>
      AddressingIsLossless(a.log.events, a.vtx, b.log.header, vs, rel, b.log.events, b.vtx);
    case Call(callback) =>
      CallPaints(a, callback, b);
    case _ =>
      assert b.log.events == a.log.events && b.vtx == a.vtx;
  }

  lemma CallPaints(a: View, callback: Callback, b: View)
    requires Paintable(a) && b == a.(log := a.log.(events := a.log.events +
        if callback == NoCallback then [] else [Called(a.log.header, callback)]))
    ensures Paintable(b)
    ensures Pictures(b.log.events, b.vtx) == Pictures(a.log.events, a.vtx) +
      if callback == NoCallback then [] else [Ran(a.log.header.clip, a.log.header.texture, callback)]
  {
    forall i | 0 <= i < |b.log.events| ensures NamesVertex(b.log.events[i], |b.vtx|) {
      if i < |a.log.events| { assert NamesVertex(a.log.events[i], |a.vtx|); }
    }
  }

  /** A run: every operation is allowed where it is made, and does what its contract says. */
  ghost predicate Run(fullscreen: Clip, views: seq<View>, ops: seq<Op>) {
    && |views| == |ops| + 1
    && forall i | 0 <= i < |ops| ::
      Paintable(views[i]) && Allowed(PainterOf(views[i]), ops[i]) && Stepped(fullscreen, views[i], ops[i], views[i + 1])
  }

  function PaintAll(fullscreen: Clip, p: Painter, ops: seq<Op>): (r: (bool, Painter))
    decreases |ops|
  {
    if ops == [] then (true, p)
    else if !Allowed(p, ops[0]) then (false, p)
    else PaintAll(fullscreen, Paint(fullscreen, p, ops[0]), ops[1..])
  }

  /** However the list batches its commands, merges them and moves its vertex offset: after any run
      the renderer shows exactly what the painter has painted, in the same order. */
  lemma {:induction false} RunPaints(fullscreen: Clip, views: seq<View>, ops: seq<Op>)
    requires Run(fullscreen, views, ops) && Paintable(views[0])
    ensures Paintable(views[|ops|])
    ensures PaintAll(fullscreen, PainterOf(views[0]), ops) == (true, PainterOf(views[|ops|]))
    decreases |ops|
  {
    hide Paint, Stepped, Paintable;
    if ops != [] {
      StepPaints(fullscreen, views[0], ops[0], views[1]);
      RunPaints(fullscreen, views[1..], ops[1..]);
    }
  }
}
