/** Whole runs on a split list: channels drawn in any interleaving come out one after the other. */
module DrawChannels {
  import opened DrawModel
  import opened DrawShapes
  import opened DrawRun
  import opened DrawList
  import opened DrawPlay
  import opened DrawSplitter

  datatype ChannelOp = Switch(idx: nat) | On(op: Op)

  /** A painter with one sheet for each channel.  Clip rectangles and textures are shared. */
  datatype Easel = Easel(sheets: seq<seq<Picture>>, current: nat, painter: Painter)
  {
    predicate Valid() { current < |sheets| && painter.canvas == sheets[current] }
  }

  /** The first sheet goes on where the painter is, the others are blank. */
  function Laid(p: Painter, n: nat): (e: Easel)
    requires n >= 1
    ensures e.Valid()
  {
    Easel([p.canvas] + seq(n - 1, _ => []), 0, p)
  }

  predicate AllowedOn(e: Easel, op: ChannelOp)
    requires e.Valid()
  {
    match op
    case Switch(idx) => idx < |e.sheets|
    case On(o) => Allowed(e.painter, o)
  }

  function PaintOn(fullscreen: Clip, e: Easel, op: ChannelOp): (r: Easel)
    requires e.Valid() && AllowedOn(e, op)
    ensures r.Valid() && |r.sheets| == |e.sheets|
  {
    match op
    case Switch(idx) => e.(current := idx, painter := e.painter.(canvas := e.sheets[idx]))
    case On(o) =>
      var p := Paint(fullscreen, e.painter, o);
      e.(sheets := e.sheets[e.current := p.canvas], painter := p)
  }

  /** The sheets after a run of operations, if all of them are allowed. */
  function PaintAllOn(fullscreen: Clip, e: Easel, ops: seq<ChannelOp>): (r: (bool, Easel))
    requires e.Valid()
    ensures r.1.Valid()
    decreases |ops|
  {
    if ops == [] then (true, e)
    else if !AllowedOn(e, ops[0]) then (false, e)
    else PaintAllOn(fullscreen, PaintOn(fullscreen, e, ops[0]), ops[1..])
  }

  lemma {:induction false} PaintOneMoreOn(fullscreen: Clip, e: Easel, ops: seq<ChannelOp>, m: Easel, op: ChannelOp)
    requires e.Valid() && PaintAllOn(fullscreen, e, ops) == (true, m) && AllowedOn(m, op)
    ensures PaintAllOn(fullscreen, e, ops + [op]) == (true, PaintOn(fullscreen, m, op))
    decreases |ops|
  {
    hide PaintOn, AllowedOn;
    if ops == [] {
      assert (ops + [op])[1..] == [];
    } else {
      assert (ops + [op])[1..] == ops[1..] + [op];
      PaintOneMoreOn(fullscreen, PaintOn(fullscreen, e, ops[0]), ops[1..], m, op);
    }
  }

  // ---------------------------------------------------------------- pictures of streams

  /** Vertices added at the end change no picture. */
  lemma PicturesStay(es: seq<Event>, vtx: seq<Vertex>, vtx': seq<Vertex>)
    requires Named(es, |vtx|) && vtx <= vtx'
    ensures Named(es, |vtx'|) && Pictures(es, vtx') == Pictures(es, vtx)
  {
    forall i | 0 <= i < |es| ensures NamesVertex(es[i], |vtx'|) && PictureOf(es[i], vtx') == PictureOf(es[i], vtx) {
      assert NamesVertex(es[i], |vtx|);
    }
  }

  ghost predicate Shown(ss: seq<seq<Event>>, vtx: seq<Vertex>, sheets: seq<seq<Picture>>) {
    |ss| == |sheets| && forall i | 0 <= i < |ss| :: Named(ss[i], |vtx|) && Pictures(ss[i], vtx) == sheets[i]
  }

  lemma {:induction false} FlattenShown(ss: seq<seq<Event>>, vtx: seq<Vertex>, sheets: seq<seq<Picture>>)
    requires Shown(ss, vtx, sheets)
    ensures Named(Flatten(ss), |vtx|) && Pictures(Flatten(ss), vtx) == Flatten(sheets)
    decreases |ss|
  {
    if ss != [] {
      FlattenShown(Front(ss), vtx, Front(sheets));
      PicturesConcat(Flatten(Front(ss)), Last(ss), vtx);
    }
  }

  lemma PicturesConcat(a: seq<Event>, b: seq<Event>, vtx: seq<Vertex>)
    requires Named(a, |vtx|) && Named(b, |vtx|)
    ensures Named(a + b, |vtx|) && Pictures(a + b, vtx) == Pictures(a, vtx) + Pictures(b, vtx)
  {
    forall i | 0 <= i < |a + b| ensures NamesVertex((a + b)[i], |vtx|) {
      if i < |a| { assert NamesVertex(a[i], |vtx|); } else { assert NamesVertex(b[i - |a|], |vtx|); }
    }
  }

  lemma StepAddsVertices(fullscreen: Clip, a: View, op: Op, b: View)
    requires Paintable(a) && Allowed(PainterOf(a), op) && Stepped(fullscreen, a, op, b)
    ensures a.vtx <= b.vtx
  {}

  // ---------------------------------------------------------------- the list and its splitter

  /** Every channel shows its sheet. */
  ghost predicate OnEasel(list: DrawList, splitter: Splitter, e: Easel)
    reads list, splitter
  {
    && Playing(list) && splitter.Valid(list) && splitter.count >= 1 && e.Valid() && e.current == splitter.current
    && Shown(splitter.Streams(list), list.vtxBuffer, e.sheets)
    && PainterOf(list.Snapshot()) == e.painter
  }

  predicate CanDoOn(list: DrawList, splitter: Splitter, op: ChannelOp)
    reads list, splitter
  {
    match op
    case Switch(idx) => idx < splitter.count
    case On(o) => CanDo(list, o)
  }

  method DoOn(list: DrawList, splitter: Splitter, op: ChannelOp, ghost e: Easel)
    requires OnEasel(list, splitter, e) && CanDoOn(list, splitter, op)
    modifies list, splitter
    ensures splitter.count == old(splitter.count)
    ensures AllowedOn(e, op) && OnEasel(list, splitter, PaintOn(list.fullscreen, e, op))
  {
    match op
    case Switch(idx) => SwitchTo(list, splitter, idx, e);
    case On(o) => DrawOn(list, splitter, o, e);
  }

  method SwitchTo(list: DrawList, splitter: Splitter, idx: nat, ghost e: Easel)
    requires OnEasel(list, splitter, e) && idx < splitter.count
    modifies list, splitter
    ensures splitter.count == old(splitter.count)
    ensures OnEasel(list, splitter, e.(current := idx, painter := e.painter.(canvas := e.sheets[idx])))
  {
    hide Tiled, Expand, Pictures, Named;
    splitter.SetCurrentChannel(list, idx);
    assert splitter.Streams(list)[idx] == list.Events();
  }

  method DrawOn(list: DrawList, splitter: Splitter, op: Op, ghost e: Easel)
    requires OnEasel(list, splitter, e) && CanDo(list, op)
    modifies list
    ensures Allowed(e.painter, op) && OnEasel(list, splitter, PaintOn(list.fullscreen, e, On(op)))
  {
    hide Tiled, Expand, Pictures, Named, Stepped, Paint, Allowed, CanDo;
    ghost var ss, a := splitter.Streams(list), list.Snapshot();
    Do(list, op);
    ghost var ss', b := splitter.Streams(list), list.Snapshot();
    StepAddsVertices(list.fullscreen, a, op, b);
    forall i | 0 <= i < splitter.count
      ensures Named(ss'[i], |b.vtx|) && Pictures(ss'[i], b.vtx)
        == PaintOn(list.fullscreen, e, On(op)).sheets[i]
    {
      if i != splitter.current {
        assert ss'[i] == ss[i];
        PicturesStay(ss[i], a.vtx, b.vtx);
      }
    }
  }

  /** Splitting, any interleaving of switches and operations as far as they are allowed, and merging:
      the list shows the sheet of the first channel, then that of the second, and so on. */
  method PlayChannels(list: DrawList, splitter: Splitter, n: nat, ops: seq<ChannelOp>) returns (k: nat)
    requires Playing(list) && n >= 1 && splitter.current == 0 && splitter.count <= 1
    modifies list, splitter
    ensures Playing(list) && splitter.count == 1 && k <= |ops|
    ensures var (all, e) := PaintAllOn(list.fullscreen, Laid(old(PainterOf(list.Snapshot())), n), ops[..k]);
      && all && |e.sheets| == n
      && PainterOf(list.Snapshot()) == e.painter.(canvas := Flatten(e.sheets))
  {
    hide Tiled, Expand, Pictures, Named, PaintOn, AllowedOn, CanDoOn, OnEasel;
    ghost var start := Laid(PainterOf(list.Snapshot()), n);
    ghost var e := start;
    splitter.Split(list, n);
    SplitOn(list, splitter, n);
    k := 0;
    while k < |ops| && CanDoOn(list, splitter, ops[k])
      invariant k <= |ops| && splitter.count == n && OnEasel(list, splitter, e)
      invariant PaintAllOn(list.fullscreen, start, ops[..k]) == (true, e) && |e.sheets| == n
    {
      DoOn(list, splitter, ops[k], e);
      PaintOneMoreOn(list.fullscreen, start, ops[..k], e, ops[k]);
      assert ops[..k] + [ops[k]] == ops[..k + 1];
      e := PaintOn(list.fullscreen, e, ops[k]);
      k := k + 1;
    }
    MergeOn(list, splitter, e);
  }

  lemma SplitOn(list: DrawList, splitter: Splitter, n: nat)
    requires Playing(list) && splitter.Valid(list) && splitter.current == 0 && splitter.count == n >= 1
    requires splitter.Streams(list) == [list.Events()] + seq(n - 1, _ => [])
    ensures OnEasel(list, splitter, Laid(PainterOf(list.Snapshot()), n))
  {
    hide Tiled, Expand;
  }

  method MergeOn(list: DrawList, splitter: Splitter, ghost e: Easel)
    requires OnEasel(list, splitter, e)
    modifies list, splitter
    ensures Playing(list) && splitter.count == 1
    ensures PainterOf(list.Snapshot()) == e.painter.(canvas := Flatten(e.sheets))
  {
    hide Tiled, Expand, Pictures, Named;
    FlattenShown(splitter.Streams(list), list.vtxBuffer, e.sheets);
    splitter.Merge(list);
  }
}
