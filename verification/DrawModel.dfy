/** What a draw list means, on values.  A command buffer and an index buffer stand for a stream of
    events: every index drawn, with the header it is drawn under, and every callback. */
module DrawModel {

  datatype Clip = Clip(x: real, y: real, z: real, w: real)

  /** The part of a command that is compared as a whole. */
  datatype Header = Header(clip: Clip, texture: int, vtxOffset: int)

  datatype Callback = NoCallback | Callback(fn: int, data: int)

  datatype Cmd = Cmd(header: Header, idxOffset: int, elemCount: int, callback: Callback)

  datatype Event = Drawn(header: Header, index: int) | Called(header: Header, callback: Callback)

  function Last<T>(s: seq<T>): T
    requires s != []
  {
    s[|s| - 1]
  }

  function Front<T>(s: seq<T>): seq<T>
    requires s != []
  {
    s[..|s| - 1]
  }

  function Draws(h: Header, js: seq<int>): (es: seq<Event>)
    ensures |es| == |js|
  {
    seq(|js|, k requires 0 <= k < |js| => Drawn(h, js[k]))
  }

  /** What one command shows, given the indices it owns. */
  function Shown(c: Cmd, js: seq<int>): seq<Event> {
    if c.callback == NoCallback then Draws(c.header, js) else [Called(c.header, c.callback)]
  }

  /** The commands own the first `n` indices, one after the other without a gap; callbacks own none. */
  predicate Tiled(cmds: seq<Cmd>, n: int)
    decreases |cmds|
  {
    if cmds == [] then n == 0
    else
      var c := Last(cmds);
      && c.idxOffset >= 0 && c.elemCount >= 0 && c.idxOffset + c.elemCount == n
      && (c.callback != NoCallback ==> c.elemCount == 0)
      && Tiled(Front(cmds), c.idxOffset)
  }

  /** The stream the buffers stand for. */
  function Expand(cmds: seq<Cmd>, idx: seq<int>): seq<Event>
    requires Tiled(cmds, |idx|)
    decreases |cmds|
  {
    if cmds == [] then []
    else
      var c := Last(cmds);
      Expand(Front(cmds), idx[..c.idxOffset]) + Shown(c, idx[c.idxOffset..])
  }

  /** What drawing needs: a command at the end that takes indices under the current header. */
  predicate Batched(cmds: seq<Cmd>, n: int, h: Header) {
    Tiled(cmds, n) && cmds != [] && Last(cmds).callback == NoCallback && Last(cmds).header == h
  }

  // ---------------------------------------------------------------- the steps the buffers take

  lemma DrawsConcat(h: Header, a: seq<int>, b: seq<int>)
    ensures Draws(h, a + b) == Draws(h, a) + Draws(h, b)
  {}

  /** The last command owns the last indices. */
  lemma ExpandLast(cmds: seq<Cmd>, idx: seq<int>)
    requires Tiled(cmds, |idx|) && cmds != []
    ensures var c := Last(cmds);
      && 0 <= c.idxOffset <= |idx| && c.elemCount == |idx| - c.idxOffset && Tiled(Front(cmds), c.idxOffset)
      && (c.callback != NoCallback ==> c.elemCount == 0)
      && Expand(cmds, idx) == Expand(Front(cmds), idx[..c.idxOffset]) + Shown(c, idx[c.idxOffset..])
  {}

  lemma ExpandNone(idx: seq<int>)
    requires Tiled([], |idx|)
    ensures idx == [] && Expand([], idx) == []
  {}

  lemma Appended(cmds: seq<Cmd>, c: Cmd, idx: seq<int>, js: seq<int>)
    requires Tiled(cmds, |idx|) && c.idxOffset == |idx| && c.elemCount == |js|
    requires c.callback != NoCallback ==> js == []
    ensures Tiled(cmds + [c], |idx + js|)
    ensures Expand(cmds + [c], idx + js) == Expand(cmds, idx) + Shown(c, js)
  {
    assert Front(cmds + [c]) == cmds;
    assert (idx + js)[..|idx|] == idx && (idx + js)[|idx|..] == js;
  }

  /** A new, still empty command shows nothing. */
  lemma AppendedEmpty(cmds: seq<Cmd>, c: Cmd, idx: seq<int>)
    requires Tiled(cmds, |idx|) && c.idxOffset == |idx| && c.elemCount == 0 && c.callback == NoCallback
    ensures Tiled(cmds + [c], |idx|) && Expand(cmds + [c], idx) == Expand(cmds, idx)
  {
    Appended(cmds, c, idx, []);
    assert idx + [] == idx;
  }

  /** An empty command can be dropped, get another header, or become a callback. */
  lemma LastEmpty(cmds: seq<Cmd>, idx: seq<int>, c: Cmd)
    requires Tiled(cmds, |idx|) && cmds != [] && Last(cmds).elemCount == 0 && Last(cmds).callback == NoCallback
    requires c.idxOffset == Last(cmds).idxOffset && c.elemCount == 0
    ensures Last(cmds).idxOffset == |idx| && Tiled(Front(cmds), |idx|)
    ensures Expand(Front(cmds), idx) == Expand(cmds, idx)
    ensures Tiled(Front(cmds) + [c], |idx|)
    ensures Expand(Front(cmds) + [c], idx) == Expand(cmds, idx) + Shown(c, [])
  {
    assert idx[..|idx|] == idx && idx[|idx|..] == [];
    Appended(Front(cmds), c, idx, []);
    assert idx + [] == idx;
  }

  /** More indices for the last command. */
  lemma LastGrows(cmds: seq<Cmd>, idx: seq<int>, js: seq<int>)
    requires Tiled(cmds, |idx|) && cmds != [] && Last(cmds).callback == NoCallback
    ensures var c := Last(cmds); var cmds' := Front(cmds) + [c.(elemCount := c.elemCount + |js|)];
      && Tiled(cmds', |idx + js|)
      && Expand(cmds', idx + js) == Expand(cmds, idx) + Draws(c.header, js)
  {
    hide Tiled, Expand, Draws;
    ExpandLast(cmds, idx);
    var c := Last(cmds);
    var front, own := idx[..c.idxOffset], idx[c.idxOffset..];
    Appended(Front(cmds), c.(elemCount := c.elemCount + |js|), front, own + js);
    assert front + (own + js) == idx + js;
    DrawsConcat(c.header, own, js);
  }

  /** What was on the list stays when indices are reserved. */
  lemma Reserved(cmds: seq<Cmd>, idx: seq<int>, js: seq<int>)
    requires Tiled(cmds, |idx|) && cmds != [] && Last(cmds).callback == NoCallback
    ensures var c := Last(cmds); var cmds' := Front(cmds) + [c.(elemCount := c.elemCount + |js|)];
      && Tiled(cmds', |idx + js|) && c.elemCount >= 0
      && |Expand(cmds', idx + js)| == |Expand(cmds, idx)| + |js|
      && Expand(cmds', idx + js)[..|Expand(cmds, idx)|] == Expand(cmds, idx)
  {
    LastGrows(cmds, idx, js);
  }

  /** The indices the last command owns can still be written: only their events change. */
  lemma LastRewritten(cmds: seq<Cmd>, idx: seq<int>, js: seq<int>)
    requires Tiled(cmds, |idx|) && cmds != [] && Last(cmds).callback == NoCallback && |js| <= Last(cmds).elemCount
    ensures var n := |idx| - |js|; var es := Expand(cmds, idx);
      && Tiled(cmds, |idx[..n] + js|) && |js| <= |es|
      && Expand(cmds, idx[..n] + js) == es[..|es| - |js|] + Draws(Last(cmds).header, js)
  {
    hide Tiled, Expand, Draws;
    ExpandLast(cmds, idx);
    var c, n := Last(cmds), |idx| - |js|;
    var own, tail, idx' := idx[c.idxOffset..n], idx[n..], idx[..n] + js;
    OwnSplit(idx, c.idxOffset, n, js);
    LastOwns(cmds, idx', own + js);
    DrawsConcat(c.header, own, js);
    DrawsConcat(c.header, own, tail);
    EndReplaced(Expand(Front(cmds), idx[..c.idxOffset]), Draws(c.header, own), Draws(c.header, tail),
      Draws(c.header, js), Expand(cmds, idx), Expand(cmds, idx'));
  }

  lemma OwnSplit(idx: seq<int>, at: nat, n: nat, js: seq<int>)
    requires at <= n <= |idx|
    ensures (idx[..n] + js)[..at] == idx[..at] && (idx[..n] + js)[at..] == idx[at..n] + js
    ensures idx[at..] == idx[at..n] + idx[n..]
  {}

  /** The last command shows the indices it owns. */
  lemma LastOwns(cmds: seq<Cmd>, idx: seq<int>, own: seq<int>)
    requires cmds != [] && Tiled(cmds, |idx|) && Last(cmds).callback == NoCallback
    requires 0 <= Last(cmds).idxOffset <= |idx| && own == idx[Last(cmds).idxOffset..]
    ensures Tiled(Front(cmds), Last(cmds).idxOffset)
    ensures Expand(cmds, idx) == Expand(Front(cmds), idx[..Last(cmds).idxOffset]) + Draws(Last(cmds).header, own)
  {
    hide Tiled, Expand, Draws;
    ExpandLast(cmds, idx);
  }

  lemma EndReplaced<T>(a: seq<T>, b: seq<T>, c: seq<T>, d: seq<T>, all: seq<T>, all': seq<T>)
    requires all == a + (b + c) && all' == a + (b + d)
    ensures |c| <= |all| && all' == all[..|all| - |c|] + d
  {}

  /** Fewer indices for the last command. */
  lemma LastShrinks(cmds: seq<Cmd>, idx: seq<int>, k: nat)
    requires Tiled(cmds, |idx|) && cmds != [] && Last(cmds).callback == NoCallback && k <= Last(cmds).elemCount
    ensures var c, es := Last(cmds), Expand(cmds, idx); var cmds' := Front(cmds) + [c.(elemCount := c.elemCount - k)];
      && k <= |idx| && k <= |es| && Tiled(cmds', |idx| - k)
      && Expand(cmds', idx[..|idx| - k]) == es[..|es| - k]
  {
    hide Tiled, Expand, Draws;
    ExpandLast(cmds, idx);
    var c, n := Last(cmds), |idx| - k;
    var front, own := idx[..c.idxOffset], idx[c.idxOffset..];
    Appended(Front(cmds), c.(elemCount := c.elemCount - k), front, own[..|own| - k]);
    assert front + own[..|own| - k] == idx[..n];
    DrawsConcat(c.header, own[..|own| - k], own[|own| - k..]);
    assert own[..|own| - k] + own[|own| - k..] == own;
  }

  predicate Mergeable(p: Cmd, c: Cmd) {
    p.header == c.header && p.callback == NoCallback && c.callback == NoCallback
  }

  /** Two neighbours under one header show the same as one command with the indices of both. */
  lemma LastTwoMerged(cmds: seq<Cmd>, idx: seq<int>)
    requires Tiled(cmds, |idx|) && |cmds| >= 2 && Mergeable(cmds[|cmds| - 2], Last(cmds))
    ensures var n, c := |cmds| - 2, Last(cmds); var p := cmds[n];
      var cmds' := cmds[..n] + [p.(elemCount := p.elemCount + c.elemCount)];
      p.idxOffset + p.elemCount == c.idxOffset && Tiled(cmds', |idx|) && Expand(cmds', idx) == Expand(cmds, idx)
  {
    hide Expand, Draws;
    ExpandLast(cmds, idx);
    var c := Last(cmds);
    assert Front(Front(cmds)) == cmds[..|cmds| - 2] && Last(Front(cmds)) == cmds[|cmds| - 2];
    LastGrows(Front(cmds), idx[..c.idxOffset], idx[c.idxOffset..]);
    assert idx[..c.idxOffset] + idx[c.idxOffset..] == idx;
  }

  // ---------------------------------------------------------------- no more commands than needed

  /** No two neighbours could be one command, and no command has an offset beyond `v`. */
  predicate Compact(cmds: seq<Cmd>, v: int) {
    && (forall i | 0 < i < |cmds| :: !Mergeable(cmds[i - 1], cmds[i]))
    && (forall i | 0 <= i < |cmds| :: cmds[i].header.vtxOffset <= v)
  }

  /** The commands when the header becomes `h` and `n` indices have been drawn. */
  function Switched(cmds: seq<Cmd>, n: int, h: Header): seq<Cmd>
    requires cmds != []
  {
    var c, k := Last(cmds), |cmds| - 2;
    if c.elemCount != 0 && c.header != h then cmds + [Cmd(h, n, 0, NoCallback)]
    else if c.elemCount == 0 && k >= 0 && cmds[k].header == h && cmds[k].callback == NoCallback then Front(cmds)
    else Front(cmds) + [c.(header := h)]
  }

  lemma SwitchedStaysCompact(cmds: seq<Cmd>, n: int, h: Header)
    requires cmds != [] && Last(cmds).callback == NoCallback && Compact(cmds, h.vtxOffset)
    ensures Compact(Switched(cmds, n, h), h.vtxOffset)
  {}

  /** A callback in the place of an empty command, and a new command after it. */
  lemma CallbackStaysCompact(cmds: seq<Cmd>, cb: Cmd, c: Cmd, v: int)
    requires Compact(cmds, v) && cb.callback != NoCallback && cb.header.vtxOffset <= v && c.header.vtxOffset <= v
    ensures Compact(cmds + [cb] + [c], v)
    ensures cmds != [] ==> Compact(Front(cmds) + [cb] + [c], v)
  {}

  /** An offset that only grows tells the last command from all before it. */
  lemma OffsetStaysCompact(cmds: seq<Cmd>, c: Cmd, v: int, v': int)
    requires Compact(cmds, v) && v < v' && c.header.vtxOffset == v'
    ensures Compact(cmds + [c], v')
    ensures cmds != [] ==> Compact(Front(cmds) + [c], v')
  {}

  lemma CountsDoNotMatter(cmds: seq<Cmd>, k: int, v: int)
    requires Compact(cmds, v) && cmds != []
    ensures Compact(Front(cmds) + [Last(cmds).(elemCount := k)], v)
  {}

  // ---------------------------------------------------------------- putting channels together

  /** The same commands, `n` indices further on. */
  function Shifted(cmds: seq<Cmd>, n: int): (r: seq<Cmd>)
    ensures |r| == |cmds|
  {
    seq(|cmds|, i requires 0 <= i < |cmds| => cmds[i].(idxOffset := cmds[i].idxOffset + n))
  }

  /** `done` owning `n` indices, followed by the commands of a channel; if the first of these
      matches the last of those they become one. */
  function Joined(done: seq<Cmd>, n: int, cmds: seq<Cmd>): seq<Cmd> {
    if cmds != [] && done != [] && Mergeable(Last(done), cmds[0])
    then Front(done) + [Last(done).(elemCount := Last(done).elemCount + cmds[0].elemCount)] + Shifted(cmds, n)[1..]
    else done + Shifted(cmds, n)
  }

  /** Joining loses nothing and reorders nothing. */
  lemma {:induction false} JoinedMeans(done: seq<Cmd>, idx: seq<int>, cmds: seq<Cmd>, more: seq<int>)
    requires Tiled(done, |idx|) && Tiled(cmds, |more|)
    ensures Tiled(Joined(done, |idx|, cmds), |idx + more|)
    ensures Expand(Joined(done, |idx|, cmds), idx + more) == Expand(done, idx) + Expand(cmds, more)
    decreases |cmds|
  {
    hide Expand, Tiled, Draws;
    var n := |idx|;
    if cmds == [] {
      ExpandNone(more);
      assert Joined(done, n, cmds) == done && idx + more == idx;
    } else {
      ExpandLast(cmds, more);
      var c := Last(cmds);
      var before, own := more[..c.idxOffset], more[c.idxOffset..];
      assert idx + more == (idx + before) + own;
      if |cmds| == 1 && done != [] && Mergeable(Last(done), c) {
        ExpandNone(before);
        assert own == more;
        LastGrows(done, idx, more);
        assert Joined(done, n, cmds) == Front(done) + [Last(done).(elemCount := Last(done).elemCount + c.elemCount)];
      } else {
        JoinedMeans(done, idx, Front(cmds), before);
        JoinedSnoc(done, n, cmds);
        Appended(Joined(done, n, Front(cmds)), c.(idxOffset := c.idxOffset + n), idx + before, own);
      }
    }
  }

  lemma JoinedSnoc(done: seq<Cmd>, n: int, cmds: seq<Cmd>)
    requires cmds != [] && !(|cmds| == 1 && done != [] && Mergeable(Last(done), cmds[0]))
    ensures Joined(done, n, cmds) == Joined(done, n, Front(cmds)) + [Last(cmds).(idxOffset := Last(cmds).idxOffset + n)]
  {
    assert Shifted(cmds, n) == Shifted(Front(cmds), n) + [Last(cmds).(idxOffset := Last(cmds).idxOffset + n)];
  }
}
