/** The draw list: batches what is drawn into as few commands as it can, in place. */
module DrawList {
  import opened DrawModel
  import opened DrawShapes
  import opened DrawRun
  import Ring
  import Triangulator

  class DrawList {
    const fullscreen: Clip
    var allowVtxOffset: bool
    var cmdBuffer: seq<Cmd>
    var idxBuffer: seq<int>
    var vtxBuffer: seq<Vertex>
    var vtxCurrentIdx: int
    var vtxWrite: int
    var idxWrite: int
    var cmdHeader: Header
    var clipRectStack: seq<Clip>
    var textureIdStack: seq<int>

    /** The buffers are in order; the last command need not be fit for drawing. */
    ghost predicate Sound()
      reads this
    {
      && Tiled(cmdBuffer, |idxBuffer|)
      && Proper(fullscreen) && Proper(cmdHeader.clip) && forall c | c in clipRectStack :: Proper(c)
    }

    /** Ready for drawing: the last command is no callback and its header is the current one. */
    ghost predicate Ready()
      reads this
    {
      Sound() && Batched(cmdBuffer, |idxBuffer|, cmdHeader)
    }

    /** No two neighbouring commands could be one. */
    ghost predicate Tidy()
      reads this
    {
      Compact(cmdBuffer, cmdHeader.vtxOffset)
    }

    /** The stream the buffers stand for. */
    ghost function Events(): seq<Event>
      reads this
      requires Tiled(cmdBuffer, |idxBuffer|)
    {
      Expand(cmdBuffer, idxBuffer)
    }

    ghost function Logged(): Log
      reads this
      requires Tiled(cmdBuffer, |idxBuffer|)
    {
      Log(Events(), cmdHeader, clipRectStack, textureIdStack)
    }

    constructor (fullscreen: Clip, allowVtxOffset: bool)
      requires Proper(fullscreen)
      ensures Ready() && Logged() == Log([], Header(NO_CLIP, NO_TEXTURE, 0), [], [])
      ensures this.fullscreen == fullscreen && this.allowVtxOffset == allowVtxOffset
      ensures Tidy() && vtxBuffer == [] && idxBuffer == [] && vtxCurrentIdx == 0 && vtxWrite == 0 && idxWrite == 0
    {
      this.fullscreen, this.allowVtxOffset := fullscreen, allowVtxOffset;
      cmdHeader := Header(NO_CLIP, NO_TEXTURE, 0);
      cmdBuffer := [Cmd(Header(NO_CLIP, NO_TEXTURE, 0), 0, 0, NoCallback)];
      idxBuffer, vtxBuffer, clipRectStack, textureIdStack := [], [], [], [];
      vtxCurrentIdx, vtxWrite, idxWrite := 0, 0, 0;
      new;
      AppendedEmpty([], cmdBuffer[0], []);
    }

    method AddDrawCmd()
      requires Sound()
      modifies this`cmdBuffer
      ensures Ready() && Events() == old(Events())
      ensures cmdBuffer == old(cmdBuffer) + [Cmd(cmdHeader, |idxBuffer|, 0, NoCallback)]
    {
      hide Tiled, Expand;
      var drawCmd := Cmd(cmdHeader, |idxBuffer|, 0, NoCallback);
      assert drawCmd.header.clip.x <= drawCmd.header.clip.z && drawCmd.header.clip.y <= drawCmd.header.clip.w;
      AppendedEmpty(cmdBuffer, drawCmd, idxBuffer);
      cmdBuffer := cmdBuffer + [drawCmd];
    }

    /** Drops the commands at the end that show nothing. */
    method PopUnusedDrawCmd()
      requires Sound()
      modifies this`cmdBuffer
      ensures Sound() && Events() == old(Events())
      ensures cmdBuffer != [] ==> Last(cmdBuffer).elemCount != 0 || Last(cmdBuffer).callback != NoCallback
      ensures cmdBuffer <= old(cmdBuffer)
    {
      hide Tiled, Expand;
      while |cmdBuffer| > 0
        invariant Sound() && Events() == old(Events()) && cmdBuffer <= old(cmdBuffer)
        decreases |cmdBuffer|
      {
        var currCmd := cmdBuffer[|cmdBuffer| - 1];
        if currCmd.elemCount != 0 || currCmd.callback != NoCallback {
          return;
        }
        LastEmpty(cmdBuffer, idxBuffer, currCmd);
        cmdBuffer := cmdBuffer[..|cmdBuffer| - 1];
      }
    }

    /** The callback gets a command of its own, and drawing goes on in a new one. */
    method AddCallback(callback: Callback)
      requires Ready()
      modifies this`cmdBuffer
      ensures Ready()
      ensures Logged() == old(Logged()).(events := old(Events())
        + if callback == NoCallback then [] else [Called(cmdHeader, callback)])
      ensures old(Tidy()) && callback != NoCallback ==> Tidy()
    {
      hide Tiled, Expand, Compact;
      ghost var cmds := cmdBuffer;
      var currCmd := cmdBuffer[|cmdBuffer| - 1];
      if currCmd.elemCount != 0 {
        AddDrawCmd();
        currCmd := cmdBuffer[|cmdBuffer| - 1];
      }
      LastEmptyAt(cmdBuffer, |idxBuffer|);
      LastEmpty(cmdBuffer, idxBuffer, currCmd.(callback := callback));
      cmdBuffer := cmdBuffer[..|cmdBuffer| - 1] + [currCmd.(callback := callback)];
      AddDrawCmd();
      if old(Tidy()) && callback != NoCallback {
        CallbackStaysCompact(cmds, currCmd.(callback := callback), Last(cmdBuffer), cmdHeader.vtxOffset);
        assert cmdBuffer == cmds + [currCmd.(callback := callback)] + [Last(cmdBuffer)]
          || cmdBuffer == Front(cmds) + [currCmd.(callback := callback)] + [Last(cmdBuffer)];
      }
    }

    /** Merges the last two commands when they draw neighbouring indices under one header. */
    method TryMergeDrawCmds()
      requires Ready() && |cmdBuffer| >= 2
      modifies this`cmdBuffer
      ensures Ready() && Logged() == old(Logged())
      ensures Mergeable(old(cmdBuffer)[|old(cmdBuffer)| - 2], Last(old(cmdBuffer))) <==> |cmdBuffer| < |old(cmdBuffer)|
    {
      hide Tiled, Expand;
      var n := |cmdBuffer|;
      var currCmd, prevCmd := cmdBuffer[n - 1], cmdBuffer[n - 2];
      TiledNeighbours(cmdBuffer, |idxBuffer|);
      if currCmd.header == prevCmd.header && prevCmd.idxOffset + prevCmd.elemCount == currCmd.idxOffset
         && currCmd.callback == NoCallback && prevCmd.callback == NoCallback
      {
        LastTwoMerged(cmdBuffer, idxBuffer);
        cmdBuffer := cmdBuffer[..n - 2] + [prevCmd.(elemCount := prevCmd.elemCount + currCmd.elemCount)];
      }
    }

    /** Batched, but for the header, which differs from the current one in the given respect. */
    ghost predicate Stale(h: Header)
      reads this
    {
      Sound() && Batched(cmdBuffer, |idxBuffer|, h)
    }

    method OnChangedClipRect(ghost was: Clip)
      requires Stale(cmdHeader.(clip := was))
      modifies this`cmdBuffer
      ensures Ready() && Logged() == old(Logged())
      ensures cmdBuffer == Switched(old(cmdBuffer), |idxBuffer|, cmdHeader)
      ensures old(Tidy()) ==> Tidy()
    {
      hide Tiled, Expand, Shown, Compact;
      if old(Tidy()) { SwitchedStaysCompact(cmdBuffer, |idxBuffer|, cmdHeader); }
      var n := |cmdBuffer|;
      if n > 1 { TiledNeighbours(cmdBuffer, |idxBuffer|); }
      var currCmd := cmdBuffer[n - 1];
      if currCmd.elemCount != 0 && currCmd.header.clip != cmdHeader.clip {
        AddDrawCmd();
        return;
      }
      assert currCmd.callback == NoCallback;
      if currCmd.elemCount == 0 && n > 1 && cmdHeader == cmdBuffer[n - 2].header
         && cmdBuffer[n - 2].idxOffset + cmdBuffer[n - 2].elemCount == currCmd.idxOffset
             && cmdBuffer[n - 2].callback == NoCallback
      {
        LastEmpty(cmdBuffer, idxBuffer, currCmd);
        cmdBuffer := cmdBuffer[..n - 1];
        return;
      }
      SetLastHeader(currCmd.header.(clip := cmdHeader.clip));
    }

    method OnChangedTextureID(ghost was: int)
      requires Stale(cmdHeader.(texture := was))
      modifies this`cmdBuffer
      ensures Ready() && Logged() == old(Logged())
      ensures cmdBuffer == Switched(old(cmdBuffer), |idxBuffer|, cmdHeader)
      ensures old(Tidy()) ==> Tidy()
    {
      hide Tiled, Expand, Shown, Compact;
      if old(Tidy()) { SwitchedStaysCompact(cmdBuffer, |idxBuffer|, cmdHeader); }
      var n := |cmdBuffer|;
      if n > 1 { TiledNeighbours(cmdBuffer, |idxBuffer|); }
      var currCmd := cmdBuffer[n - 1];
      if currCmd.elemCount != 0 && currCmd.header.texture != cmdHeader.texture {
        AddDrawCmd();
        return;
      }
      assert currCmd.callback == NoCallback;
      if currCmd.elemCount == 0 && n > 1 && cmdHeader == cmdBuffer[n - 2].header
         && cmdBuffer[n - 2].idxOffset + cmdBuffer[n - 2].elemCount == currCmd.idxOffset
             && cmdBuffer[n - 2].callback == NoCallback
      {
        LastEmpty(cmdBuffer, idxBuffer, currCmd);
        cmdBuffer := cmdBuffer[..n - 1];
        return;
      }
      SetLastHeader(currCmd.header.(texture := cmdHeader.texture));
    }

    method OnChangedVtxOffset(ghost was: int)
      requires Stale(cmdHeader.(vtxOffset := was))
      modifies this`cmdBuffer, this`vtxCurrentIdx
      ensures Ready() && Logged() == old(Logged()) && vtxCurrentIdx == 0
      ensures was < cmdHeader.vtxOffset && Compact(old(cmdBuffer), was) ==> Tidy()
    {
      hide Tiled, Expand, Shown, Compact;
      if was < cmdHeader.vtxOffset && Compact(cmdBuffer, was) {
        OffsetStaysCompact(cmdBuffer, Cmd(cmdHeader, |idxBuffer|, 0, NoCallback), was, cmdHeader.vtxOffset);
        OffsetStaysCompact(cmdBuffer, Last(cmdBuffer).(header := cmdHeader), was, cmdHeader.vtxOffset);
      }
      vtxCurrentIdx := 0;
      var currCmd := cmdBuffer[|cmdBuffer| - 1];
      if currCmd.elemCount != 0 {
        AddDrawCmd();
        return;
      }
      assert currCmd.callback == NoCallback;
      SetLastHeader(currCmd.header.(vtxOffset := cmdHeader.vtxOffset));
    }

    /** Writes into the header of the last command, which is empty or has that header already. */
    method SetLastHeader(h: Header)
      requires Sound() && cmdBuffer != [] && Last(cmdBuffer).callback == NoCallback
      requires Last(cmdBuffer).elemCount == 0 || Last(cmdBuffer).header == h
      modifies this`cmdBuffer
      ensures Sound() && Events() == old(Events())
      ensures cmdBuffer == Front(old(cmdBuffer)) + [Last(old(cmdBuffer)).(header := h)]
    {
      hide Tiled, Expand;
      var n := |cmdBuffer|;
      if cmdBuffer[n - 1].elemCount == 0 {
        LastEmpty(cmdBuffer, idxBuffer, cmdBuffer[n - 1].(header := h));
      } else {
        assert cmdBuffer == cmdBuffer[..n - 1] + [cmdBuffer[n - 1].(header := h)];
      }
      cmdBuffer := cmdBuffer[..n - 1] + [cmdBuffer[n - 1].(header := h)];
    }

    /** Makes the last command fit for drawing after the buffers have been exchanged. */
    method Refit()
      requires Sound() && (cmdBuffer != [] ==> Last(cmdBuffer).callback == NoCallback)
      modifies this`cmdBuffer
      ensures Ready() && Events() == old(Events())
    {
      hide Tiled, Expand;
      var n := |cmdBuffer|;
      if n == 0 {
        AddDrawCmd();
      } else if cmdBuffer[n - 1].elemCount == 0 {
        SetLastHeader(cmdHeader);
      } else if cmdBuffer[n - 1].header != cmdHeader {
        AddDrawCmd();
      }
    }

    /** The same at the end of a merge, when a callback may be last. */
    method Close()
      requires Sound()
      modifies this`cmdBuffer
      ensures Ready() && Events() == old(Events())
    {
      hide Tiled, Expand;
      if |cmdBuffer| == 0 || cmdBuffer[|cmdBuffer| - 1].callback != NoCallback {
        AddDrawCmd();
      }
      Refit();
    }

    // -------------------------------------------------------------- clip rectangles and textures

    method PushClipRect(cr: Clip, intersect: bool)
      requires Ready()
      modifies this`cmdBuffer, this`cmdHeader, this`clipRectStack
      ensures Ready()
      ensures var c := ClipPushed(cr, old(cmdHeader).clip, intersect);
        Logged() == WithClip(old(Logged()), old(clipRectStack) + [c], c)
      ensures old(Tidy()) ==> Tidy()
    {
      hide Tiled, Expand, Compact;
      var c := cr;
      if intersect {
        var current := cmdHeader.clip;
        if c.x < current.x { c := c.(x := current.x); }
        if c.y < current.y { c := c.(y := current.y); }
        if c.z > current.z { c := c.(z := current.z); }
        if c.w > current.w { c := c.(w := current.w); }
      }
      c := c.(z := MaxReal(c.x, c.z));
      c := c.(w := MaxReal(c.y, c.w));
      assert c == ClipPushed(cr, cmdHeader.clip, intersect);
      ghost var was := cmdHeader.clip;
      clipRectStack := clipRectStack + [c];
      cmdHeader := cmdHeader.(clip := c);
      OnChangedClipRect(was);
    }

    method PopClipRect()
      requires Ready() && clipRectStack != []
      modifies this`cmdBuffer, this`cmdHeader, this`clipRectStack
      ensures Ready()
      ensures var clips := Front(old(clipRectStack));
        Logged() == WithClip(old(Logged()), clips, if clips == [] then fullscreen else Last(clips))
      ensures old(Tidy()) ==> Tidy()
    {
      ghost var was := cmdHeader.clip;
      clipRectStack := clipRectStack[..|clipRectStack| - 1];
      cmdHeader := cmdHeader.(clip := if |clipRectStack| == 0 then fullscreen else clipRectStack[|clipRectStack| - 1]);
      OnChangedClipRect(was);
    }

    method PushTextureID(texture: int)
      requires Ready()
      modifies this`cmdBuffer, this`cmdHeader, this`textureIdStack
      ensures Ready() && Logged() == WithTexture(old(Logged()), old(textureIdStack) + [texture], texture)
      ensures old(Tidy()) ==> Tidy()
    {
      ghost var was := cmdHeader.texture;
      textureIdStack := textureIdStack + [texture];
      cmdHeader := cmdHeader.(texture := texture);
      OnChangedTextureID(was);
    }

    method PopTextureID()
      requires Ready() && textureIdStack != []
      modifies this`cmdBuffer, this`cmdHeader, this`textureIdStack
      ensures Ready()
      ensures var ts := Front(old(textureIdStack));
        Logged() == WithTexture(old(Logged()), ts, if ts == [] then NO_TEXTURE else Last(ts))
      ensures old(Tidy()) ==> Tidy()
    {
      ghost var was := cmdHeader.texture;
      textureIdStack := textureIdStack[..|textureIdStack| - 1];
      var n := |textureIdStack|;
      cmdHeader := cmdHeader.(texture := if n == 0 then NO_TEXTURE else textureIdStack[n - 1]);
      OnChangedTextureID(was);
    }

    method SetTextureID(texture: int)
      requires Ready()
      modifies this`cmdBuffer, this`cmdHeader
      ensures Ready() && Logged() == WithTexture(old(Logged()), textureIdStack, texture)
      ensures old(Tidy()) ==> Tidy()
    {
      if cmdHeader.texture == texture {
        return;
      }
      ghost var was := cmdHeader.texture;
      cmdHeader := cmdHeader.(texture := texture);
      OnChangedTextureID(was);
    }

    // -------------------------------------------------------------- primitives

    /** Between primitives: everything reserved has been written, and the next vertex is where the
        header and the running index say. */
    ghost predicate Settled()
      reads this
    {
      && Ready() && vtxWrite == |vtxBuffer| && idxWrite == |idxBuffer|
      && cmdHeader.vtxOffset >= 0 && vtxCurrentIdx >= 0 && cmdHeader.vtxOffset + vtxCurrentIdx == |vtxBuffer|
    }

    /** Within a primitive: of what is reserved the indices `rel` and the vertices `vs` are written. */
    ghost predicate Filling(f: Reservation, rel: seq<int>, vs: seq<Vertex>)
      reads this
    {
      && Ready() && f.idxCount <= Last(cmdBuffer).elemCount
      && |idxBuffer| == |f.idx| + f.idxCount && |vtxBuffer| == |f.vtx| + f.vtxCount
      && idxWrite == |f.idx| + |rel| <= |idxBuffer| && idxBuffer[..idxWrite] == f.idx + Narrowed(f.base, rel)
      && vtxWrite == |f.vtx| + |vs| <= |vtxBuffer| && vtxBuffer[..vtxWrite] == f.vtx + vs
      && |Events()| == |f.es| + f.idxCount && Events()[..|f.es|] == f.es
    }

    /** Reserves room for a primitive.  When its vertices could not all be reached from the current
        offset, the offset moves to the end of the vertex buffer, if that is allowed. */
    method PrimReserve(idxCount: nat, vtxCount: nat) returns (ghost f: Reservation)
      requires Ready()
      modifies this`cmdBuffer, this`cmdHeader, this`vtxCurrentIdx
      modifies this`vtxBuffer, this`idxBuffer, this`vtxWrite, this`idxWrite
      ensures f == Reservation(old(Events()), old(idxBuffer), old(vtxBuffer), vtxCurrentIdx, idxCount, vtxCount)
      ensures Filling(f, [], [])
      ensures if old(vtxCurrentIdx) + vtxCount >= INDEX_LIMIT && allowVtxOffset
        then vtxCurrentIdx == 0 && cmdHeader == old(cmdHeader).(vtxOffset := |old(vtxBuffer)|)
        else vtxCurrentIdx == old(vtxCurrentIdx) && cmdHeader == old(cmdHeader)
      ensures old(Tidy() && Settled()) && vtxCount < INDEX_LIMIT ==> Tidy()
    {
      hide Tiled, Expand, Draws, Narrowed, Compact;
      ghost var es := Events();
      ReachVertices(vtxCount);
      f := Reservation(es, idxBuffer, vtxBuffer, vtxCurrentIdx, idxCount, vtxCount);
      Grow(idxCount, vtxCount, f);
    }

    /** Extends the last command and the two buffers. */
    method Grow(idxCount: nat, vtxCount: nat, ghost f: Reservation)
      requires Ready() && f == Reservation(Events(), idxBuffer, vtxBuffer, vtxCurrentIdx, idxCount, vtxCount)
      modifies this`cmdBuffer, this`vtxBuffer, this`idxBuffer, this`vtxWrite, this`idxWrite
      ensures Filling(f, [], []) && (old(Tidy()) ==> Tidy())
    {
      hide Tiled, Expand, Draws, Narrowed, Compact;
      var n := |cmdBuffer|;
      var room := seq(idxCount, _ => 0);
      Reserved(cmdBuffer, idxBuffer, room);
      if Tidy() { CountsDoNotMatter(cmdBuffer, cmdBuffer[n - 1].elemCount + idxCount, cmdHeader.vtxOffset); }
      cmdBuffer := cmdBuffer[..n - 1] + [cmdBuffer[n - 1].(elemCount := cmdBuffer[n - 1].elemCount + idxCount)];
      vtxWrite := |vtxBuffer|;
      vtxBuffer := vtxBuffer + seq(vtxCount, _ => Vertex(0.0, 0.0, 0.0, 0.0, 0));
      idxWrite := |idxBuffer|;
      idxBuffer := idxBuffer + room;
      assert Narrowed(f.base, []) == [];
    }

    /** Moves the offset if the vertices could not all be reached. */
    method ReachVertices(vtxCount: nat)
      requires Ready()
      modifies this`cmdBuffer, this`cmdHeader, this`vtxCurrentIdx
      ensures Ready() && Events() == old(Events())
      ensures if old(vtxCurrentIdx) + vtxCount >= INDEX_LIMIT && allowVtxOffset
        then vtxCurrentIdx == 0 && cmdHeader == old(cmdHeader).(vtxOffset := |vtxBuffer|)
        else vtxCurrentIdx == old(vtxCurrentIdx) && cmdHeader == old(cmdHeader)
      ensures old(Tidy() && Settled()) && vtxCount < INDEX_LIMIT ==> Tidy()
    {
      hide Tiled, Expand, Draws, Compact;
      if vtxCurrentIdx + vtxCount >= INDEX_LIMIT && allowVtxOffset {
        ghost var was := cmdHeader.vtxOffset;
        cmdHeader := cmdHeader.(vtxOffset := |vtxBuffer|);
        OnChangedVtxOffset(was);
      }
    }

    /** Gives back what has been reserved last and is not needed. */
    method PrimUnreserve(idxCount: nat, vtxCount: nat)
      requires Ready() && idxCount <= Last(cmdBuffer).elemCount && vtxCount <= |vtxBuffer|
      modifies this`cmdBuffer, this`vtxBuffer, this`idxBuffer
      ensures Ready() && idxCount <= |old(Events())| && idxCount <= |old(idxBuffer)|
      ensures Logged() == old(Logged()).(events := old(Events())[..|old(Events())| - idxCount])
      ensures vtxBuffer == old(vtxBuffer)[..|old(vtxBuffer)| - vtxCount]
      ensures idxBuffer == old(idxBuffer)[..|old(idxBuffer)| - idxCount]
      ensures old(Tidy()) ==> Tidy()
    {
      hide Tiled, Expand, Draws, Compact;
      var n := |cmdBuffer|;
      LastShrinks(cmdBuffer, idxBuffer, idxCount);
      if Tidy() { CountsDoNotMatter(cmdBuffer, cmdBuffer[n - 1].elemCount - idxCount, cmdHeader.vtxOffset); }
      cmdBuffer := cmdBuffer[..n - 1] + [cmdBuffer[n - 1].(elemCount := cmdBuffer[n - 1].elemCount - idxCount)];
      vtxBuffer := vtxBuffer[..|vtxBuffer| - vtxCount];
      idxBuffer := idxBuffer[..|idxBuffer| - idxCount];
    }

    /** Writes a few indices and moves the write position behind them. */
    method WriteIndices(block: seq<int>, ghost f: Reservation, ghost rel: seq<int>, ghost vs: seq<Vertex>,
        ghost more: seq<int>)
      requires Filling(f, rel, vs) && |rel| + |more| <= f.idxCount
      requires Narrowed(0, block) == Narrowed(f.base, more)
      modifies this`idxBuffer, this`idxWrite
      ensures Filling(f, rel + more, vs)
    {
      hide Tiled, Expand, Draws, Narrow;
      assert |block| == |more| by { assert |Narrowed(0, block)| == |Narrowed(f.base, more)|; }
      ghost var I, E := idxBuffer, Events();
      idxBuffer := idxBuffer[..idxWrite] + Narrowed(0, block) + idxBuffer[idxWrite + |block|..];
      idxWrite := idxWrite + |block|;
      NarrowedConcat(f.base, rel, more);
      assert idxBuffer[..idxWrite] == f.idx + Narrowed(f.base, rel + more);
      ghost var tail := idxBuffer[|f.idx|..];
      assert I[..|f.idx|] == f.idx && idxBuffer == I[..|I| - f.idxCount] + tail;
      LastRewritten(cmdBuffer, I, tail);
    }

    method WriteVertices(block: seq<Vertex>, ghost f: Reservation, ghost rel: seq<int>, ghost vs: seq<Vertex>)
      requires Filling(f, rel, vs) && |vs| + |block| <= f.vtxCount
      modifies this`vtxBuffer, this`vtxWrite
      ensures Filling(f, rel, vs + block)
    {
      hide Tiled, Expand, Draws, Narrowed;
      vtxBuffer := vtxBuffer[..vtxWrite] + block + vtxBuffer[vtxWrite + |block|..];
      vtxWrite := vtxWrite + |block|;
    }

    /** A reservation that has been filled exactly is a primitive on the list. */
    lemma Filled(f: Reservation, rel: seq<int>, vs: seq<Vertex>)
      requires Filling(f, rel, vs) && |rel| == f.idxCount && |vs| == f.vtxCount
      requires f.base + cmdHeader.vtxOffset == |f.vtx| && cmdHeader.vtxOffset >= 0
      ensures Added(f.es, f.vtx, cmdHeader, vs, rel, Events(), vtxBuffer)
      ensures vtxWrite == |vtxBuffer| && idxWrite == |idxBuffer|
    {
      hide Tiled, Expand, Draws, Narrowed;
      var js := Narrowed(f.base, rel);
      assert idxBuffer == idxBuffer[..idxWrite] && vtxBuffer == vtxBuffer[..vtxWrite];
      assert idxBuffer == idxBuffer[..|idxBuffer| - |js|] + js;
      LastRewritten(cmdBuffer, idxBuffer, js);
    }

    /** Gives back what a primitive has reserved and not written; the rest is on the list. */
    method GiveBack(idxCount: nat, vtxCount: nat, ghost f: Reservation, ghost rel: seq<int>, ghost vs: seq<Vertex>)
      requires Filling(f, rel, vs) && |rel| + idxCount == f.idxCount && |vs| + vtxCount == f.vtxCount
      requires f.base + cmdHeader.vtxOffset == |f.vtx| && cmdHeader.vtxOffset >= 0
      modifies this`cmdBuffer, this`vtxBuffer, this`idxBuffer
      ensures Ready() && Added(f.es, f.vtx, cmdHeader, vs, rel, Events(), vtxBuffer)
      ensures vtxWrite == |vtxBuffer| && idxWrite == |idxBuffer|
    {
      hide Tiled, Expand, Narrowed, Draws;
      WrittenShows(cmdBuffer, idxBuffer, f, rel);
      PrimUnreserve(idxCount, vtxCount);
    }

    // -------------------------------------------------------------- shapes

    /** The effect of a primitive: it is drawn under the current clip rectangle and texture, after
        everything before it; if the offset may move, all of it is within reach of the indices; and
        the running index is right again if the primitive has fewer than 2^16 vertices. */
    twostate predicate Drew(vs: seq<Vertex>, rel: seq<int>)
      reads this
    {
      && old(Ready()) && Ready()
      && Added(old(Events()), old(vtxBuffer), cmdHeader, vs, rel, Events(), vtxBuffer)
      && cmdHeader == old(cmdHeader).(vtxOffset := cmdHeader.vtxOffset) && cmdHeader.vtxOffset <= |old(vtxBuffer)|
      && (allowVtxOffset && |vs| < INDEX_LIMIT ==> |vtxBuffer| - cmdHeader.vtxOffset < INDEX_LIMIT)
      && (!allowVtxOffset ==> cmdHeader == old(cmdHeader))
      && clipRectStack == old(clipRectStack) && textureIdStack == old(textureIdStack)
      && (|vs| < INDEX_LIMIT ==> Settled())
    }

    ghost function Snapshot(): View
      reads this
      requires Tiled(cmdBuffer, |idxBuffer|)
    {
      View(Logged(), vtxBuffer)
    }

    /** A primitive of the caller's own: reserves what may be needed, writes indices and vertices one
        by one, and gives back what is left. */
    method AddPrimitive(vs: seq<Vertex>, rel: seq<int>, idxCount: nat, vtxCount: nat)
      requires Settled() && |rel| <= idxCount && |vs| <= vtxCount
      modifies this`cmdBuffer, this`cmdHeader, this`vtxCurrentIdx
      modifies this`vtxBuffer, this`idxBuffer, this`vtxWrite, this`idxWrite
      ensures Drew(vs, rel) && Settled()
    {
      hide Filling, Tiled, Expand, Added, Narrow, Narrowed;
      ghost var f := PrimReserve(idxCount, vtxCount);
      PrimWriteIdcs(rel, f);
      PrimWriteVtxs(vs, f, rel);
      GiveBack(idxCount - |rel|, vtxCount - |vs|, f, rel, vs);
      AddedVertices(f, vs, rel);
    }

    lemma AddedVertices(f: Reservation, vs: seq<Vertex>, rel: seq<int>)
      requires Ready() && Added(f.es, f.vtx, cmdHeader, vs, rel, Events(), vtxBuffer)
      ensures |vtxBuffer| == |f.vtx| + |vs|
    {}

    /** The indices of a primitive, counted from its first vertex. */
    method PrimWriteIdcs(rel: seq<int>, ghost f: Reservation)
      requires Filling(f, [], []) && |rel| <= f.idxCount && f.base == vtxCurrentIdx
      modifies this`idxBuffer, this`idxWrite
      ensures Filling(f, rel, [])
    {
      hide Filling, Narrow;
      for k := 0 to |rel|
        invariant Filling(f, rel[..k], [])
      {
        BlockMoved(f.base, [rel[k]], [vtxCurrentIdx + rel[k]]);
        WriteIndices([vtxCurrentIdx + rel[k]], f, rel[..k], [], [rel[k]]);
        assert rel[..k] + [rel[k]] == rel[..k + 1];
      }
      assert rel[..|rel|] == rel;
    }

    /** Its vertices; the running index counts them. */
    method PrimWriteVtxs(vs: seq<Vertex>, ghost f: Reservation, ghost rel: seq<int>)
      requires Filling(f, rel, []) && |vs| <= f.vtxCount
      modifies this`vtxBuffer, this`vtxWrite, this`vtxCurrentIdx
      ensures Filling(f, rel, vs) && vtxCurrentIdx == old(vtxCurrentIdx) + |vs|
    {
      hide Filling;
      for k := 0 to |vs|
        invariant Filling(f, rel, vs[..k]) && vtxCurrentIdx == old(vtxCurrentIdx) + k
      {
        WriteVertices([vs[k]], f, rel, vs[..k]);
        assert vs[..k] + [vs[k]] == vs[..k + 1];
        MoveOn(1, f, rel, vs[..k + 1]);
      }
      assert vs[..|vs|] == vs;
    }

    /** Text: room for `max` quads is reserved, `count` of them turn out to be seen. */
    method RenderQuads(vs: seq<Vertex>, count: nat, max: nat)
      requires Settled() && count <= max && |vs| == 4 * count
      modifies this`cmdBuffer, this`cmdHeader, this`vtxCurrentIdx
      modifies this`vtxBuffer, this`idxBuffer, this`vtxWrite, this`idxWrite
      ensures Drew(vs, QuadIndices(count)) && Settled()
    {
      hide Filling, Tiled, Expand, Added, Narrow, StrokeIndices, Narrowed;
      var idxExpectedSize := |idxBuffer| + max * 6;
      ghost var f := PrimReserve(max * 6, max * 4);
      WriteQuads(vs, count + 1, count, f);
      Written(f, QuadIndices(count), vs);
      GiveBack(idxExpectedSize - idxWrite, |vtxBuffer| - vtxWrite, f, QuadIndices(count), vs);
      AddedVertices(f, vs, QuadIndices(count));
    }

    lemma Written(f: Reservation, rel: seq<int>, vs: seq<Vertex>)
      requires Filling(f, rel, vs)
      ensures idxWrite == |f.idx| + |rel| && vtxWrite == |f.vtx| + |vs| && |vtxBuffer| == |f.vtx| + f.vtxCount
    {}

    /** A triangle fan; anti-aliased, with a fringe of two triangles along every edge. */
    method AddConvexPolyFilled(inner: seq<Vertex>, outer: seq<Vertex>, antiAliased: bool, visible: bool)
      requires Settled() && |outer| == |inner|
      modifies this`cmdBuffer, this`cmdHeader, this`vtxCurrentIdx
      modifies this`vtxBuffer, this`idxBuffer, this`vtxWrite, this`idxWrite
      ensures |inner| < 3 || !visible ==> Settled() && Logged() == old(Logged()) && vtxBuffer == old(vtxBuffer)
      ensures |inner| >= 3 && visible ==>
        Drew(if antiAliased then Interleaved(inner, outer) else inner, FillIndices(|inner|, antiAliased))
    {
      if |inner| < 3 || !visible {
        return;
      }
      if antiAliased {
        FillWithFringe(inner, outer);
      } else {
        FillPlain(inner);
      }
    }

    method FillWithFringe(inner: seq<Vertex>, outer: seq<Vertex>)
      requires Settled() && |outer| == |inner| >= 3
      modifies this`cmdBuffer, this`cmdHeader, this`vtxCurrentIdx
      modifies this`vtxBuffer, this`idxBuffer, this`vtxWrite, this`idxWrite
      ensures Drew(Interleaved(inner, outer), FillIndices(|inner|, true))
    {
      hide Filling, Tiled, Expand, Added, Narrow, Fan, Fringe;
      var n := |inner|;
      var idxCount, vtxCount := (n - 2) * 3 + n * 6, n * 2;
      ghost var f := PrimReserve(idxCount, vtxCount);
      WriteFan(n, 2, f, []);
      WriteFringe(inner, outer, f, Fan(n, 2));
      EndPrimitive(vtxCount, f, FillIndices(n, true), Interleaved(inner, outer));
    }

    method FillPlain(points: seq<Vertex>)
      requires Settled() && |points| >= 3
      modifies this`cmdBuffer, this`cmdHeader, this`vtxCurrentIdx
      modifies this`vtxBuffer, this`idxBuffer, this`vtxWrite, this`idxWrite
      ensures Drew(points, FillIndices(|points|, false))
    {
      hide Filling, Tiled, Expand, Added, Narrow, Fan;
      var n := |points|;
      var idxCount, vtxCount := (n - 2) * 3, n;
      ghost var f := PrimReserve(idxCount, vtxCount);
      WritePoints(points, f);
      WriteFan(n, 1, f, points);
      EndPrimitive(vtxCount, f, FillIndices(n, false), points);
    }

    /** Any polygon, by ear clipping; anti-aliased, with the same fringe. */
    method AddConcavePolyFilled(points: seq<Ring.Point>, inner: seq<Vertex>, outer: seq<Vertex>, antiAliased: bool,
        visible: bool, clockwise: (Ring.Point, Ring.Point, Ring.Point) -> bool,
        contains: (Ring.Point, Ring.Point, Ring.Point, Ring.Point) -> bool)
      returns (ghost ts: seq<Triangulator.Triangle>)
      requires Settled() && |outer| == |inner| == |points|
      modifies this`cmdBuffer, this`cmdHeader, this`vtxCurrentIdx
      modifies this`vtxBuffer, this`idxBuffer, this`vtxWrite, this`idxWrite
      ensures |points| < 3 || !visible ==> Settled() && Logged() == old(Logged()) && vtxBuffer == old(vtxBuffer)
      ensures |points| >= 3 && visible ==>
        && Triangulator.Triangulation(Triangulator.Polygon(points, clockwise, contains), ts)
        && if antiAliased then Drew(Interleaved(inner, outer), TriangleIndices(ts, 2) + Fringe(|points|, |points|))
           else Drew(inner, TriangleIndices(ts, 1))
    {
      ts := [];
      if |points| < 3 || !visible {
        return;
      }
      if antiAliased {
        ts := ConcaveWithFringe(points, inner, outer, clockwise, contains);
      } else {
        ts := ConcavePlain(points, inner, clockwise, contains);
      }
    }

    method ConcaveWithFringe(points: seq<Ring.Point>, inner: seq<Vertex>, outer: seq<Vertex>,
        clockwise: (Ring.Point, Ring.Point, Ring.Point) -> bool,
        contains: (Ring.Point, Ring.Point, Ring.Point, Ring.Point) -> bool)
      returns (ghost ts: seq<Triangulator.Triangle>)
      requires Settled() && |outer| == |inner| == |points| >= 3
      modifies this`cmdBuffer, this`cmdHeader, this`vtxCurrentIdx
      modifies this`vtxBuffer, this`idxBuffer, this`vtxWrite, this`idxWrite
      ensures Triangulator.Triangulation(Triangulator.Polygon(points, clockwise, contains), ts)
      ensures Drew(Interleaved(inner, outer), TriangleIndices(ts, 2) + Fringe(|points|, |points|))
    {
      hide Filling, Tiled, Expand, Added, Narrow, Fringe, Triangulator.Clipped;
      var n := |inner|;
      var idxCount, vtxCount := (n - 2) * 3 + n * 6, n * 2;
      ghost var f := PrimReserve(idxCount, vtxCount);
      ts := WriteTriangles(points, 2, f, [], clockwise, contains);
      WriteFringe(inner, outer, f, TriangleIndices(ts, 2));
      EndPrimitive(vtxCount, f, TriangleIndices(ts, 2) + Fringe(n, n), Interleaved(inner, outer));
    }

    method ConcavePlain(points: seq<Ring.Point>, vs: seq<Vertex>,
        clockwise: (Ring.Point, Ring.Point, Ring.Point) -> bool,
        contains: (Ring.Point, Ring.Point, Ring.Point, Ring.Point) -> bool)
      returns (ghost ts: seq<Triangulator.Triangle>)
      requires Settled() && |vs| == |points| >= 3
      modifies this`cmdBuffer, this`cmdHeader, this`vtxCurrentIdx
      modifies this`vtxBuffer, this`idxBuffer, this`vtxWrite, this`idxWrite
      ensures Triangulator.Triangulation(Triangulator.Polygon(points, clockwise, contains), ts)
      ensures Drew(vs, TriangleIndices(ts, 1))
    {
      hide Filling, Tiled, Expand, Added, Narrow, Triangulator.Clipped;
      var n := |points|;
      var idxCount, vtxCount := (n - 2) * 3, n;
      ghost var f := PrimReserve(idxCount, vtxCount);
      WritePoints(vs, f);
      ts := WriteTriangles(points, 1, f, vs, clockwise, contains);
      EndPrimitive(vtxCount, f, TriangleIndices(ts, 1), vs);
    }

    /** The loop over the triangles of the polygon. */
    method WriteTriangles(points: seq<Ring.Point>, stride: nat, ghost f: Reservation, ghost vs: seq<Vertex>,
        clockwise: (Ring.Point, Ring.Point, Ring.Point) -> bool,
        contains: (Ring.Point, Ring.Point, Ring.Point, Ring.Point) -> bool)
      returns (ghost ts: seq<Triangulator.Triangle>)
      requires |points| >= 3 && Filling(f, [], vs) && f.idxCount >= (|points| - 2) * 3 && f.base == vtxCurrentIdx
      modifies this`idxBuffer, this`idxWrite
      ensures Triangulator.Triangulation(Triangulator.Polygon(points, clockwise, contains), ts)
      ensures Filling(f, TriangleIndices(ts, stride), vs)
    {
      hide Filling, Narrow, Triangulator.Accounted, Triangulator.Proper, Triangulator.Triangulator.Valid, Ring.Reversed,
        Ring.Without, Triangulator.Clipped, Triangulator.CutOff, Triangulator.Triangulation;
      var triangulator := new Triangulator.Triangulator(points, clockwise, contains);
      ghost var p := Triangulator.Polygon(points, clockwise, contains);
      ts := [];
      ghost var flips: seq<bool>, forced: seq<bool>, rings := [], [], [triangulator.ring];
      Triangulator.NothingCut(p, triangulator.ring);
      while triangulator.trianglesLeft > 0
        invariant triangulator.Valid() && fresh(triangulator) && fresh(triangulator.nodes)
        invariant triangulator.points == points && triangulator.Poly() == p
        invariant Triangulator.Accounted(points, ts, flips, triangulator.ring)
        invariant |rings| == |ts| + 1 && rings[|ts|] == triangulator.ring
        invariant Triangulator.Clipped(p, ts, flips, forced, rings)
        invariant Filling(f, TriangleIndices(ts, stride), vs)
        decreases triangulator.trianglesLeft
      {
        ghost var ring := triangulator.ring;
        triangulator.RingSize();
        Triangulator.AccountedFor(points, ts, flips, ring);
        var t, flipped, force, j := triangulator.GetNextTriangle();
        Triangulator.CutAccounted(p, ts, flips, ring, flipped, force, j, t, triangulator.ring);
        Triangulator.OneMoreClipped(p, ts, flips, forced, rings, flipped, force, t, j, triangulator.ring);
        WriteTriangle(t, stride, f, ts, vs);
        ts := ts + [t];
        flips, forced, rings := flips + [flipped], forced + [force], rings + [triangulator.ring];
      }
      triangulator.RingSize();
      Triangulator.ClippedAll(p, ts, flips, forced, rings, triangulator.ring);
      Triangulator.AccountedFor(points, ts, flips, triangulator.ring);
    }

    method WriteTriangle(t: Triangulator.Triangle, stride: nat, ghost f: Reservation,
        ghost ts: seq<Triangulator.Triangle>, ghost vs: seq<Vertex>)
      requires Filling(f, TriangleIndices(ts, stride), vs) && |ts| * 3 + 3 <= f.idxCount && f.base == vtxCurrentIdx
      modifies this`idxBuffer, this`idxWrite
      ensures Filling(f, TriangleIndices(ts + [t], stride), vs)
    {
      hide Filling, Narrow;
      var block := [vtxCurrentIdx + t.a * stride, vtxCurrentIdx + t.b * stride, vtxCurrentIdx + t.c * stride];
      ghost var more := [t.a * stride, t.b * stride, t.c * stride];
      BlockMoved(f.base, more, block);
      assert (ts + [t])[..|ts|] == ts;
      WriteIndices(block, f, TriangleIndices(ts, stride), vs, more);
    }

    /** The loop that writes one vertex for each point. */
    method WritePoints(points: seq<Vertex>, ghost f: Reservation)
      requires Filling(f, [], []) && f.vtxCount == |points|
      modifies this`vtxBuffer, this`vtxWrite
      ensures Filling(f, [], points)
    {
      hide Filling;
      for i := 0 to |points|
        invariant Filling(f, [], points[..i])
      {
        WriteVertices([points[i]], f, [], points[..i]);
        assert points[..i] + [points[i]] == points[..i + 1];
      }
      assert points[..|points|] == points;
    }

    /** The triangle fan, over points that are `stride` vertices apart. */
    method WriteFan(n: nat, stride: nat, ghost f: Reservation, ghost vs: seq<Vertex>)
      requires n >= 3 && Filling(f, [], vs) && f.idxCount >= (n - 2) * 3 && f.base == vtxCurrentIdx
      modifies this`idxBuffer, this`idxWrite
      ensures Filling(f, Fan(n, stride), vs)
    {
      hide Filling, Narrow;
      for i := 2 to n
        invariant Filling(f, Fan(i, stride), vs)
      {
        var block := [vtxCurrentIdx, vtxCurrentIdx + (i - 1) * stride, vtxCurrentIdx + i * stride];
        ghost var more := [0, (i - 1) * stride, i * stride];
        BlockMoved(f.base, more, block);
        WriteIndices(block, f, Fan(i, stride), vs, more);
      }
    }

    /** The loop over the edges, after the indices `fill` of the inside: two vertices and two triangles each. */
    method WriteFringe(inner: seq<Vertex>, outer: seq<Vertex>, ghost f: Reservation, ghost fill: seq<int>)
      requires |outer| == |inner| >= 3 && f.base == vtxCurrentIdx && Filling(f, fill, [])
      requires f.idxCount == |fill| + |inner| * 6 && f.vtxCount == 2 * |inner|
      modifies this`idxBuffer, this`idxWrite, this`vtxBuffer, this`vtxWrite
      ensures Filling(f, fill + Fringe(|inner|, |inner|), Interleaved(inner, outer))
    {
      hide Filling, Narrow;
      var n := |inner|;
      var vtxInnerIdx, vtxOuterIdx := vtxCurrentIdx, vtxCurrentIdx + 1;
      var i0, i1 := n - 1, 0;
      assert fill + Fringe(n, 0) == fill && Interleaved(inner[..0], outer[..0]) == [];
      while i1 < n
        invariant 0 <= i1 <= n && i0 == (if i1 == 0 then n - 1 else i1 - 1)
        invariant Filling(f, fill + Fringe(n, i1), Interleaved(inner[..i1], outer[..i1]))
      {
        ghost var more := [2 * i1, 2 * i0, 2 * i0 + 1, 2 * i0 + 1, 2 * i1 + 1, 2 * i1];
        var block := [vtxInnerIdx + i1 * 2, vtxInnerIdx + i0 * 2, vtxOuterIdx + i0 * 2,
                      vtxOuterIdx + i0 * 2, vtxOuterIdx + i1 * 2, vtxInnerIdx + i1 * 2];
        WriteVertices([inner[i1], outer[i1]], f, fill + Fringe(n, i1), Interleaved(inner[..i1], outer[..i1]));
        InterleavedSnoc(inner, outer, i1);
        BlockMoved(f.base, more, block);
        WriteIndices(block, f, fill + Fringe(n, i1), Interleaved(inner[..i1 + 1], outer[..i1 + 1]), more);
        assert fill + Fringe(n, i1) + more == fill + Fringe(n, i1 + 1);
        i0 := i1;
        i1 := i1 + 1;
      }
      assert inner[..n] == inner && outer[..n] == outer;
    }

    /** A line through `n` points, back to the first if it is closed.  The vertices come from the
        geometry, point by point, or segment by segment for the plain stroke. */
    method AddPolyline(vs: seq<Vertex>, n: nat, closed: bool, visible: bool, antiAliased: bool, useTexture: bool,
        thick: bool)
      requires Settled()
      requires n >= 2 ==>
        |vs| == StrokeVertices(StrokeKind(antiAliased, useTexture, thick), n, if closed then n else n - 1)
      modifies this`cmdBuffer, this`cmdHeader, this`vtxCurrentIdx
      modifies this`vtxBuffer, this`idxBuffer, this`vtxWrite, this`idxWrite
      ensures n < 2 || !visible ==> Settled() && Logged() == old(Logged()) && vtxBuffer == old(vtxBuffer)
      ensures n >= 2 && visible ==>
        Drew(vs, StrokeIndices(StrokeKind(antiAliased, useTexture, thick), n, if closed then n else n - 1))
    {
      if n < 2 || !visible {
        return;
      }
      var count := if closed then n else n - 1;
      if antiAliased {
        StrokeShared(if useTexture then Textured else if thick then Thick else Thin, vs, n, count);
      } else {
        StrokePlain(vs, n, count);
      }
    }

    /** The anti-aliased strokes: neighbouring segments share the vertices of the point between them. */
    method StrokeShared(st: Stroke, vs: seq<Vertex>, n: nat, count: nat)
      requires Settled() && st != Plain && n >= 2 && count <= n && |vs| == StrokeVertices(st, n, count)
      modifies this`cmdBuffer, this`cmdHeader, this`vtxCurrentIdx
      modifies this`vtxBuffer, this`idxBuffer, this`vtxWrite, this`idxWrite
      ensures Drew(vs, StrokeIndices(st, n, count))
    {
      hide Filling, Tiled, Expand, Added, Narrow, StrokeIndices;
      var idxCount := match st case Textured => count * 6 case Thick => count * 18 case _ => count * 12;
      var vtxCount := match st case Textured => n * 2 case Thick => n * 4 case _ => n * 3;
      ghost var f := PrimReserve(idxCount, vtxCount);
      WriteSegments(st, n, count, f);
      WriteCorners(st, vs, n, f, StrokeIndices(st, n, count));
      EndPrimitive(vtxCount, f, StrokeIndices(st, n, count), vs);
    }

    method WriteSegments(st: Stroke, n: nat, count: nat, ghost f: Reservation)
      requires st != Plain && n >= 2 && count <= n && f.base == vtxCurrentIdx && Filling(f, [], [])
      requires f.idxCount == count * |SegmentIndices(st, 0, 0)|
      modifies this`idxBuffer, this`idxWrite
      ensures Filling(f, StrokeIndices(st, n, count), [])
    {
      hide Filling, Narrow, SegmentIndices, Narrowed;
      var idx1 := vtxCurrentIdx;
      for i1 := 0 to count
        invariant Filling(f, StrokeIndices(st, n, i1), [])
        invariant idx1 == f.base + Stride(st) * (if i1 == n then 0 else i1)
      {
        var i2 := if i1 + 1 == n then 0 else i1 + 1;
        var idx2 := if i1 + 1 == n then vtxCurrentIdx else idx1 + Stride(st);
        SegmentMoved(st, f.base, Stride(st) * i1, Stride(st) * i2);
        WriteSegment(st, idx1, idx2, f, StrokeIndices(st, n, i1), [],
          SegmentIndices(st, Stride(st) * i1, Stride(st) * i2), count - i1);
        idx1 := idx2;
      }
    }

    /** The indices of one segment. */
    method WriteSegment(st: Stroke, idx1: int, idx2: int, ghost f: Reservation, ghost rel: seq<int>,
        ghost vs: seq<Vertex>, ghost more: seq<int>, ghost left: nat)
      requires Filling(f, rel, vs) && Narrowed(0, SegmentIndices(st, idx1, idx2)) == Narrowed(f.base, more)
      requires |more| == |SegmentIndices(st, 0, 0)| && left > 0
      requires f.idxCount - |rel| == left * |SegmentIndices(st, 0, 0)|
      modifies this`idxBuffer, this`idxWrite
      ensures Filling(f, rel + more, vs)
    {
      hide Filling, Narrow, SegmentIndices;
      WriteIndices(SegmentIndices(st, idx1, idx2), f, rel, vs, more);
    }

    method WriteCorners(st: Stroke, vs: seq<Vertex>, n: nat, ghost f: Reservation, ghost rel: seq<int>)
      requires |vs| == Stride(st) * n == f.vtxCount && Filling(f, rel, [])
      modifies this`vtxBuffer, this`vtxWrite
      ensures Filling(f, rel, vs)
    {
      hide Filling;
      for i := 0 to n
        invariant Stride(st) * i <= |vs| && Filling(f, rel, vs[..Stride(st) * i])
      {
        assert Stride(st) * (i + 1) == Stride(st) * i + Stride(st) <= |vs|;
        WriteVertices(vs[Stride(st) * i..Stride(st) * (i + 1)], f, rel, vs[..Stride(st) * i]);
        assert vs[..Stride(st) * i] + vs[Stride(st) * i..Stride(st) * (i + 1)] == vs[..Stride(st) * (i + 1)];
      }
      assert vs[..Stride(st) * n] == vs;
    }

    /** The stroke without anti-aliasing: every segment has four vertices of its own. */
    method StrokePlain(vs: seq<Vertex>, n: nat, count: nat)
      requires Settled() && n >= 2 && count <= n && |vs| == StrokeVertices(Plain, n, count)
      modifies this`cmdBuffer, this`cmdHeader, this`vtxCurrentIdx
      modifies this`vtxBuffer, this`idxBuffer, this`vtxWrite, this`idxWrite
      ensures Drew(vs, StrokeIndices(Plain, n, count)) && Settled()
    {
      hide Filling, Tiled, Expand, Added, Narrow, StrokeIndices, Narrowed;
      var idxCount, vtxCount := count * 6, count * 4;
      ghost var f := PrimReserve(idxCount, vtxCount);
      WriteQuads(vs, n, count, f);
      PlainEnds(f, StrokeIndices(Plain, n, count), vs);
    }

    method WriteQuads(vs: seq<Vertex>, n: nat, count: nat, ghost f: Reservation)
      requires Filling(f, [], []) && f.base == vtxCurrentIdx
      requires |vs| == 4 * count <= f.vtxCount && 6 * count <= f.idxCount
      modifies this`idxBuffer, this`idxWrite, this`vtxBuffer, this`vtxWrite, this`vtxCurrentIdx
      ensures Filling(f, StrokeIndices(Plain, n, count), vs) && vtxCurrentIdx == f.base + 4 * count
    {
      hide Filling, Narrow, SegmentIndices;
      for i1 := 0 to count
        invariant Filling(f, StrokeIndices(Plain, n, i1), vs[..4 * i1]) && vtxCurrentIdx == f.base + 4 * i1
      {
        ghost var more := SegmentIndices(Plain, 4 * i1, 4 * (if i1 + 1 == n then 0 else i1 + 1));
        WriteVertices(vs[4 * i1..4 * i1 + 4], f, StrokeIndices(Plain, n, i1), vs[..4 * i1]);
        assert vs[..4 * i1] + vs[4 * i1..4 * i1 + 4] == vs[..4 * (i1 + 1)];
        var v := vtxCurrentIdx;
        var block := [v, v + 1, v + 2, v, v + 2, v + 3];
        PlainSegment(f.base, 4 * i1, 4 * (if i1 + 1 == n then 0 else i1 + 1), block);
        WriteIndices(block, f, StrokeIndices(Plain, n, i1), vs[..4 * (i1 + 1)], more);
        MoveOn(4, f, StrokeIndices(Plain, n, i1 + 1), vs[..4 * (i1 + 1)]);
      }
      assert vs[..4 * count] == vs;
    }

    method MoveOn(k: int, ghost f: Reservation, ghost rel: seq<int>, ghost vs: seq<Vertex>)
      requires Filling(f, rel, vs)
      modifies this`vtxCurrentIdx
      ensures Filling(f, rel, vs) && vtxCurrentIdx == old(vtxCurrentIdx) + k
    {
      vtxCurrentIdx := vtxCurrentIdx + k;
    }

    lemma PlainEnds(f: Reservation, rel: seq<int>, vs: seq<Vertex>)
      requires Filling(f, rel, vs) && |rel| == f.idxCount && |vs| == f.vtxCount
      requires f.base >= 0 && cmdHeader.vtxOffset >= 0 && f.base + cmdHeader.vtxOffset == |f.vtx|
      requires vtxCurrentIdx == f.base + |vs|
      ensures Ready() && Added(f.es, f.vtx, cmdHeader, vs, rel, Events(), vtxBuffer)
      ensures |vtxBuffer| == |f.vtx| + |vs| && Settled()
    {
      hide Tiled, Expand, Narrowed;
      Filled(f, rel, vs);
    }

    /** The end of a primitive: the running index moves on, by the number of vertices modulo 2^16. */
    method EndPrimitive(vtxCount: nat, ghost f: Reservation, ghost rel: seq<int>, ghost vs: seq<Vertex>)
      requires Filling(f, rel, vs) && |rel| == f.idxCount && |vs| == f.vtxCount == vtxCount
      requires f.base == vtxCurrentIdx >= 0 && cmdHeader.vtxOffset >= 0
      requires vtxCurrentIdx + cmdHeader.vtxOffset == |f.vtx|
      modifies this`vtxCurrentIdx
      ensures Ready() && Added(f.es, f.vtx, cmdHeader, vs, rel, Events(), vtxBuffer)
      ensures |vtxBuffer| == |f.vtx| + |vs| && (Settled() <==> |vs| < INDEX_LIMIT)
    {
      hide Tiled, Expand, Narrowed;
      Filled(f, rel, vs);
      vtxCurrentIdx := vtxCurrentIdx + Narrow(vtxCount);
    }
  }

  /** Of a reservation, the part that has been written shows what was meant. */
  lemma WrittenShows(cmds: seq<Cmd>, idx: seq<int>, f: Reservation, rel: seq<int>)
    requires Tiled(cmds, |idx|) && cmds != [] && Last(cmds).callback == NoCallback && f.idxCount <= Last(cmds).elemCount
    requires |idx| == |f.idx| + f.idxCount && |rel| <= f.idxCount
    requires idx[..|f.idx| + |rel|] == f.idx + Narrowed(f.base, rel)
    requires |Expand(cmds, idx)| == |f.es| + f.idxCount && Expand(cmds, idx)[..|f.es|] == f.es
    ensures Expand(cmds, idx)[..|f.es| + |rel|] == f.es + Draws(Last(cmds).header, Narrowed(f.base, rel))
  {
    hide Tiled, Expand, Narrowed;
    var js := idx[|f.idx|..];
    assert idx == idx[..|idx| - f.idxCount] + js;
    LastRewritten(cmds, idx, js);
    assert js[..|rel|] == idx[..|f.idx| + |rel|][|f.idx|..];
    assert js == js[..|rel|] + js[|rel|..];
    DrawsConcat(Last(cmds).header, js[..|rel|], js[|rel|..]);
  }

  /** An empty last command starts where the indices end. */
  lemma LastEmptyAt(cmds: seq<Cmd>, n: int)
    requires Tiled(cmds, n) && cmds != [] && Last(cmds).elemCount == 0
    ensures Last(cmds).idxOffset == n
  {}

  lemma TiledNeighbours(cmds: seq<Cmd>, n: int)
    requires Tiled(cmds, n) && |cmds| >= 2
    ensures cmds[|cmds| - 2].idxOffset + cmds[|cmds| - 2].elemCount == Last(cmds).idxOffset
  {
    assert Last(Front(cmds)) == cmds[|cmds| - 2];
  }

  lemma BlockMoved(base: int, rel: seq<int>, block: seq<int>)
    requires |block| == |rel| && forall k | 0 <= k < |rel| :: block[k] == base + rel[k]
    ensures Narrowed(0, block) == Narrowed(base, rel)
  {}

  lemma PlainSegment(base: int, a: int, b: int, block: seq<int>)
    requires block == [base + a, base + a + 1, base + a + 2, base + a, base + a + 2, base + a + 3]
    ensures Narrowed(0, block) == Narrowed(base, SegmentIndices(Plain, a, b))
  {
    BlockMoved(base, SegmentIndices(Plain, a, b), block);
  }

  /** The corners of the triangles, over points that are `stride` vertices apart. */
  function TriangleIndices(ts: seq<Triangulator.Triangle>, stride: nat): (rel: seq<int>)
    ensures |rel| == 3 * |ts|
  {
    if ts == [] then []
    else
      var t := ts[|ts| - 1];
      TriangleIndices(ts[..|ts| - 1], stride) + [t.a * stride, t.b * stride, t.c * stride]
  }

  /** Triangle `k` of the list takes the three indices from `3 * k` on. */
  predicate TrianglesDrawn(ts: seq<Triangulator.Triangle>, stride: nat, rel: seq<int>) {
    && |rel| == 3 * |ts|
    && forall k: nat | k < |ts| :: Part(rel, k, 3) == [ts[k].a * stride, ts[k].b * stride, ts[k].c * stride]
  }

  lemma {:induction false} TrianglesCover(ts: seq<Triangulator.Triangle>, stride: nat)
    ensures TrianglesDrawn(ts, stride, TriangleIndices(ts, stride))
    decreases |ts|
  {
    if ts != [] {
      var front, t := ts[..|ts| - 1], ts[|ts| - 1];
      TrianglesCover(front, stride);
      var last := [t.a * stride, t.b * stride, t.c * stride];
      var rel := TriangleIndices(ts, stride);
      assert rel == TriangleIndices(front, stride) + last;
      forall k: nat | k < |ts|
        ensures Part(rel, k, 3) == [ts[k].a * stride, ts[k].b * stride, ts[k].c * stride]
      {
        if k < |front| {
          PartOfFront(TriangleIndices(front, stride), last, k, |front|, 3);
          assert front[k] == ts[k];
        } else {
          assert Part(rel, k, 3) == last;
        }
      }
    }
  }

  lemma {:induction false} TrianglesInRange(ts: seq<Triangulator.Triangle>, n: nat, stride: nat)
    requires stride > 0 && forall k | 0 <= k < |ts| :: Triangulator.Proper(ts[k], n)
    ensures InRange(TriangleIndices(ts, stride), n * stride)
    decreases |ts|
  {
    if ts != [] {
      var t := ts[|ts| - 1];
      TrianglesInRange(ts[..|ts| - 1], n, stride);
      assert Triangulator.Proper(t, n);
      Scaled(t.a, n, stride);
      Scaled(t.b, n, stride);
      Scaled(t.c, n, stride);
    }
  }
}
