/** The channel splitter: keeps several streams apart while they are drawn in any order, and puts
    them back together. */
module DrawSplitter {
  import opened DrawModel
  import opened DrawList

  datatype Channel = Channel(cmds: seq<Cmd>, idx: seq<int>)

  function Flatten<T>(ss: seq<seq<T>>): seq<T> {
    if ss == [] then [] else Flatten(Front(ss)) + Last(ss)
  }

  /** A channel that is put away can be taken up again. */
  predicate Resumable(ch: Channel) {
    Tiled(ch.cmds, |ch.idx|) && (ch.cmds != [] ==> Last(ch.cmds).callback == NoCallback)
  }

  class Splitter {
    var current: int
    var count: int
    var channels: seq<Channel>

    constructor ()
      ensures current == 0 && count == 0 && channels == []
    {
      current, count, channels := 0, 0, [];
    }

    /** The storage of the current channel is stale: its buffers are in the list. */
    ghost predicate Valid(list: DrawList)
      reads this, list
    {
      && list.Ready() && 0 <= current
      && (count <= 1 ==> current == 0)
      && (count > 1 ==>
            && current < count <= |channels|
            && forall i | 0 <= i < count && i != current :: Resumable(channels[i]))
    }

    ghost function Stream(list: DrawList, i: int): seq<Event>
      reads this, list
      requires Valid(list) && 0 <= i < count
    {
      if i == current then list.Events() else Expand(channels[i].cmds, channels[i].idx)
    }

    /** What has been drawn into each channel. */
    ghost function Streams(list: DrawList): (ss: seq<seq<Event>>)
      reads this, list
      requires Valid(list) && count >= 1
      ensures |ss| == count
    {
      seq(count, i requires Valid(list) && 0 <= i < count reads this, list => Stream(list, i))
    }

    /** The first channel goes on where the list is; the others start empty. */
    method Split(list: DrawList, channelsCount: int)
      requires list.Ready() && current == 0 && count <= 1 && channelsCount >= 1
      modifies this`count, this`channels
      ensures Valid(list) && count == channelsCount
      ensures Streams(list) == [list.Events()] + seq(count - 1, _ => [])
    {
      var oldCount := |channels|;
      if oldCount < channelsCount {
        channels := channels + seq(channelsCount - oldCount, _ => Channel([], []));
      }
      count := channelsCount;
      channels := channels[0 := Channel([], [])];
      for i := 1 to channelsCount
        invariant |channels| >= channelsCount && count == channelsCount
        invariant forall j | 1 <= j < i :: channels[j] == Channel([], [])
      {
        channels := channels[i := Channel([], [])];
      }
    }

    /** Switching channels touches no stream; the list goes on at the end of the channel's. */
    method SetCurrentChannel(list: DrawList, idx: int)
      requires Valid(list) && 0 <= idx < count
      modifies this`current, this`channels, list`cmdBuffer, list`idxBuffer, list`idxWrite
      ensures Valid(list) && current == idx && count == old(count)
      ensures Streams(list) == old(Streams(list))
      ensures old(list.idxWrite == |list.idxBuffer|) || idx != old(current) ==> list.idxWrite == |list.idxBuffer|
    {
      hide Tiled, Expand;
      if current == idx {
        return;
      }
      ghost var was := Streams(list);
      channels := channels[current := Channel(list.cmdBuffer, list.idxBuffer)];
      current := idx;
      list.cmdBuffer := channels[idx].cmds;
      list.idxBuffer := channels[idx].idx;
      list.idxWrite := |list.idxBuffer|;
      list.Refit();
      assert forall i | 0 <= i < count :: was[i] == Stream(list, i);
    }

    /** Drawing on the list while it is split extends the stream of the current channel only. */
    twostate lemma OnlyCurrentDrawn(list: DrawList)
      requires old(Valid(list)) && old(count) >= 1 && unchanged(this) && list.Ready()
      ensures Valid(list) && Streams(list) == old(Streams(list))[current := list.Events()]
    {
      hide Tiled, Expand;
      assert forall i | 0 <= i < count && i != current :: Stream(list, i) == old(Stream(list, i));
    }

    lemma OneStream(list: DrawList)
      requires Valid(list) && count == 1
      ensures Flatten(Streams(list)) == list.Events()
    {
      hide Tiled, Expand;
      assert Streams(list) == [list.Events()] && Front([list.Events()]) == [];
    }

    // -------------------------------------------------------------- merging

    /** Ends the split: the list shows the first channel, then the second, and so on.  Where a
        channel ends under the header the next one starts with, the two commands become one. */
    method Merge(list: DrawList)
      requires Valid(list)
      modifies this, list`cmdBuffer, list`idxBuffer, list`idxWrite
      ensures Valid(list) && (old(count) <= 1 ==> count == old(count) && list.Logged() == old(list.Logged()))
      ensures old(count) >= 1 ==> count == 1 && list.Events() == Flatten(old(Streams(list)))
      ensures old(list.idxWrite == |list.idxBuffer|) || old(count) > 1 ==> list.idxWrite == |list.idxBuffer|
    {
      hide Tiled, Expand, Flatten, Chained, CmdsOf, IdxOf;
      if count <= 1 {
        if count == 1 { OneStream(list); }
        return;
      }
      ghost var ss := Streams(list);
      SetCurrentChannel(list, 0);
      list.PopUnusedDrawCmd();
      ChainStarts(list.cmdBuffer, list.idxBuffer, channels, ss);
      Gather(list, ss);
      Concatenate(list, ss);
      list.Close();
      count := 1;
    }

    /** The first pass: drops unused commands, merges across channels, and rebuilds the offsets. */
    method Gather(list: DrawList, ghost ss: seq<seq<Event>>)
      requires 1 < count <= |channels| && |ss| == count
      requires forall i | 1 <= i < count :: Resumable(channels[i]) && ss[i] == Expand(channels[i].cmds, channels[i].idx)
      requires Chained(list.cmdBuffer, list.idxBuffer, channels, 1, ss)
      modifies this`channels, list`cmdBuffer
      ensures |channels| == old(|channels|) && Chained(list.cmdBuffer, list.idxBuffer, channels, count, ss)
    {
      hide Tiled, Expand, Flatten, Chained, CmdsOf, IdxOf;
      var lastAt := if count > 0 && |list.cmdBuffer| > 0 then 0 else -1;
      var n := |list.cmdBuffer|;
      var idxOffset := if lastAt == 0 then list.cmdBuffer[n - 1].idxOffset + list.cmdBuffer[n - 1].elemCount else 0;
      FirstOffset(list.cmdBuffer, list.idxBuffer, channels, ss);
      for i := 1 to count
        invariant |channels| == old(|channels|) && PointsToLast(list.cmdBuffer, channels, i, lastAt)
        invariant forall j | i <= j < count ::
          Resumable(channels[j]) && ss[j] == Expand(channels[j].cmds, channels[j].idx)
        invariant Chained(list.cmdBuffer, list.idxBuffer, channels, i, ss)
        invariant idxOffset == |list.idxBuffer + IdxOf(channels, i)|
      {
        lastAt, idxOffset := Take(list, i, lastAt, idxOffset, ss);
      }
    }

    /** One channel of the first pass. */
    method Take(list: DrawList, i: int, lastAt0: int, idxOffset0: int, ghost ss: seq<seq<Event>>)
      returns (lastAt: int, idxOffset: int)
      requires 1 <= i < count <= |channels| && |ss| == count
      requires Resumable(channels[i]) && ss[i] == Expand(channels[i].cmds, channels[i].idx)
      requires Chained(list.cmdBuffer, list.idxBuffer, channels, i, ss)
      requires PointsToLast(list.cmdBuffer, channels, i, lastAt0)
      requires idxOffset0 == |list.idxBuffer + IdxOf(channels, i)|
      modifies this`channels, list`cmdBuffer
      ensures |channels| == old(|channels|) && forall j | i < j < count :: channels[j] == old(channels[j])
      ensures Chained(list.cmdBuffer, list.idxBuffer, channels, i + 1, ss)
      ensures PointsToLast(list.cmdBuffer, channels, i + 1, lastAt)
      ensures idxOffset == |list.idxBuffer + IdxOf(channels, i + 1)|
    {
      hide Tiled, Expand, Flatten, Chained, CmdsOf, IdxOf, MergedInto, Shifted, Follows;
      PopUnused(i);
      ghost var c, idx, cmds0 := channels[i].cmds, channels[i].idx, list.cmdBuffer;
      ghost var done := cmds0 + CmdsOf(channels, i);
      CmdsBefore(old(channels), i, channels[i]);
      var start := MergeFirst(list, i, lastAt0, idxOffset0, done);
      ghost var rest := channels[i].cmds;
      lastAt := if |channels[i].cmds| > 0 then i else lastAt0;
      idxOffset := Renumber(i, start, idxOffset0);
      Taken(cmds0, list.cmdBuffer, list.idxBuffer, old(channels), channels, i, ss, c, idx, rest);
    }

    /** Merges across the channels where possible; returns the offset for the commands left. */
    method MergeFirst(list: DrawList, i: int, lastAt: int, idxOffset: int, ghost done: seq<Cmd>) returns (start: int)
      requires 1 <= i < |channels| && Tiled(channels[i].cmds, |channels[i].idx|)
      requires PointsToLast(list.cmdBuffer, channels, i, lastAt) && done == list.cmdBuffer + CmdsOf(channels, i)
      modifies this`channels, list`cmdBuffer
      ensures |channels| == old(|channels|) && PointsToLast(list.cmdBuffer, channels, i, lastAt)
      ensures channels[i].idx == old(channels)[i].idx && IdxOf(channels, i) == IdxOf(old(channels), i)
      ensures forall j | i < j < |channels| :: channels[j] == old(channels)[j]
      ensures MergedInto(list.cmdBuffer + CmdsOf(channels, i), done, old(channels)[i].cmds, channels[i].cmds)
      ensures Follows(channels[i].cmds)
      ensures var rest := channels[i].cmds;
        if rest == [] then start == idxOffset + |channels[i].idx|
        else rest[0].idxOffset + idxOffset == start && Last(rest).idxOffset + Last(rest).elemCount == |channels[i].idx|
    {
      hide Tiled, CmdsOf, IdxOf;
      start := idxOffset;
      NotNone(list.cmdBuffer, channels, i, lastAt);
      TiledSteps(channels[i].cmds, |channels[i].idx|);
      ghost var before := channels;
      if |channels[i].cmds| > 0 && lastAt != -1 {
        var added := Absorb(list, i, lastAt, done);
        start := start + added;
      }
      SameIndices(before, channels, i);
    }

    /** Rebuilds the offsets of one channel. */
    method Renumber(i: int, start: int, ghost n: int) returns (idxOffset: int)
      requires 1 <= i < |channels| && Follows(channels[i].cmds)
      requires (channels[i].cmds != [] ==> channels[i].cmds[0].idxOffset + n == start)
      modifies this`channels
      ensures |channels| == |old(channels)|
      ensures channels[i] == old(channels)[i].(cmds := Shifted(old(channels)[i].cmds, n))
      ensures forall j | 0 <= j < |channels| && j != i :: channels[j] == old(channels)[j]
      ensures CmdsOf(channels, i) == CmdsOf(old(channels), i) && IdxOf(channels, i) == IdxOf(old(channels), i)
      ensures var c := old(channels)[i].cmds;
        idxOffset == if c == [] then start else n + Last(c).idxOffset + Last(c).elemCount
    {
      var cmds;
      cmds, idxOffset := Rebase(channels[i].cmds, start, n);
      CmdsBefore(channels, i, channels[i].(cmds := cmds));
      channels := channels[i := channels[i].(cmds := cmds)];
    }

    /** The loop over its commands. */
    static method Rebase(cmds: seq<Cmd>, start: int, ghost n: int) returns (r: seq<Cmd>, idxOffset: int)
      requires Follows(cmds) && (cmds != [] ==> cmds[0].idxOffset + n == start)
      ensures r == Shifted(cmds, n)
      ensures idxOffset == if cmds == [] then start else n + Last(cmds).idxOffset + Last(cmds).elemCount
    {
      r, idxOffset := cmds, start;
      for k := 0 to |cmds|
        invariant |r| == |cmds| && forall j | 0 <= j < |cmds| :: r[j] == if j < k then Shifted(cmds, n)[j] else cmds[j]
        invariant idxOffset == if k == 0 then start else n + cmds[k - 1].idxOffset + cmds[k - 1].elemCount
      {
        r := r[k := r[k].(idxOffset := idxOffset)];
        idxOffset := idxOffset + r[k].elemCount;
      }
    }

    /** The second pass: writes the commands and the indices of the channels behind those of the list. */
    method Concatenate(list: DrawList, ghost ss: seq<seq<Event>>)
      requires 1 < count <= |channels| && |ss| == count && Chained(list.cmdBuffer, list.idxBuffer, channels, count, ss)
      modifies list`cmdBuffer, list`idxBuffer, list`idxWrite
      ensures Tiled(list.cmdBuffer, |list.idxBuffer|) && Expand(list.cmdBuffer, list.idxBuffer) == Flatten(ss)
      ensures list.idxWrite == |list.idxBuffer|
    {
      hide Tiled, Expand, Flatten;
      ghost var cmds0, idx0 := list.cmdBuffer, list.idxBuffer;
      assert cmds0 + CmdsOf(channels, 1) == cmds0 && idx0 + IdxOf(channels, 1) == idx0;
      for i := 1 to count
        invariant list.cmdBuffer == cmds0 + CmdsOf(channels, i) && list.idxBuffer == idx0 + IdxOf(channels, i)
      {
        list.cmdBuffer := list.cmdBuffer + channels[i].cmds;
        list.idxBuffer := list.idxBuffer + channels[i].idx;
        assert cmds0 + CmdsOf(channels, i) + channels[i].cmds == cmds0 + CmdsOf(channels, i + 1);
        assert idx0 + IdxOf(channels, i) + channels[i].idx == idx0 + IdxOf(channels, i + 1);
      }
      assert ss[..count] == ss;
      list.idxWrite := |list.idxBuffer|;
    }

    /** Drops the unused command a channel may end with. */
    method PopUnused(i: int)
      requires 1 <= i < |channels| && Resumable(channels[i])
      modifies this`channels
      ensures |channels| == old(|channels|)
      ensures channels == old(channels)[i := Channel(channels[i].cmds, old(channels)[i].idx)]
      ensures Tiled(channels[i].cmds, |channels[i].idx|)
      ensures Expand(channels[i].cmds, channels[i].idx) == old(Expand(channels[i].cmds, channels[i].idx))
    {
      hide Tiled, Expand;
      var ch := channels[i];
      if |ch.cmds| > 0 && ch.cmds[|ch.cmds| - 1].elemCount == 0 && ch.cmds[|ch.cmds| - 1].callback == NoCallback {
        LastEmptyAt(ch.cmds, |ch.idx|);
        LastEmpty(ch.cmds, ch.idx, Last(ch.cmds));
        channels := channels[i := ch.(cmds := ch.cmds[..|ch.cmds| - 1])];
      }
    }

    /** Merges the first command of channel `i` into the last command before it, if they match;
        returns how many indices were absorbed. */
    method Absorb(list: DrawList, i: int, lastAt: int, ghost done: seq<Cmd>) returns (added: int)
      requires 1 <= i < |channels| && channels[i].cmds != [] && lastAt != -1
      requires PointsToLast(list.cmdBuffer, channels, i, lastAt) && done == list.cmdBuffer + CmdsOf(channels, i)
      modifies this`channels, list`cmdBuffer
      ensures |channels| == old(|channels|) && PointsToLast(list.cmdBuffer, channels, i, lastAt) && done != []
      ensures forall j | 0 <= j < |channels| :: channels[j].idx == old(channels)[j].idx
      ensures forall j | i < j < |channels| :: channels[j] == old(channels)[j]
      ensures var c := old(channels)[i].cmds;
        if Mergeable(Last(done), c[0])
        then
          && added == c[0].elemCount && channels[i].cmds == c[1..]
          && list.cmdBuffer + CmdsOf(channels, i)
            == Front(done) + [Last(done).(elemCount := Last(done).elemCount + c[0].elemCount)]
        else
          && added == 0 && channels[i].cmds == c && list.cmdBuffer + CmdsOf(channels, i) == done
    {
      hide CmdsOf, PointsToLast;
      added := 0;
      PointedAt(list.cmdBuffer, channels, i, lastAt);
      LastIs(list.cmdBuffer, channels, i, lastAt);
      var lastCmds := if lastAt == 0 then list.cmdBuffer else channels[lastAt].cmds;
      var lastCmd := lastCmds[|lastCmds| - 1];
      var nextCmd := channels[i].cmds[0];
      if lastCmd.header == nextCmd.header && lastCmd.callback == NoCallback && nextCmd.callback == NoCallback {
        var grown := lastCmd.(elemCount := lastCmd.elemCount + nextCmd.elemCount);
        added := nextCmd.elemCount;
        StoreLast(list, i, lastAt, grown, done);
        CmdsBefore(channels, i, channels[i].(cmds := channels[i].cmds[1..]));
        PointsStill(list.cmdBuffer, channels, i, lastAt, channels[i].(cmds := channels[i].cmds[1..]));
        channels := channels[i := channels[i].(cmds := channels[i].cmds[1..])];
      }
    }

    /** Writes through the pointer to the last command. */
    method StoreLast(list: DrawList, i: int, lastAt: int, c: Cmd, ghost done: seq<Cmd>)
      requires 1 <= i < |channels| && lastAt != -1
      requires PointsToLast(list.cmdBuffer, channels, i, lastAt) && done == list.cmdBuffer + CmdsOf(channels, i)
      modifies this`channels, list`cmdBuffer
      ensures |channels| == old(|channels|) && PointsToLast(list.cmdBuffer, channels, i, lastAt)
      ensures done != [] && list.cmdBuffer + CmdsOf(channels, i) == Front(done) + [c]
      ensures forall j | 0 <= j < |channels| :: channels[j].idx == old(channels)[j].idx
      ensures forall j | i <= j < |channels| :: channels[j] == old(channels)[j]
    {
      hide CmdsOf;
      LastSet(list.cmdBuffer, channels, i, lastAt, c);
      if lastAt == 0 {
        list.cmdBuffer := list.cmdBuffer[..|list.cmdBuffer| - 1] + [c];
      } else {
        var cmds := channels[lastAt].cmds;
        channels := channels[lastAt := channels[lastAt].(cmds := cmds[..|cmds| - 1] + [c])];
      }
    }
  }

  lemma PointedAt(cmds: seq<Cmd>, chs: seq<Channel>, i: int, at: int)
    requires PointsToLast(cmds, chs, i, at)
    ensures 1 <= i <= |chs| && -1 <= at < i
    ensures (at == 0 ==> cmds != []) && (at > 0 ==> chs[at].cmds != [])
  {}

  lemma PointsStill(cmds: seq<Cmd>, chs: seq<Channel>, i: int, at: int, ch: Channel)
    requires PointsToLast(cmds, chs, i, at) && i < |chs|
    ensures PointsToLast(cmds, chs[i := ch], i, at)
  {}

  /** The commands of channels 1 to `i - 1`, and their indices. */
  function CmdsOf(chs: seq<Channel>, i: int): seq<Cmd>
    requires i <= |chs|
  {
    if i <= 1 then [] else CmdsOf(chs, i - 1) + chs[i - 1].cmds
  }

  function IdxOf(chs: seq<Channel>, i: int): seq<int>
    requires i <= |chs|
  {
    if i <= 1 then [] else IdxOf(chs, i - 1) + chs[i - 1].idx
  }

  /** The list's buffers followed by those of the channels before `i` show the first `i` streams. */
  ghost predicate Chained(cmds: seq<Cmd>, idx: seq<int>, chs: seq<Channel>, i: int, ss: seq<seq<Event>>) {
    && 1 <= i <= |chs| && i <= |ss|
    && Tiled(cmds + CmdsOf(chs, i), |idx + IdxOf(chs, i)|)
    && Expand(cmds + CmdsOf(chs, i), idx + IdxOf(chs, i)) == Flatten(ss[..i])
  }

  /** The last command so far is the last of buffer `at`: 0 for the list's, -1 if there is none. */
  ghost predicate PointsToLast(cmds: seq<Cmd>, chs: seq<Channel>, i: int, at: int) {
    && 1 <= i <= |chs| && -1 <= at < i
    && (at == -1 ==> cmds == []) && (at == 0 ==> cmds != []) && (at > 0 ==> chs[at].cmds != [])
    && forall j | 1 <= j < i && j > at :: chs[j].cmds == []
  }

  lemma {:induction false} CmdsAfter(chs: seq<Channel>, i: int, at: int)
    requires 0 <= at < i <= |chs| && forall j | 1 <= j < i && j > at :: chs[j].cmds == []
    ensures CmdsOf(chs, i) == CmdsOf(chs, at + 1)
  {
    if i > at + 1 { CmdsAfter(chs, i - 1, at); }
  }

  lemma {:induction false} CmdsBefore(chs: seq<Channel>, i: int, ch: Channel)
    requires 1 <= i < |chs|
    ensures CmdsOf(chs[i := ch], i) == CmdsOf(chs, i) && IdxOf(chs[i := ch], i) == IdxOf(chs, i)
  {
    SameBefore(chs, chs[i := ch], i);
  }

  lemma {:induction false} SameBefore(a: seq<Channel>, b: seq<Channel>, i: int)
    requires 0 <= i <= |a| == |b| && forall j | 1 <= j < i :: a[j] == b[j]
    ensures CmdsOf(a, i) == CmdsOf(b, i) && IdxOf(a, i) == IdxOf(b, i)
  {
    if i > 1 { SameBefore(a, b, i - 1); }
  }

  lemma LastIs(cmds: seq<Cmd>, chs: seq<Channel>, i: int, at: int)
    requires PointsToLast(cmds, chs, i, at) && at >= 0
    ensures var done := cmds + CmdsOf(chs, i);
      done != [] && Last(done) == if at == 0 then Last(cmds) else Last(chs[at].cmds)
  {
    CmdsAfter(chs, i, at);
  }

  /** Writing through the pointer changes the last command and nothing else. */
  lemma LastSet(cmds: seq<Cmd>, chs: seq<Channel>, i: int, at: int, c: Cmd)
    requires PointsToLast(cmds, chs, i, at) && at >= 0
    ensures var done := cmds + CmdsOf(chs, i);
      var cmds' := if at == 0 then Front(cmds) + [c] else cmds;
      var chs' := if at == 0 then chs else chs[at := chs[at].(cmds := Front(chs[at].cmds) + [c])];
      done != [] && cmds' + CmdsOf(chs', i) == Front(done) + [c]
  {
    CmdsAfter(chs, i, at);
    if at > 0 {
      var chs' := chs[at := chs[at].(cmds := Front(chs[at].cmds) + [c])];
      CmdsAfter(chs', i, at);
      SameBefore(chs, chs', at);
    }
  }

  lemma ChainStarts(cmds: seq<Cmd>, idx: seq<int>, chs: seq<Channel>, ss: seq<seq<Event>>)
    requires Tiled(cmds, |idx|) && |chs| >= 1 && |ss| >= 1 && Expand(cmds, idx) == ss[0]
    ensures Chained(cmds, idx, chs, 1, ss)
  {
    assert cmds + CmdsOf(chs, 1) == cmds && idx + IdxOf(chs, 1) == idx;
    assert ss[..1] == [ss[0]] && Front([ss[0]]) == [];
  }

  lemma FirstOffset(cmds: seq<Cmd>, idx: seq<int>, chs: seq<Channel>, ss: seq<seq<Event>>)
    requires Chained(cmds, idx, chs, 1, ss)
    ensures (if cmds == [] then 0 else Last(cmds).idxOffset + Last(cmds).elemCount) == |idx + IdxOf(chs, 1)|
  {
    assert cmds + CmdsOf(chs, 1) == cmds && idx + IdxOf(chs, 1) == idx;
  }

  /** Every command starts where the one before it ends. */
  predicate Follows(cmds: seq<Cmd>) {
    forall k | 0 < k < |cmds| :: cmds[k].idxOffset == cmds[k - 1].idxOffset + cmds[k - 1].elemCount
  }

  lemma {:induction false} TiledSteps(cmds: seq<Cmd>, n: int)
    requires Tiled(cmds, n)
    ensures Follows(cmds)
    ensures if cmds == [] then n == 0 else cmds[0].idxOffset == 0 && Last(cmds).idxOffset + Last(cmds).elemCount == n
    decreases |cmds|
  {
    if cmds != [] {
      TiledSteps(Front(cmds), Last(cmds).idxOffset);
    }
  }

  lemma NotNone(cmds: seq<Cmd>, chs: seq<Channel>, i: int, at: int)
    requires PointsToLast(cmds, chs, i, at)
    ensures at == -1 <==> cmds + CmdsOf(chs, i) == []
  {
    if at == -1 { CmdsAfter(chs, i, 0); } else { LastIs(cmds, chs, i, at); }
  }

  lemma {:induction false} SameIndices(a: seq<Channel>, b: seq<Channel>, i: int)
    requires 0 <= i <= |a| == |b| && forall j | 0 <= j < |a| :: a[j].idx == b[j].idx
    ensures IdxOf(a, i) == IdxOf(b, i)
  {
    if i > 1 { SameIndices(a, b, i - 1); }
  }

  /** After a channel has been taken, the buffers are those of JoinedMeans. */
  lemma Taken(cmds: seq<Cmd>, cmds': seq<Cmd>, idx: seq<int>, chs: seq<Channel>, chs': seq<Channel>, i: int,
      ss: seq<seq<Event>>, c: seq<Cmd>, more: seq<int>, rest: seq<Cmd>)
    requires Chained(cmds, idx, chs, i, ss) && i < |chs| == |chs'| && i < |ss|
    requires Tiled(c, |more|) && Expand(c, more) == ss[i]
    requires IdxOf(chs', i) == IdxOf(chs, i) && chs'[i].idx == more
    requires chs'[i].cmds == Shifted(rest, |idx + IdxOf(chs, i)|)
    requires MergedInto(cmds' + CmdsOf(chs', i), cmds + CmdsOf(chs, i), c, rest)
    ensures Chained(cmds', idx, chs', i + 1, ss)
    ensures |idx + IdxOf(chs', i + 1)| == |idx + IdxOf(chs, i)| + |more|
  {
    hide Tiled, Expand, Flatten, MergedInto, Shifted, CmdsOf, IdxOf, Joined;
    var n, done := |idx + IdxOf(chs, i)|, cmds + CmdsOf(chs, i);
    TakenCommands(cmds', chs', i, n, done, c, rest);
    TakenIndices(idx, chs, chs', i, more);
    JoinedMeans(done, idx + IdxOf(chs, i), c, more);
    FlattenNext(ss, i);
  }

  lemma TakenIndices(idx: seq<int>, chs: seq<Channel>, chs': seq<Channel>, i: int, more: seq<int>)
    requires 1 <= i < |chs| == |chs'| && IdxOf(chs', i) == IdxOf(chs, i) && chs'[i].idx == more
    ensures idx + IdxOf(chs', i + 1) == idx + IdxOf(chs, i) + more
  {}

  /** Of the commands `c` the first has gone into the last of `done`, or none has; `rest` is left. */
  predicate MergedInto(done': seq<Cmd>, done: seq<Cmd>, c: seq<Cmd>, rest: seq<Cmd>) {
    if c != [] && done != [] && Mergeable(Last(done), c[0])
    then rest == c[1..] && done' == Front(done) + [Last(done).(elemCount := Last(done).elemCount + c[0].elemCount)]
    else rest == c && done' == done
  }

  lemma TakenCommands(cmds': seq<Cmd>, chs': seq<Channel>, i: int, n: int, done: seq<Cmd>, c: seq<Cmd>, rest: seq<Cmd>)
    requires 1 <= i < |chs'| && chs'[i].cmds == Shifted(rest, n)
    requires MergedInto(cmds' + CmdsOf(chs', i), done, c, rest)
    ensures cmds' + CmdsOf(chs', i + 1) == Joined(done, n, c)
  {
    assert c != [] ==> Shifted(c[1..], n) == Shifted(c, n)[1..];
    assert cmds' + CmdsOf(chs', i + 1) == cmds' + CmdsOf(chs', i) + Shifted(rest, n);
  }

  lemma FlattenNext(ss: seq<seq<Event>>, i: int)
    requires 0 <= i < |ss|
    ensures Flatten(ss[..i + 1]) == Flatten(ss[..i]) + ss[i]
  {
    assert Front(ss[..i + 1]) == ss[..i];
  }
}
