/** One undo and one redo on the storage, and their meaning on the entries. */
module UndoSteps {
  import opened UndoModel
  import opened UndoStore

  function Overwritten(chars: seq<char>, at: nat, s: seq<char>): (r: seq<char>)
    requires at + |s| <= |chars|
    ensures |r| == |chars|
  {
    chars[..at] + s + chars[at + |s|..]
  }

  ghost predicate Sized(c: Caps, s: Store) {
    |s.rec| == c.records && |s.chars| == c.chars
  }

  // ---------------------------------------------------------------- undo

  /** Gives the record below the redo records its characters. */
  function CharsStored(s: Store, saved: Text): Store
    requires Shape(s) && s.redoPoint > 0 && |saved| <= s.redoCharPoint <= |s.chars|
  {
    var at := s.redoCharPoint - |saved|;
    s.(rec := s.rec[s.redoPoint - 1 := s.rec[s.redoPoint - 1].(charStorage := at)],
       redoCharPoint := at,
       chars := Overwritten(s.chars, at, saved))
  }

  /** The slot below the redo records set to the reverse of `u`, without storage. */
  function SlotFilled(s: Store, u: UndoRecord): Store
    requires Shape(s) && s.redoPoint > 0
  {
    s.(rec := s.rec[s.redoPoint - 1 := UndoRecord(u.where, u.deleteLength, u.insertLength, -1)])
  }

  lemma SlotFilledKeeps(s: Store, u: UndoRecord)
    requires LooseRedo(s) && s.redoPoint > 0
    ensures LooseRedo(SlotFilled(s, u)) && RawSide(SlotFilled(s, u)) == RawSide(s)
    ensures RedoSide(s) ==> RedoSide(SlotFilled(s, u)) && Redos(SlotFilled(s, u)) == Redos(s)
  {
    assert SlotFilled(s, u).rec[s.redoPoint..] == s.rec[s.redoPoint..];
  }

  lemma SlotFilledShape(s: Store, u: UndoRecord)
    requires Shape(s) && s.redoPoint > 0
    ensures var f := SlotFilled(s, u);
      && Shape(f) && f.undoCharPoint == s.undoCharPoint && f.redoCharPoint == s.redoCharPoint
      && f.redoPoint == s.redoPoint && |f.rec| == |s.rec| && f.chars == s.chars
  {}

  predicate CanUndoOn(s: Store, text: Text) {
    Loose(s) && s.undoPoint > 0 && InRange(text, Last(Undos(s)))
  }

  /** The characters the undo deletes are to be stored. */
  predicate Stores(s: Store)
    requires Shape(s) && s.undoPoint > 0
  {
    s.rec[s.undoPoint - 1].deleteLength != 0 && s.undoCharPoint + s.rec[s.undoPoint - 1].deleteLength < |s.chars|
  }

  /** Making room for them stays within the array. */
  predicate UndoWithin(s: Store)
    requires LooseRedo(s) && s.undoPoint > 0
  {
    var u := s.rec[s.undoPoint - 1];
    Stores(s) ==> RoomWithin(SlotFilled(s, u), u.deleteLength)
  }

  /** Room has been made, or no redo record is left. */
  function Cleared(s: Store): Store
    requires LooseRedo(s) && s.undoPoint > 0 && UndoWithin(s) && Stores(s)
  {
    RoomFor(SlotFilled(s, s.rec[s.undoPoint - 1]), s.rec[s.undoPoint - 1].deleteLength)
  }

  /** Everything undo does before it changes the text.  When it finds no room it stops there. */
  function RedoPushed(s: Store, text: Text): Store
    requires CanUndoOn(s, text) && UndoWithin(s)
  {
    TopUndo(s);
    SlotFilledKeeps(s, s.rec[s.undoPoint - 1]);
    var u := s.rec[s.undoPoint - 1];
    if u.deleteLength == 0 then SlotFilled(s, u)
    else if !Stores(s) then SlotFilled(s, u.(deleteLength := 0))
    else
      RoomForFrame(SlotFilled(s, u), u.deleteLength);
      var m := Cleared(s);
      if m.undoCharPoint + u.deleteLength > m.redoCharPoint then m
      else CharsStored(m, text[u.where..u.where + u.deleteLength])
  }

  /** What undo reads off the newest record. */
  lemma TopRecord(c: Caps, s: Store)
    requires Sized(c, s) && Loose(s) && s.undoPoint > 0
    ensures var u := s.rec[s.undoPoint - 1];
      && 0 <= u.where && 0 <= u.deleteLength && 0 <= u.insertLength <= s.undoCharPoint
      && Last(Undos(s)).where == u.where && Last(Undos(s)).del == u.deleteLength
      && |Last(Undos(s)).ins| == u.insertLength
      && Chars(Undos(s)) == s.undoCharPoint && |Undos(s)| == s.undoPoint
      && (Stores(s) <==> Last(Undos(s)).del > 0 && !Lossy(c, Undos(s)))
      && (UndoWithin(s) <==> Within(c, Undos(s), RawSide(s)))
  {
    hide Tiled, EntryOf, Chars, Released;
    TopUndo(s);
    UndoSpace(s);
    SlotFilledKeeps(s, s.rec[s.undoPoint - 1]);
  }

  /** What undo must leave alone: the undo records but the newest, and all undo characters. */
  predicate UndoSideKept(s: Store, p: Store)
    requires UndoSide(s) && s.undoPoint > 0
  {
    && |p.rec| == |s.rec| && |p.chars| == |s.chars|
    && p.undoPoint == s.undoPoint <= p.redoPoint <= |s.rec| && p.undoCharPoint == s.undoCharPoint
    && p.rec[..s.undoPoint - 1] == s.rec[..s.undoPoint - 1]
    && p.chars[..s.undoCharPoint] == s.chars[..s.undoCharPoint]
  }

  // ---------------------------------------------------------------- undo in numbers

  /** The redo side with the slot below it. */
  predicate LooseBelow(p: Store) {
    LooseRedo(p) && p.redoPoint > 0 && LooseRecord(p.rec[p.redoPoint - 1])
  }

  lemma UnstoredSide(s: Store, text: Text)
    requires CanUndoOn(s, text) && UndoWithin(s) && !Stores(s)
    ensures var p := RedoPushed(s, text);
      && LooseBelow(p) && p.redoPoint == s.redoPoint && RawSide(p) == RawSide(s) && UndoSideKept(s, p)
      && p.rec[p.redoPoint - 1].insertLength == 0
  {
    hide Tiled, EntryOf;
    SlotFilledKeeps(s, s.rec[s.undoPoint - 1]);
    SlotFilledKeeps(s, s.rec[s.undoPoint - 1].(deleteLength := 0));
  }

  /** Making room touches nothing below the redo side. */
  lemma ClearedKeeps(s: Store)
    requires Loose(s) && s.undoPoint > 0 && UndoWithin(s) && Stores(s)
    ensures var m := Cleared(s);
      && LooseRedo(m) && UndoSideKept(s, m) && s.redoPoint <= m.redoPoint
      && RawSide(m) == Released(RawSide(s), s.undoCharPoint + s.rec[s.undoPoint - 1].deleteLength)
      && (s.undoPoint < s.redoPoint ==> m.rec[..s.undoPoint] == s.rec[..s.undoPoint])
  {
    hide Tiled, LooseRecord, Released, RoomFor;
    var u := s.rec[s.undoPoint - 1];
    var f, m := SlotFilled(s, u), Cleared(s);
    SlotFilledKeeps(s, u);
    RoomForFrame(f, u.deleteLength);
    assert m.rec[..s.undoPoint - 1] == m.rec[..s.redoPoint][..s.undoPoint - 1];
    assert f.rec[..s.undoPoint - 1] == f.rec[..s.redoPoint][..s.undoPoint - 1];
    assert m.chars[..s.undoCharPoint] == m.chars[..s.redoCharPoint][..s.undoCharPoint];
    assert s.chars[..s.undoCharPoint] == s.chars[..s.redoCharPoint][..s.undoCharPoint];
    if s.undoPoint < s.redoPoint {
      assert m.rec[..s.undoPoint] == m.rec[..s.redoPoint][..s.undoPoint];
      assert f.rec[..s.undoPoint] == f.rec[..s.redoPoint][..s.undoPoint];
    }
  }

  /** The slot that gets the storage: the one that was filled in, or one with the fields of the newest
      redo record. */
  lemma ClearedSlot(s: Store)
    requires Loose(s) && s.undoPoint > 0 && UndoWithin(s) && Stores(s)
    ensures var m, u := Cleared(s), s.rec[s.undoPoint - 1];
      && 0 < m.redoPoint <= |m.rec|
      && if s.undoCharPoint + u.deleteLength <= s.redoCharPoint
         then m == SlotFilled(s, u)
         else s.redoPoint < |s.rec| ==> Fields(m.rec[m.redoPoint - 1]) == Fields(s.rec[s.redoPoint])
  {
    hide Tiled, Released, RoomFor, UndoSide;
    SlotFilledKeeps(s, s.rec[s.undoPoint - 1]);
    RoomForFrame(SlotFilled(s, s.rec[s.undoPoint - 1]), s.rec[s.undoPoint - 1].deleteLength);
  }

  /** Storing characters that fit is room taken from below the redo side. */
  lemma CharsStoredSide(s: Store, m: Store, saved: Text)
    requires UndoSide(s) && s.undoPoint > 0 && UndoSideKept(s, m) && LooseRedo(m) && m.redoPoint > 0
    requires s.undoCharPoint + |saved| <= m.redoCharPoint && m.rec[m.redoPoint - 1].insertLength >= 0
    ensures var p := CharsStored(m, saved);
      && UndoSideKept(s, p) && LooseBelow(p) && p.redoPoint == m.redoPoint
      && RawSide(p) == RawSide(m).(point := m.redoCharPoint - |saved|)
      && p.rec[p.redoPoint - 1].insertLength == m.rec[m.redoPoint - 1].insertLength
  {
    hide Tiled;
    var p := CharsStored(m, saved);
    assert RawSide(p).lens == RawSide(m).lens;
    assert p.chars[..s.undoCharPoint] == m.chars[..s.undoCharPoint];
    assert p.rec[..s.undoPoint - 1] == m.rec[..s.undoPoint - 1];
  }

  /** Undo once the redo record is in place: both stacks give up or gain one record. */
  function Popped(p: Store, n: int): Store {
    p.(undoPoint := p.undoPoint - 1, undoCharPoint := p.undoCharPoint - n, redoPoint := p.redoPoint - 1)
  }

  lemma PoppedSide(s: Store, p: Store)
    requires Loose(s) && s.undoPoint > 0 && UndoSideKept(s, p) && LooseBelow(p)
    ensures var s' := Popped(p, |Last(Undos(s)).ins|);
      && LooseRedo(s')
      && RawSide(s') == Side([p.rec[p.redoPoint - 1].insertLength] + RawSide(p).lens, p.redoCharPoint)
  {
    hide Tiled, EntryOf, Undos;
  }

  lemma PoppedUndoSide(s: Store, p: Store)
    requires UndoSide(s) && s.undoPoint > 0 && UndoSideKept(s, p)
    ensures var s' := Popped(p, |Last(Undos(s)).ins|);
      UndoSide(s') && Undos(s') == Undos(s)[..s.undoPoint - 1] && s'.undoCharPoint <= s.undoCharPoint
  {
    TopUndo(s);
    var front, end := s.rec[..s.undoPoint - 1], s.undoCharPoint - |Last(Undos(s)).ins|;
    forall k | 0 <= k < end ensures p.chars[k] == s.chars[k] {
      assert p.chars[..s.undoCharPoint][k] == s.chars[..s.undoCharPoint][k];
    }
    EntriesMoved(front, front, 0, end, s.chars, p.chars, 0);
    assert Undos(s)[..s.undoPoint - 1] == Entries(front, s.chars);
  }

  lemma ClearedStores(s: Store, text: Text)
    requires CanUndoOn(s, text) && UndoWithin(s) && Stores(s)
    requires s.undoCharPoint + s.rec[s.undoPoint - 1].deleteLength <= Cleared(s).redoCharPoint
    ensures var m, u := Cleared(s), s.rec[s.undoPoint - 1];
      && LooseRedo(m) && m.redoPoint > 0 && 0 <= u.where && 0 <= u.deleteLength && u.where + u.deleteLength <= |text|
      && RedoPushed(s, text) == CharsStored(m, text[u.where..u.where + u.deleteLength])
  {
    hide Tiled, EntryOf, Released, RoomFor, CharsStored, LooseRecord;
    TopUndo(s);
    ClearedKeeps(s);
    ClearedSlot(s);
  }

  /** Undo gets through exactly when making room has succeeded. */
  lemma ClearedDecides(c: Caps, s: Store)
    requires Sized(c, s) && Loose(s) && s.undoPoint > 0 && UndoWithin(s) && Stores(s)
    ensures var need := s.undoCharPoint + s.rec[s.undoPoint - 1].deleteLength;
      && Cleared(s).undoCharPoint == s.undoCharPoint
      && (need <= Cleared(s).redoCharPoint <==> Through(c, Undos(s), RawSide(s)))
  {
    hide Tiled, Cleared, Released, Chars, Sum, UndoWithin, Lossy;
    TopRecord(c, s);
    ReleasedEnough(RawSide(s), s.undoCharPoint + s.rec[s.undoPoint - 1].deleteLength);
    ClearedKeeps(s);
  }

  lemma ClearedFits(s: Store)
    requires Loose(s) && s.undoPoint > 0 && UndoWithin(s) && Stores(s)
    ensures var m := Cleared(s);
      && Shape(m) && m.redoPoint > 0 && m.redoCharPoint <= |m.chars| && m.undoCharPoint >= 0
      && |m.rec| == |s.rec| && |m.chars| == |s.chars| && m.undoCharPoint == s.undoCharPoint
  {
    hide Tiled, Cleared, Released, UndoWithin;
    ClearedKeeps(s);
    ClearedSlot(s);
  }

  lemma ClearedLength(s: Store)
    requires Loose(s) && s.undoPoint > 0 && UndoWithin(s) && Stores(s)
    requires s.undoCharPoint + s.rec[s.undoPoint - 1].deleteLength <= End(RawSide(s))
    requires s.rec[s.undoPoint - 1].deleteLength >= 0
    ensures var m, need, side := Cleared(s), s.undoCharPoint + s.rec[s.undoPoint - 1].deleteLength, RawSide(s);
      && 0 < m.redoPoint <= |m.rec| && m.rec[m.redoPoint - 1].insertLength >= 0
      && (need > side.point ==> side.lens != [])
      && m.rec[m.redoPoint - 1].insertLength
           == if need > side.point then side.lens[0] else s.rec[s.undoPoint - 1].deleteLength
  {
    hide Tiled, Cleared, UndoSide, UndoWithin;
    ClearedSlot(s);
  }

  lemma StoredSide(c: Caps, s: Store, text: Text)
    requires Sized(c, s) && CanUndoOn(s, text) && UndoWithin(s) && Stores(s)
    requires s.undoCharPoint + s.rec[s.undoPoint - 1].deleteLength <= End(RawSide(s))
    ensures var p, need, side := RedoPushed(s, text), s.undoCharPoint + s.rec[s.undoPoint - 1].deleteLength, RawSide(s);
      && LooseBelow(p) && UndoSideKept(s, p) && need <= Released(side, need).point
      && RawSide(p).lens == Released(side, need).lens
      && RawSide(p).point == Released(side, need).point - s.rec[s.undoPoint - 1].deleteLength
      && if need > side.point then side.lens != [] && p.rec[p.redoPoint - 1].insertLength == side.lens[0]
         else p.rec[p.redoPoint - 1].insertLength == s.rec[s.undoPoint - 1].deleteLength
  {
    hide Tiled, EntryOf, Cleared, CharsStored, RedoPushed, Released, Chars, UndoSide, Sum, Lossy, UndoWithin, Undos,
      End, LooseRecord, Fields;
    TopRecord(c, s);
    var u, m := s.rec[s.undoPoint - 1], Cleared(s);
    ReleasedEnough(RawSide(s), s.undoCharPoint + u.deleteLength);
    ClearedKeeps(s);
    ClearedLength(s);
    ClearedStores(s, text);
    CharsStoredSide(s, m, text[u.where..u.where + u.deleteLength]);
  }

  /** An undo that gets through, whatever the redo side is like: the undo side gives up its newest
      entry, and of the redo side the numbers are known. */
  lemma ThroughMeans(c: Caps, s: Store, text: Text)
    requires Sized(c, s) && CanUndoOn(s, text) && UndoWithin(s) && Through(c, Undos(s), RawSide(s))
    ensures var p := RedoPushed(s, text); UndoSideKept(s, p) && p.redoPoint > 0
    ensures var s', undo := Popped(RedoPushed(s, text), |Last(Undos(s)).ins|), Undos(s);
      && Sized(c, s') && Loose(s') && Undos(s') == undo[..|undo| - 1]
      && RawSide(s') == Reserved(c, undo, RawSide(s))
  {
    hide Tiled, EntryOf, RedoPushed, Released, LooseRecord, Chars, UndoWithin, Stores, Undos, Sum;
    TopRecord(c, s);
    var u, p := s.rec[s.undoPoint - 1], RedoPushed(s, text);
    if Stores(s) {
      StoredSide(c, s, text);
    } else {
      UnstoredSide(s, text);
    }
    PoppedSide(s, p);
    PoppedUndoSide(s, p);
  }

  /** One that does not: only the redo side has changed, as long as there was a record to spare. */
  lemma GivenUpMeans(c: Caps, s: Store, text: Text)
    requires Sized(c, s) && CanUndoOn(s, text) && UndoWithin(s) && !Through(c, Undos(s), RawSide(s))
    requires s.undoPoint < s.redoPoint
    ensures Stores(s)
    ensures var p := RedoPushed(s, text);
      && p == Cleared(s) && s.undoCharPoint + s.rec[s.undoPoint - 1].deleteLength > p.redoCharPoint
      && Sized(c, p) && Loose(p) && Undos(p) == Undos(s) && RawSide(p) == Reserved(c, Undos(s), RawSide(s))
      && p.undoPoint < p.redoPoint
  {
    hide Tiled, EntryOf, Entries, Cleared, CharsStored, Released, LooseRecord, Chars, UndoWithin, Lossy, Sum;
    TopRecord(c, s);
    var u, p := s.rec[s.undoPoint - 1], Cleared(s);
    ReleasedEnough(RawSide(s), s.undoCharPoint + u.deleteLength);
    ClearedKeeps(s);
    UndosKept(s, p);
  }

  /** The same undo records and characters mean the same. */
  lemma UndosKept(s: Store, p: Store)
    requires UndoSide(s) && Shape(p) && p.undoPoint == s.undoPoint && p.undoCharPoint == s.undoCharPoint <= |p.chars|
    requires p.rec[..s.undoPoint] == s.rec[..s.undoPoint]
    requires p.chars[..s.undoCharPoint] == s.chars[..s.undoCharPoint]
    ensures UndoSide(p) && Undos(p) == Undos(s)
  {
    forall k | 0 <= k < s.undoCharPoint ensures p.chars[k] == s.chars[k] {
      assert p.chars[..s.undoCharPoint][k] == s.chars[..s.undoCharPoint][k];
    }
    EntriesMoved(s.rec[..s.undoPoint], s.rec[..s.undoPoint], 0, s.undoCharPoint, s.chars, p.chars, 0);
  }

  // ---------------------------------------------------------------- undo of a sound redo side

  /** In `p` the redo record for undoing the newest record of `s` is in the slot below the redo
      records.  It, and all above it, is as it should be exactly when the undo is intact. */
  predicate Pushed(c: Caps, s: Store, text: Text, p: Store)
    requires CanUndoOn(s, text)
  {
    && UndoSideKept(s, p) && p.redoPoint > 0
    && var undo, redo := Undos(s), Redos(s);
    && (Entries(p.rec[p.redoPoint - 1..], p.chars) == [UndoEntry(c, text, undo)] + UndoKept(c, undo, redo)
        <==> Intact(c, undo, redo))
    && (Intact(c, undo, redo) ==>
         && Tiled(p.rec[p.redoPoint - 1..], p.redoCharPoint, |p.chars|)
         && p.undoCharPoint <= p.redoCharPoint <= |p.chars|)
  }

  lemma UnstoredRecord(c: Caps, s: Store, text: Text, r: UndoRecord, tail: seq<UndoRecord>)
    requires CanUndoOn(s, text) && (Last(Undos(s)).del == 0 || Lossy(c, Undos(s)))
    requires var u := s.rec[s.undoPoint - 1]; r == UndoRecord(u.where, 0, u.insertLength, -1)
    requires Tiled(tail, s.redoCharPoint, |s.chars|)
    ensures Tiled([r] + tail, s.redoCharPoint, |s.chars|)
    ensures Entries([r] + tail, s.chars) == [UndoEntry(c, text, Undos(s))] + Entries(tail, s.chars)
  {
    TopUndo(s);
    EntriesCons(r, tail, s.chars);
    assert ([r] + tail)[1..] == tail;
    assert EntryOf(r, s.chars) == UndoEntry(c, text, Undos(s));
  }

  /** With nothing to store, the redo stack grows by the reverse record as it stands. */
  lemma PushedUnstored(c: Caps, s: Store, text: Text)
    requires Sized(c, s) && Valid(s) && CanUndoOn(s, text) && UndoWithin(s) && !Stores(s)
    ensures Pushed(c, s, text, RedoPushed(s, text))
  {
    hide Tiled, EntryOf, Entries, Inverse, Chars, Shrink;
    TopRecord(c, s);
    var p, tail := RedoPushed(s, text), s.rec[s.redoPoint..];
    UnstoredRecord(c, s, text, p.rec[p.redoPoint - 1], tail);
    assert p.rec[p.redoPoint - 1..] == [p.rec[p.redoPoint - 1]] + tail;
  }

  /** Storing characters just below the redo side leaves it intact and extends it by one record,
      provided that record has the length of what is stored. */
  lemma CharsStoredMeans(m: Store, saved: Text)
    requires RedoSide(m) && m.redoPoint > 0 && 0 < |saved| <= m.redoCharPoint
    ensures var p := CharsStored(m, saved); var r := p.rec[m.redoPoint - 1];
      && Entries(p.rec[m.redoPoint - 1..], p.chars) == [EntryOf(r, p.chars)] + Redos(m)
      && Fields(r) == Fields(m.rec[m.redoPoint - 1])
      && (r.where >= 0 && r.deleteLength >= 0 && r.insertLength == |saved| ==>
           && Tiled(p.rec[m.redoPoint - 1..], p.redoCharPoint, |m.chars|)
           && EntryOf(r, p.chars) == Entry(r.where, saved, r.deleteLength))
      && (r.insertLength != |saved| ==> |EntryOf(r, p.chars).ins| != |saved|)
  {
    var p, tail := CharsStored(m, saved), m.rec[m.redoPoint..];
    StoredTail(m, saved);
    assert p.rec[m.redoPoint - 1..] == [p.rec[m.redoPoint - 1]] + tail;
    EntriesCons(p.rec[m.redoPoint - 1], tail, p.chars);
    assert p.chars[p.redoCharPoint..m.redoCharPoint] == saved;
  }

  lemma StoredTail(m: Store, saved: Text)
    requires RedoSide(m) && m.redoPoint > 0 && |saved| <= m.redoCharPoint
    ensures Entries(m.rec[m.redoPoint..], CharsStored(m, saved).chars) == Redos(m)
  {
    hide Tiled, EntryOf, Entries;
    var p, tail := CharsStored(m, saved), m.rec[m.redoPoint..];
    EntriesMoved(tail, tail, m.redoCharPoint, |m.chars|, m.chars, p.chars, 0);
  }

  /** The heart of the matter: which record the saved characters end up in. */
  lemma StoredRecord(c: Caps, s: Store)
    requires Sized(c, s) && Valid(s) && Loose(s) && s.undoPoint > 0 && UndoWithin(s) && Stores(s)
    ensures 0 < Cleared(s).redoPoint <= |Cleared(s).rec|
    ensures var (where, ins, del) := Fields(Cleared(s).rec[Cleared(s).redoPoint - 1]); var u := Last(Undos(s));
      && where >= 0 && ins >= 0 && del >= 0
      && (where == u.where && ins == u.del && del == |u.ins| <==> Intact(c, Undos(s), Redos(s)))
  {
    hide Tiled, Entries, Cleared, Chars, Lossy, UndoWithin;
    TopRecord(c, s);
    RedoSpace(s);
    ClearedSlot(s);
    if s.undoCharPoint + s.rec[s.undoPoint - 1].deleteLength > s.redoCharPoint {
      if s.redoPoint == |s.rec| { NothingLeft(s); }
      TopRedo(s);
    }
  }

  /** After making room the redo side is what the entries say. */
  lemma ClearedRoom(c: Caps, s: Store)
    requires Sized(c, s) && Valid(s) && Loose(s) && s.undoPoint > 0 && UndoWithin(s) && Stores(s)
    ensures var m := Cleared(s);
      && RedoSide(m) && s.undoCharPoint + s.rec[s.undoPoint - 1].deleteLength <= m.redoCharPoint
      && Redos(m) == UndoKept(c, Undos(s), Redos(s))
  {
    hide Tiled, Entries, Chars, RoomFor, Released, LooseRecord;
    TopRecord(c, s);
    RedoSpace(s);
    SlotFilledKeeps(s, s.rec[s.undoPoint - 1]);
    RoomForRoom(SlotFilled(s, s.rec[s.undoPoint - 1]), s.rec[s.undoPoint - 1].deleteLength);
    ShrinkDone(Redos(s), c.chars - s.undoCharPoint - s.rec[s.undoPoint - 1].deleteLength);
  }

  lemma ShrinkDone(redo: seq<Entry>, space: int)
    ensures Chars(redo) <= space ==> Shrink(redo, space) == redo
  {}

  lemma PushedStored(c: Caps, s: Store, text: Text)
    requires Sized(c, s) && Valid(s) && CanUndoOn(s, text) && UndoWithin(s) && Stores(s)
    ensures Pushed(c, s, text, RedoPushed(s, text))
  {
    hide Tiled, Entries, Cleared, CharsStored, RedoPushed, Chars, Lossy, UndoWithin, UndoSide, RedoSide, EntryOf,
      Intact, UndoKept, RawSide;
    TopRecord(c, s);
    var u, m := s.rec[s.undoPoint - 1], Cleared(s);
    ClearedRoom(c, s);
    ClearedKeeps(s);
    ClearedSlot(s);
    ClearedStores(s, text);
    StoredRecord(c, s);
    var saved := text[u.where..u.where + u.deleteLength];
    assert UndoEntry(c, text, Undos(s)) == Entry(u.where, saved, u.insertLength);
    CharsStoredSide(s, m, saved);
    CharsStoredMeans(m, saved);
  }

  /** Undo on the storage is undo on the entries exactly when it is intact. */
  lemma PoppedMeans(c: Caps, s: Store, text: Text)
    requires Sized(c, s) && Valid(s) && CanUndoOn(s, text)
    ensures UndoWithin(s) && Through(c, Undos(s), RawSide(s))
    ensures var s' := Popped(RedoPushed(s, text), |Last(Undos(s)).ins|); var undo, redo := Undos(s), Redos(s);
      && Loose(s')
      && (RedoAfter(c, text, undo, redo, Redos(s')) <==> Intact(c, undo, redo))
      && (Intact(c, undo, redo) ==> Valid(s'))
  {
    hide Tiled, Entries, EntryOf, RedoPushed, Chars, Lossy, Intact, UndoKept, Released, Sum, RedoAfter;
    SoundWithin(c, s);
    ThroughMeans(c, s, text);
    if Stores(s) { PushedStored(c, s, text); } else { PushedUnstored(c, s, text); }
    var s' := Popped(RedoPushed(s, text), |Last(Undos(s)).ins|);
    RedosAre(s');
    RedoAfterIs(c, text, Undos(s), Redos(s), Redos(s'));
  }

  /** On a redo side in order nothing goes beyond the array and undo gets through. */
  lemma SoundWithin(c: Caps, s: Store)
    requires Sized(c, s) && Valid(s) && s.undoPoint > 0
    ensures Loose(s) && UndoWithin(s) && Through(c, Undos(s), RawSide(s))
  {
    hide Tiled, Entries, Chars, Released, LooseRecord, UndoSide, RedoSide, Undos, Redos, Lossy, UndoWithin;
    RedoSideLoose(s);
    TopRecord(c, s);
    LengthsSum(Redos(s));
    ReleasedEnough(RawSide(s), s.undoCharPoint + s.rec[s.undoPoint - 1].deleteLength);
  }

  /** After an undo that was not intact the newest redo record is a copy of the one before it, with
      the storage of the characters just deleted. */
  lemma TornRecord(c: Caps, s: Store, text: Text)
    requires Sized(c, s) && Valid(s) && CanUndoOn(s, text) && !Intact(c, Undos(s), Redos(s))
    ensures UndoWithin(s) && s.redoPoint < |s.rec|
    ensures var s' := Popped(RedoPushed(s, text), |Last(Undos(s)).ins|);
      0 <= s'.redoPoint < |s'.rec| && Fields(s'.rec[s'.redoPoint]) == Fields(s.rec[s.redoPoint])
  {
    hide Tiled, Entries, EntryOf, RedoPushed, Chars, Cleared, RoomWithin, Sum, RawSide;
    SoundWithin(c, s);
    TopRecord(c, s);
    RedoSpace(s);
    if s.redoPoint == |s.rec| { NothingLeft(s); }
    ClearedSlot(s);
    ClearedRoom(c, s);
    ClearedStores(s, text);
  }

  /** So where a session can lead (UndoLimits.MakeRoomIsReached), redo is out of place: after the undo
      the text is empty, and the newest redo record belongs behind 500 characters. */
  lemma RedoMisplaced(c: Caps, s: Store, text: Text, b: Text, b': Text)
    requires Sized(c, s) && c.chars == 999 && Valid(s) && |text| == 500 && |b| == |b'| == 300
    requires Undos(s) == [Entry(0, [], 500)] && Redos(s) == [Entry(500, b, 0), Entry(800, b', 0)]
    ensures CanUndoOn(s, text) && UndoWithin(s) && Apply(text, Last(Undos(s))) == ""
    ensures var s' := Popped(RedoPushed(s, text), 0);
      Shape(s') && Redos(s') != [] && Redos(s')[0].where == 500 && !InRange("", Redos(s')[0])
  {
    hide Tiled, EntryOf, RedoPushed, UndoWithin, RoomWithin;
    RedoSideLoose(s);
    assert |Undos(s)| == s.undoPoint;
    TopUndo(s);
    TopRedo(s);
    RedoSpace(s);
    UndoSpace(s);
    TornRecord(c, s, text);
    PoppedMeans(c, s, text);
    FirstRedo(Popped(RedoPushed(s, text), 0));
  }

  lemma FirstRedo(s: Store)
    requires Shape(s) && s.redoPoint < |s.rec| && s.rec[s.redoPoint].where >= 0
    ensures Redos(s) != [] && Redos(s)[0].where == s.rec[s.redoPoint].where
  {}

  // ---------------------------------------------------------------- redo

  predicate CanRedoOn(s: Store, text: Text) {
    Valid(s) && s.redoPoint < |s.rec| && InRange(text, Redos(s)[0])
  }

  /** Everything redo does before it changes the text. */
  function UndoPushed(s: Store, text: Text): Store
    requires CanRedoOn(s, text)
  {
    TopRedo(s);
    var r := s.rec[s.redoPoint];
    var u := UndoRecord(r.where, r.deleteLength, r.insertLength, -1);
    if r.deleteLength == 0 then s.(rec := s.rec[s.undoPoint := u])
    else if s.undoCharPoint + r.deleteLength > s.redoCharPoint then
      s.(rec := s.rec[s.undoPoint := u.(insertLength := 0, deleteLength := 0)])
    else
      s.(rec := s.rec[s.undoPoint := u.(charStorage := s.undoCharPoint)],
         undoCharPoint := s.undoCharPoint + r.deleteLength,
         chars := Overwritten(s.chars, s.undoCharPoint, text[r.where..r.where + r.deleteLength]))
  }

  function Redone(s: Store, text: Text): Store
    requires CanRedoOn(s, text)
  {
    var p := UndoPushed(s, text);
    p.(undoPoint := p.undoPoint + 1,
       redoPoint := p.redoPoint + 1,
       redoCharPoint := p.redoCharPoint + s.rec[s.redoPoint].insertLength)
  }

  function RedoEntry(c: Caps, s: Store, text: Text): Entry
    requires CanRedoOn(s, text)
  {
    if RedoHasRoom(c, Undos(s), Redos(s)) then Inverse(text, Redos(s)[0]) else Entry(Redos(s)[0].where, [], 0)
  }

  /** Preparing the undo record stays below the redo side. */
  lemma UndoPushedBelow(s: Store, text: Text)
    requires CanRedoOn(s, text)
    ensures var p := UndoPushed(s, text);
      && |p.rec| == |s.rec| && |p.chars| == |s.chars|
      && p.undoPoint == s.undoPoint && p.redoPoint == s.redoPoint && p.redoCharPoint == s.redoCharPoint
      && s.undoCharPoint <= p.undoCharPoint <= s.redoCharPoint
      && (forall i | s.redoPoint < i < |s.rec| :: p.rec[i] == s.rec[i])
      && (forall k | s.redoCharPoint <= k < |s.chars| :: p.chars[k] == s.chars[k])
  {
    hide Tiled, EntryOf, Entries;
    TopRedo(s);
  }

  lemma RedoneRedoSide(s: Store, text: Text)
    requires CanRedoOn(s, text)
    ensures var s' := Redone(s, text);
      && RedoSide(s') && Redos(s') == Redos(s)[1..]
      && |s'.rec| == |s.rec| && |s'.chars| == |s.chars|
      && s'.undoCharPoint <= s'.redoCharPoint
      && s'.chars[s.redoCharPoint..] == s.chars[s.redoCharPoint..]
  {
    hide Tiled, EntryOf, Entries, UndoPushed, Redos;
    TopRedo(s);
    UndoPushedBelow(s, text);
    var s', tail := Redone(s, text), s.rec[s.redoPoint + 1..];
    assert s'.rec[s'.redoPoint..] == tail;
    EntriesMoved(tail, tail, s'.redoCharPoint, |s.chars|, s.chars, s'.chars, 0);
    RedosAre(s);
    RedosAre(s');
    EntriesTail(s.rec[s.redoPoint..], s.chars);
    assert s.rec[s.redoPoint..][1..] == tail;
  }

  lemma EntriesTail(rs: seq<UndoRecord>, chars: seq<char>)
    requires rs != []
    ensures Entries(rs, chars)[1..] == Entries(rs[1..], chars)
  {
    hide EntryOf;
  }

  lemma RedoneUndoSide(c: Caps, s: Store, text: Text)
    requires Sized(c, s) && CanRedoOn(s, text)
    ensures var s' := Redone(s, text);
      UndoSide(s') && Undos(s') == Undos(s) + [RedoEntry(c, s, text)]
  {
    var s', front := Redone(s, text), s.rec[..s.undoPoint];
    var u := s'.rec[s.undoPoint];
    RedoneRecord(c, s, text);
    assert s'.rec[..s'.undoPoint] == front + [u];
    TiledConcat(front, [u], 0, s.undoCharPoint, s'.undoCharPoint);
    forall k | 0 <= k < s.undoCharPoint ensures s'.chars[k] == s.chars[k] {
      assert s'.chars[..s.undoCharPoint][k] == s.chars[..s.undoCharPoint][k];
    }
    EntriesMoved(front, front, 0, s.undoCharPoint, s.chars, s'.chars, 0);
  }

  lemma RedoneRecord(c: Caps, s: Store, text: Text)
    requires Sized(c, s) && CanRedoOn(s, text)
    ensures var s' := Redone(s, text); var u := s'.rec[s.undoPoint];
      && StoredAt(u, s.undoCharPoint)
      && s.undoCharPoint + u.insertLength == s'.undoCharPoint <= |s.chars| == |s'.chars|
      && EntryOf(u, s'.chars) == RedoEntry(c, s, text)
      && s'.rec[..s.undoPoint] == s.rec[..s.undoPoint]
      && s'.chars[..s.undoCharPoint] == s.chars[..s.undoCharPoint]
  {
    hide Tiled, Entries, Chars;
    TopRedo(s);
    UndoSpace(s);
    RedoSpace(s);
    var s' := Redone(s, text);
    var u := s'.rec[s.undoPoint];
    assert s'.undoCharPoint > s.undoCharPoint ==>
      s'.chars[s.undoCharPoint..s'.undoCharPoint] == text[u.where..u.where + u.insertLength];
  }

  /** Redo on the storage is redo on the entries. */
  lemma RedoneMeans(c: Caps, s: Store, text: Text)
    requires Sized(c, s) && CanRedoOn(s, text)
    ensures var s' := Redone(s, text);
      && Valid(s') && Sized(c, s')
      && Undos(s') == Undos(s) + [RedoEntry(c, s, text)]
      && Redos(s') == Redos(s)[1..]
  {
    RedoneRedoSide(s, text);
    RedoneUndoSide(c, s, text);
  }
}
