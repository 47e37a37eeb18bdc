/** The undo engine as the editor runs it, in place on one array of records and one of characters. */
module UndoEngine {
  import opened UndoModel
  import opened UndoStore
  import opened UndoSteps

  class UndoState {
    const caps: Caps
    const undoRec: array<UndoRecord>
    const undoChar: array<char>
    var undoPoint: int
    var redoPoint: int
    var undoCharPoint: int
    var redoCharPoint: int

    ghost function Raw(): Store
      reads this, undoRec, undoChar
    {
      Store(undoRec[..], undoChar[..], undoPoint, redoPoint, undoCharPoint, redoCharPoint)
    }

    ghost predicate Allocated() {
      caps.records > 0 && undoRec.Length == caps.records && undoChar.Length == caps.chars
    }

    ghost predicate HasUndoSide()
      reads this, undoRec, undoChar
    {
      Allocated() && UndoSide(Raw())
    }

    ghost predicate HasRedoSide()
      reads this, undoRec, undoChar
    {
      Allocated() && RedoSide(Raw())
    }

    ghost predicate IsValid()
      reads this, undoRec, undoChar
    {
      Allocated() && Valid(Raw())
    }

    constructor (caps: Caps)
      requires caps.records > 0
      ensures IsValid() && this.caps == caps && fresh(undoRec) && fresh(undoChar)
      ensures Undos(Raw()) == [] && Redos(Raw()) == []
    {
      this.caps := caps;
      undoRec := new UndoRecord[caps.records](_ => UndoRecord(0, 0, 0, 0));
      undoChar := new char[caps.chars](_ => '\0');
      undoPoint, undoCharPoint := 0, 0;
      redoPoint, redoCharPoint := caps.records, caps.chars;
    }

    method FlushRedo()
      requires HasUndoSide()
      modifies this`redoPoint, this`redoCharPoint
      ensures Raw() == old(Raw()).(redoPoint := caps.records, redoCharPoint := caps.chars)
      ensures IsValid() && Undos(Raw()) == old(Undos(Raw())) && Redos(Raw()) == []
    {
      redoPoint := caps.records;
      redoCharPoint := caps.chars;
    }

    /** The loops that renumber the storage of records `from..to`. */
    method Renumber(from: int, to: int, n: int)
      requires 0 <= from <= to <= undoRec.Length
      modifies undoRec
      ensures undoRec[..] == Renumbered(old(undoRec[..]), from, to, n)
    {
      for i := from to to
        invariant forall j | 0 <= j < undoRec.Length ::
          undoRec[j] == if from <= j < i then Shifted(old(undoRec[j]), n) else old(undoRec[j])
      {
        if undoRec[i].charStorage >= 0 {
          undoRec[i] := undoRec[i].(charStorage := undoRec[i].charStorage + n);
        }
      }
    }

    /** memmove on the records. */
    method MoveRecords(to: int, from: int, count: int)
      requires 0 <= to <= to + count <= undoRec.Length && 0 <= from <= from + count <= undoRec.Length
      modifies undoRec
      ensures undoRec[..] == Moved(old(undoRec[..]), to, from, count)
    {
      forall k | 0 <= k < count { undoRec[to + k] := undoRec[from + k]; }
    }

    /** memmove on the characters. */
    method MoveChars(to: int, from: int, count: int)
      requires 0 <= to <= to + count <= undoChar.Length && 0 <= from <= from + count <= undoChar.Length
      modifies undoChar
      ensures undoChar[..] == Moved(old(undoChar[..]), to, from, count)
    {
      forall k | 0 <= k < count { undoChar[to + k] := undoChar[from + k]; }
    }

    method DiscardUndo()
      requires HasUndoSide()
      modifies this`undoPoint, this`undoCharPoint, undoRec, undoChar
      ensures Raw() == UndoDiscarded(old(Raw()))
    {
      hide Tiled, Length, Moved, Renumbered;
      if undoPoint > 0 {
        ghost var s := Raw();
        TiledAt(s.rec[..undoPoint], 0, undoCharPoint, 0);
        if undoRec[0].charStorage >= 0 {
          var n := undoRec[0].insertLength;
          undoCharPoint := undoCharPoint - n;
          MoveChars(0, n, undoCharPoint);
          Renumber(0, undoPoint, -n);
        } else {
          NothingMoved(s.rec, 0, undoPoint, s.chars, 0, undoCharPoint);
        }
        undoPoint := undoPoint - 1;
        ghost var n := s.rec[0].insertLength;
        assert undoRec[..] == Renumbered(s.rec, 0, s.undoPoint, -n);
        assert undoChar[..] == Moved(s.chars, 0, n, s.undoCharPoint - n);
        MoveRecords(0, 1, undoPoint);
      }
    }

    /** Throws away the redo record that would be replayed last.  When the lengths of the records do not
        add up, the characters can have no place within the array; what the move does then is not
        defined, and the model stops before it. */
    method DiscardRedo() returns (moved: bool)
      requires Allocated() && LooseRedo(Raw())
      modifies this`redoPoint, this`redoCharPoint, undoRec, undoChar
      ensures moved == Movable(old(Raw()))
      ensures Raw() == if moved then RedoDiscarded(old(Raw())) else old(Raw())
    {
      hide Moved, Renumbered;
      var k := caps.records - 1;
      if redoPoint <= k {
        if redoCharPoint + undoRec[k].insertLength > caps.chars {
          return false;
        }
        ghost var s, d := Raw(), RedoDiscarded(Raw());
        if undoRec[k].charStorage >= 0 {
          var n := undoRec[k].insertLength;
          redoCharPoint := redoCharPoint + n;
          MoveChars(redoCharPoint, redoCharPoint - n, caps.chars - redoCharPoint);
          Renumber(redoPoint, k, n);
        } else {
          NothingMoved(s.rec, redoPoint, k, s.chars, redoCharPoint, caps.chars - redoCharPoint);
        }
        assert undoRec[..] == Renumbered(s.rec, redoPoint, k, s.rec[k].insertLength);
        assert undoChar[..] == d.chars;
        MoveRecords(redoPoint + 1, redoPoint, caps.records - redoPoint - 1);
        assert undoRec[..] == d.rec;
        redoPoint := redoPoint + 1;
      }
      return true;
    }

    // -------------------------------------------------------------- recording

    /** Frees records and characters for a new undo record; -1 when the characters can never fit. */
    method CreateUndoRecord(numchars: nat) returns (slot: int)
      requires HasUndoSide()
      modifies this, undoRec, undoChar
      ensures redoPoint == caps.records && redoCharPoint == caps.chars
      ensures numchars > caps.chars ==> slot == -1 && IsValid() && Undos(Raw()) == []
      ensures numchars <= caps.chars ==>
        && 0 <= slot < caps.records && undoPoint == slot + 1
        && 0 <= undoCharPoint <= undoCharPoint + numchars <= caps.chars
        && Tiled(undoRec[..][..slot], 0, undoCharPoint)
        && forall e: Entry | |e.ins| == numchars ::
             Record(caps, old(Undos(Raw())), e) == Entries(undoRec[..][..slot], undoChar[..]) + [e]
    {
      hide Tiled, UndoDiscarded, Trim, Chars, Entries;
      ghost var undos := Undos(Raw());
      FlushRedo();
      if undoPoint == caps.records {
        UndoDiscardedMeans(Raw());
        DiscardUndo();
      }
      if numchars > caps.chars {
        undoPoint := 0;
        undoCharPoint := 0;
        NothingToUndo(Raw());
        return -1;
      }
      MakeUndoRoom(numchars);
      slot := undoPoint;
      undoPoint := undoPoint + 1;
      assert undoRec[..][..slot] == undoRec[..slot];
    }

    /** Throws away the oldest undo records until `need` more characters fit. */
    method MakeUndoRoom(need: nat)
      requires HasUndoSide() && need <= caps.chars
      modifies this`undoPoint, this`undoCharPoint, undoRec, undoChar
      ensures HasUndoSide() && undoPoint <= old(undoPoint)
      ensures undoCharPoint + need <= caps.chars
      ensures Undos(Raw()) == Trim(old(Undos(Raw())), need, caps.chars)
    {
      hide Tiled, UndoDiscarded, Trim, Chars, Entries;
      UndoSpace(Raw());
      while undoCharPoint + need > caps.chars
        invariant HasUndoSide() && undoPoint <= old(undoPoint)
        invariant undoCharPoint == Chars(Undos(Raw()))
        invariant Trim(Undos(Raw()), need, caps.chars) == Trim(old(Undos(Raw())), need, caps.chars)
        decreases undoPoint
      {
        UndoDiscardedMeans(Raw());
        TrimStep(Undos(Raw()), need, caps.chars);
        DiscardUndo();
        UndoSpace(Raw());
      }
      TrimStep(Undos(Raw()), need, caps.chars);
    }

    /** Writes a record; the characters it will own start at `p`, or `p` is -1 if there are none. */
    method CreateUndo(pos: nat, insertLen: nat, deleteLen: nat) returns (p: int)
      requires HasUndoSide()
      modifies this, undoRec, undoChar
      ensures IsValid() && Redos(Raw()) == []
      ensures insertLen > caps.chars ==>
        p == -1 && forall e: Entry | |e.ins| == insertLen :: Undos(Raw()) == Record(caps, old(Undos(Raw())), e)
      ensures insertLen == 0 ==> p == -1 && Undos(Raw()) == Record(caps, old(Undos(Raw())), Entry(pos, [], deleteLen))
      ensures 0 < insertLen <= caps.chars ==>
        && p >= 0 && p + insertLen == undoCharPoint && undoPoint > 0
        && undoRec[undoPoint - 1] == UndoRecord(pos, insertLen, deleteLen, p)
        && |Undos(Raw())| == undoPoint && Last(Undos(Raw())).where == pos && Last(Undos(Raw())).del == deleteLen
        && forall e: Entry | |e.ins| == insertLen ::
             Record(caps, old(Undos(Raw())), e) == Undos(Raw())[..undoPoint - 1] + [e]
    {
      hide Tiled, Entries, Valid, Record;
      ghost var undos := Undos(Raw());
      var slot := CreateUndoRecord(insertLen);
      if slot == -1 {
        NothingToRedo(Raw());
        forall e: Entry | |e.ins| == insertLen ensures Record(caps, undos, e) == [] { TooLarge(caps, undos, e); }
        return -1;
      }
      ghost var s := Raw();
      undoRec[slot] := UndoRecord(pos, insertLen, deleteLen, -1);
      if insertLen == 0 {
        p := -1;
      } else {
        p := undoCharPoint;
        undoRec[slot] := undoRec[slot].(charStorage := p);
        undoCharPoint := undoCharPoint + insertLen;
      }
      assert Raw() == Written(s, undoRec[slot]);
      WrittenMeans(s, undoRec[slot]);
    }

    method MakeUndoInsert(where: nat, length: nat)
      requires HasUndoSide()
      modifies this, undoRec, undoChar
      ensures IsValid() && Redos(Raw()) == []
      ensures Undos(Raw()) == Record(caps, old(Undos(Raw())), Entry(where, [], length))
    {
      var _ := CreateUndo(where, 0, length);
    }

    method MakeUndoDelete(text: Text, where: nat, length: nat)
      requires HasUndoSide() && where + length <= |text|
      modifies this, undoRec, undoChar
      ensures IsValid() && Redos(Raw()) == []
      ensures Undos(Raw()) == Record(caps, old(Undos(Raw())), Entry(where, text[where..where + length], 0))
    {
      hide Tiled, Entries, EntryOf, Record, Chars;
      var p := CreateUndo(where, length, 0);
      if p >= 0 {
        SaveUndoChars(text, where, length, p);
      }
    }

    method MakeUndoReplace(text: Text, where: nat, oldLength: nat, newLength: nat)
      requires HasUndoSide() && where + oldLength <= |text|
      modifies this, undoRec, undoChar
      ensures IsValid() && Redos(Raw()) == []
      ensures Undos(Raw()) == Record(caps, old(Undos(Raw())), Entry(where, text[where..where + oldLength], newLength))
    {
      hide Tiled, Entries, EntryOf, Record, Chars;
      var p := CreateUndo(where, oldLength, newLength);
      if p >= 0 {
        SaveUndoChars(text, where, oldLength, p);
      }
    }

    /** Copies the characters about to be deleted into the newest undo record. */
    method SaveUndoChars(text: Text, where: nat, length: nat, p: nat)
      requires IsValid() && where + length <= |text| && undoPoint > 0 && length > 0
      requires p + length == undoCharPoint
      requires undoRec[undoPoint - 1].charStorage == p && undoRec[undoPoint - 1].insertLength == length
      modifies undoChar
      ensures IsValid()
      ensures var es := old(Undos(Raw()));
        Undos(Raw()) == es[..undoPoint - 1] + [Entry(Last(es).where, text[where..where + length], Last(es).del)]
      ensures Redos(Raw()) == old(Redos(Raw()))
    {
      hide Tiled, Entries, Overwritten;
      ghost var s := Raw();
      SaveChars(text, where, length, p);
      NewestSaved(s, text[where..where + length]);
    }

    /** The loops that copy `length` characters of the text into the array. */
    method SaveChars(text: Text, where: nat, length: nat, p: nat)
      requires where + length <= |text| && p + length <= undoChar.Length
      modifies undoChar
      ensures undoChar[..] == Overwritten(old(undoChar[..]), p, text[where..where + length])
    {
      for i := 0 to length
        invariant forall k | 0 <= k < undoChar.Length ::
          undoChar[k] == if p <= k < p + i then text[where + k - p] else old(undoChar[k])
      {
        undoChar[p + i] := text[where + i];
      }
    }

    // -------------------------------------------------------------- the redo record of an undo

    /** Throws away redo records until `need` more characters fit below the redo characters, or gives
        up when no record is left, or stops before a move that would leave the array. */
    method MakeRedoRoom(need: nat) returns (outcome: Outcome)
      requires Allocated() && LooseRedo(Raw())
      modifies this`redoPoint, this`redoCharPoint, undoRec, undoChar
      ensures outcome == Leaves <==> !RoomWithin(old(Raw()), need)
      ensures outcome != Leaves ==>
        Raw() == RoomFor(old(Raw()), need) && (outcome == Restores <==> undoCharPoint + need <= redoCharPoint)
      ensures outcome == Leaves ==>
        LooseRedo(Raw()) && !Movable(Raw()) && undoCharPoint + need > redoCharPoint
      ensures old(RedoSide(Raw())) && undoCharPoint + need <= caps.chars ==> outcome == Restores
    {
      hide Released, LooseRecord, Movable, RedoDiscarded, RedoSide, RoomWithin;
      ghost var s := Raw();
      if RedoSide(s) && undoCharPoint + need <= caps.chars { RoomForRoom(s, need); }
      while undoCharPoint + need > redoCharPoint
        invariant undoCharPoint == s.undoCharPoint && LooseRedo(Raw())
        invariant RoomWithin(s, need) <==> RoomWithin(Raw(), need)
        invariant RoomWithin(s, need) ==> RoomFor(Raw(), need) == RoomFor(s, need)
        decreases caps.records - redoPoint
      {
        if redoPoint == caps.records {
          RoomDone(Raw(), need);
          return GivesUp;
        }
        RoomStep(Raw(), need);
        var moved := DiscardRedo();
        if !moved {
          return Leaves;
        }
      }
      RoomDone(Raw(), need);
      return Restores;
    }

    /** Prepares the redo record for undoing the newest record in the slot below the redo records. */
    method PushRedo(u: UndoRecord, text: Text) returns (outcome: Outcome)
      requires Allocated() && CanUndoOn(Raw(), text) && u == undoRec[undoPoint - 1]
      modifies this`redoPoint, this`redoCharPoint, undoRec, undoChar
      ensures outcome == OutcomeOf(caps, old(Undos(Raw())), RawSide(old(Raw())))
      ensures outcome == Leaves <==> !UndoWithin(old(Raw()))
      ensures outcome != Leaves ==> Raw() == RedoPushed(old(Raw()), text)
    {
      hide Released, RoomFor, Chars, Tiled, EntryOf, Entries, Sum, RoomWithin, Cleared;
      ghost var s := Raw();
      TopRecord(caps, s);
      outcome := Restores;
      var r := redoPoint - 1;
      undoRec[r] := UndoRecord(u.where, u.deleteLength, u.insertLength, -1);
      assert Raw() == SlotFilled(s, u);
      if u.deleteLength != 0 {
        if undoCharPoint + u.deleteLength >= caps.chars {
          undoRec[r] := undoRec[r].(insertLength := 0);
          assert Raw() == SlotFilled(s, u.(deleteLength := 0));
        } else {
          outcome := PushStored(u, text, s);
          if outcome != Leaves { ClearedDecides(caps, s); }
        }
      }
    }

    /** The part of it that stores the characters the undo deletes. */
    method PushStored(u: UndoRecord, text: Text, ghost s: Store) returns (outcome: Outcome)
      requires Allocated() && Sized(caps, s) && CanUndoOn(s, text) && Stores(s)
      requires u == s.rec[s.undoPoint - 1] && Raw() == SlotFilled(s, u)
      modifies this`redoPoint, this`redoCharPoint, undoRec, undoChar
      ensures outcome == Leaves <==> !UndoWithin(s)
      ensures outcome != Leaves ==>
        && Raw() == RedoPushed(s, text)
        && (outcome == Restores <==> s.undoCharPoint + u.deleteLength <= Cleared(s).redoCharPoint)
    {
      hide Released, RoomFor, Tiled, EntryOf, Entries, LooseRecord, CharsStored, UndoSide, SlotFilled;
      TopUndo(s);
      SlotFilledShape(s, u);
      SlotFilledKeeps(s, u);
      outcome := MakeRedoRoom(u.deleteLength);
      if outcome == Leaves {
        return;
      }
      ClearedFits(s);
      if outcome == Restores {
        ClearedStores(s, text);
        StoreChars(text, u.where, u.deleteLength);
      }
    }

    /** Saves the characters an undo deletes.  The redo record is looked up again: after making
        room it may be another slot than the one that was filled in. */
    method StoreChars(text: Text, where: nat, length: nat)
      requires Allocated() && Shape(Raw()) && redoPoint > 0
      requires where + length <= |text| && length <= redoCharPoint <= caps.chars
      modifies this`redoCharPoint, undoRec, undoChar
      ensures Raw() == CharsStored(old(Raw()), text[where..where + length])
    {
      var r := redoPoint - 1;
      undoRec[r] := undoRec[r].(charStorage := redoCharPoint - length);
      redoCharPoint := redoCharPoint - length;
      SaveChars(text, where, length, undoRec[r].charStorage);
    }

    /** The storage side of undo: the newest undo record becomes a redo record, unless no room can be
        made for it.  Returns what the record says to do to the text; the characters it inserts are
        read before they are released.  After an undo that leaves the array nothing is known. */
    method MoveToRedo(text: Text) returns (outcome: Outcome, where: nat, del: nat, ins: Text)
      requires Allocated() && CanUndoOn(Raw(), text)
      requires IsValid() || undoPoint < redoPoint
      modifies this, undoRec, undoChar
      ensures outcome == OutcomeOf(caps, old(Undos(Raw())), RawSide(old(Raw())))
      ensures outcome != Leaves ==>
        && Loose(Raw()) && RawSide(Raw()) == Reserved(caps, old(Undos(Raw())), RawSide(old(Raw())))
      ensures outcome == Restores ==>
        && Entry(where, ins, del) == Last(old(Undos(Raw())))
        && Undos(Raw()) == old(Undos(Raw()))[..old(undoPoint) - 1]
      ensures outcome == GivesUp ==> Undos(Raw()) == old(Undos(Raw()))
      ensures old(IsValid()) ==>
        var undo, redo := old(Undos(Raw())), old(Redos(Raw()));
        && outcome == Restores
        && (RedoAfter(caps, text, undo, redo, Redos(Raw())) <==> Intact(caps, undo, redo))
        && (Intact(caps, undo, redo) ==> IsValid())
    {
      hide Tiled, Entries, EntryOf, RedoPushed, Chars, UndoWithin, Through, Reserved, Within, Intact, RedoAfter,
        LooseRecord, UndoSideKept, Lossy, Undos, Redos, RawSide;
      ghost var s, valid := Raw(), IsValid();
      TopRecord(caps, s);
      TopUndo(s);
      var u := undoRec[undoPoint - 1];
      where, del, ins := u.where, u.deleteLength, [];
      if valid { PoppedMeans(caps, s, text); }
      outcome := PushRedo(u, text);
      if outcome == Leaves {
        return;
      }
      if outcome == GivesUp {
        GivenUpMeans(caps, s, text);
        return;
      }
      ThroughMeans(caps, s, text);
      ghost var p := Raw();
      if u.insertLength != 0 {
        StillThere(s, p);
        ins := undoChar[u.charStorage..u.charStorage + u.insertLength];
        undoCharPoint := undoCharPoint - u.insertLength;
      }
      undoPoint := undoPoint - 1;
      redoPoint := redoPoint - 1;
      assert Raw() == Popped(p, |Last(Undos(s)).ins|);
    }

    /** The storage side of redo: the newest redo record becomes an undo record. */
    method MoveToUndo(text: Text) returns (where: nat, del: nat, ins: Text)
      requires Allocated() && CanRedoOn(Raw(), text)
      modifies this, undoRec, undoChar
      ensures Entry(where, ins, del) == old(Redos(Raw()))[0]
      ensures IsValid() && Redos(Raw()) == old(Redos(Raw()))[1..]
      ensures Undos(Raw()) == old(Undos(Raw())) + [RedoEntry(caps, old(Raw()), text)]
    {
      hide Tiled, EntryOf, Entries, Inverse, LooseRecord, Overwritten, Chars;
      ghost var s := Raw();
      TopRedo(s);
      var r := undoRec[redoPoint];
      where, del, ins := r.where, r.deleteLength, [];
      PushUndo(r, text);
      if r.insertLength != 0 {
        RedoStillThere(s, text);
        ins := undoChar[r.charStorage..r.charStorage + r.insertLength];
        redoCharPoint := redoCharPoint + r.insertLength;
      }
      undoPoint := undoPoint + 1;
      redoPoint := redoPoint + 1;
      assert Raw() == Redone(s, text);
      RedoneMeans(caps, s, text);
    }

    /** Prepares the undo record for redoing `r` in the slot above the undo records. */
    method PushUndo(r: UndoRecord, text: Text)
      requires Allocated() && CanRedoOn(Raw(), text) && r == undoRec[redoPoint]
      modifies this`undoCharPoint, undoRec, undoChar
      ensures Raw() == UndoPushed(old(Raw()), text)
    {
      hide Tiled, Entries, Overwritten;
      TopRedo(Raw());
      var u := undoPoint;
      undoRec[u] := UndoRecord(r.where, r.deleteLength, r.insertLength, -1);
      if r.deleteLength != 0 {
        if undoCharPoint + undoRec[u].insertLength > redoCharPoint {
          undoRec[u] := undoRec[u].(insertLength := 0);
          undoRec[u] := undoRec[u].(deleteLength := 0);
        } else {
          undoRec[u] := undoRec[u].(charStorage := undoCharPoint);
          undoCharPoint := undoCharPoint + undoRec[u].insertLength;
          SaveChars(text, r.where, undoRec[u].insertLength, undoRec[u].charStorage);
        }
      }
    }
  }

  lemma TooLarge(c: Caps, undo: seq<Entry>, e: Entry)
    requires |e.ins| > c.chars
    ensures Record(c, undo, e) == []
  {}

  lemma RedoStillThere(s: Store, text: Text)
    requires CanRedoOn(s, text) && s.rec[s.redoPoint].insertLength > 0
    ensures var r := s.rec[s.redoPoint]; var p := UndoPushed(s, text);
      && 0 <= r.charStorage <= r.charStorage + r.insertLength <= |p.chars|
      && p.chars[r.charStorage..r.charStorage + r.insertLength] == Redos(s)[0].ins
  {
    TopRedo(s);
    RedoneRedoSide(s, text);
    var r, p := s.rec[s.redoPoint], UndoPushed(s, text);
    assert p.chars[s.redoCharPoint..] == s.chars[s.redoCharPoint..];
    assert p.chars[r.charStorage..r.charStorage + r.insertLength] == p.chars[s.redoCharPoint..][..r.insertLength];
    assert s.chars[r.charStorage..r.charStorage + r.insertLength] == s.chars[s.redoCharPoint..][..r.insertLength];
  }

  /** Preparing the redo record leaves the characters of the undone record in place. */
  lemma StillThere(s: Store, p: Store)
    requires UndoSide(s) && s.undoPoint > 0 && UndoSideKept(s, p)
    requires s.rec[s.undoPoint - 1].insertLength > 0
    ensures var u := s.rec[s.undoPoint - 1];
      && 0 <= u.charStorage <= u.charStorage + u.insertLength <= |p.chars|
      && p.chars[u.charStorage..u.charStorage + u.insertLength] == Last(Undos(s)).ins
  {
    TopUndo(s);
    var u := s.rec[s.undoPoint - 1];
    var a, b := u.charStorage, u.charStorage + u.insertLength;
    assert p.chars[a..b] == p.chars[..s.undoCharPoint][a..b];
    assert s.chars[a..b] == s.chars[..s.undoCharPoint][a..b];
  }

  lemma NewestSaved(s: Store, saved: Text)
    requires Valid(s) && s.undoPoint > 0 && 0 < |saved| <= s.undoCharPoint
    requires s.rec[s.undoPoint - 1].insertLength == |saved|
    ensures var s' := s.(chars := Overwritten(s.chars, s.undoCharPoint - |saved|, saved));
      && Valid(s') && Redos(s') == Redos(s)
      && Undos(s') == Undos(s)[..s.undoPoint - 1] + [Entry(Last(Undos(s)).where, saved, Last(Undos(s)).del)]
  {
    hide Tiled, EntryOf, Entries, Overwritten;
    TopUndo(s);
    var at := s.undoCharPoint - |saved|;
    var chars' := Overwritten(s.chars, at, saved);
    OverwrittenAt(s.chars, at, saved);
    var front, tail, u := s.rec[..s.undoPoint - 1], s.rec[s.redoPoint..], s.rec[s.undoPoint - 1];
    EntriesMoved(front, front, 0, at, s.chars, chars', 0);
    EntriesMoved(tail, tail, s.redoCharPoint, |s.chars|, s.chars, chars', 0);
    assert s.rec[..s.undoPoint] == front + [u];
    EntriesSnoc(front, u, s.chars);
    EntriesSnoc(front, u, chars');
    SavedEntry(u, at, chars', saved);
    SavedEntry(u, at, s.chars, s.chars[at..at + |saved|]);
  }

  lemma OverwrittenAt(chars: seq<char>, at: nat, saved: seq<char>)
    requires at + |saved| <= |chars|
    ensures var r := Overwritten(chars, at, saved);
      && r[at..at + |saved|] == saved
      && (forall k | 0 <= k < at :: r[k] == chars[k])
      && (forall k | at + |saved| <= k < |chars| :: r[k] == chars[k])
  {}

  lemma EntriesSnoc(rs: seq<UndoRecord>, r: UndoRecord, chars: seq<char>)
    ensures Entries(rs + [r], chars) == Entries(rs, chars) + [EntryOf(r, chars)]
  {
    hide EntryOf;
  }

  lemma SavedEntry(r: UndoRecord, at: nat, chars: seq<char>, saved: seq<char>)
    requires StoredAt(r, at) && r.insertLength == |saved| > 0 && at + |saved| <= |chars|
    requires chars[at..at + |saved|] == saved
    ensures EntryOf(r, chars) == Entry(r.where, saved, r.deleteLength)
  {}
}
