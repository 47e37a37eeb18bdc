/** The text field: the edits that record undo, and undo and redo themselves. */
module TextEdit {
  import opened UndoModel
  import opened UndoStore
  import opened UndoSteps
  import opened UndoEngine
  import Limits = UndoLimits
  import Sessions = UndoSessions

  /** With nothing to delete or nothing to insert, the call the code skips changes nothing. */
  lemma ApplySkips(t: Text, e: Entry)
    requires InRange(t, e)
    ensures Deleted(t, e.where, 0) == t
    ensures e.where <= |t| && Inserted(t, e.where, []) == t
    ensures e.ins == [] ==> Apply(t, e) == Deleted(t, e.where, e.del)
  {
    if e.ins == [] {
      var d := Deleted(t, e.where, e.del);
      assert Inserted(d, e.where, []) == d;
    }
  }

  /** What is known of the undo storage: both sides are in order, or only the undo side after an undo
      that was not intact, or nothing. */
  datatype Order = InOrder | OutOfOrder | Unknown

  class TextField {
    const undostate: UndoState
    var text: Text
    var cursor: nat
    var selectStart: nat
    var selectEnd: nat
    var insertMode: bool
    var singleLine: bool
    ghost var past: seq<Text>
    ghost var order: Order

    /** With the redo side out of order there is a record to spare. */
    ghost predicate IsValid()
      reads this, undostate, undostate.undoRec, undostate.undoChar
    {
      match order
      case InOrder => undostate.IsValid()
      case OutOfOrder => undostate.Allocated() && Loose(undostate.Raw()) && undostate.undoPoint < undostate.redoPoint
      case Unknown => true
    }

    ghost function Abs(): Doc
      requires Shape(undostate.Raw())
      reads this, undostate, undostate.undoRec, undostate.undoChar
    {
      Doc(text, Undos(undostate.Raw()), Redos(undostate.Raw()), past,
        cursor, selectStart, selectEnd, insertMode, singleLine)
    }

    /** The field as a state of a session. */
    ghost function View(): Sessions.State
      requires IsValid()
      reads this, undostate, undostate.undoRec, undostate.undoChar
    {
      match order
      case InOrder => Sessions.Sound(Abs())
      case OutOfOrder => Sessions.Torn(Abs().(redo := []), RawSide(undostate.Raw()))
      case Unknown => Sessions.Outside
    }

    /** An edit has been recorded, which puts the redo side in order, or the stacks are as they were. */
    twostate predicate RecordedOrNot()
      reads this, undostate, undostate.undoRec, undostate.undoChar
    {
      if |past| > |old(past)| then undostate.IsValid() && order == InOrder
      else past == old(past) && undostate.Raw() == old(undostate.Raw()) && order == old(order)
    }

    constructor (caps: Caps, text: Text, singleLine: bool)
      requires caps.records > 0
      ensures order == InOrder && IsValid() && fresh(undostate) && fresh(undostate.undoRec) && fresh(undostate.undoChar)
      ensures undostate.caps == caps
      ensures Abs() == Doc(text, [], [], [], 0, 0, 0, false, singleLine)
    {
      this.undostate := new UndoState(caps);
      this.text, this.singleLine, this.insertMode := text, singleLine, false;
      this.cursor, this.selectStart, this.selectEnd := 0, 0, 0;
      this.past, this.order := [], InOrder;
    }

    method DeleteChars(pos: nat, n: nat)
      requires pos + n <= |text|
      modifies this`text
      ensures text == Deleted(old(text), pos, n)
    {
      text := text[..pos] + text[pos + n..];
    }

    method InsertChars(pos: nat, s: Text) returns (ok: bool)
      requires pos <= |text|
      modifies this`text
      ensures ok == undostate.caps.Holds(|old(text)| + |s|)
      ensures text == if ok then Inserted(old(text), pos, s) else old(text)
    {
      if !undostate.caps.resizable && |text| + |s| > undostate.caps.limit {
        return false;
      }
      text := text[..pos] + s + text[pos..];
      return true;
    }

    // -------------------------------------------------------------- recorded edits

    /** Any edit needs the undo side only: recording starts by emptying the redo side. */
    method Delete(where: nat, len: nat)
      requires undostate.HasUndoSide() && where + len <= |text|
      modifies this, undostate, undostate.undoRec, undostate.undoChar
      ensures undostate.IsValid() && order == InOrder && |past| > |old(past)|
      ensures Abs() == UndoModel.Delete(undostate.caps, old(Abs()), where, len)
    {
      undostate.MakeUndoDelete(text, where, len);
      past, order := past + [text], InOrder;
      DeleteChars(where, len);
    }

    method Clamp()
      requires Shape(undostate.Raw())
      modifies this
      ensures Shape(undostate.Raw()) && Abs() == UndoModel.Clamp(old(Abs())) && RecordedOrNot() && past == old(past)
    {
      var n := |text|;
      if selectStart != selectEnd {
        if selectStart > n { selectStart := n; }
        if selectEnd > n { selectEnd := n; }
        if selectStart == selectEnd { cursor := selectStart; }
      }
      if cursor > n { cursor := n; }
    }

    method DeleteSelection()
      requires undostate.HasUndoSide()
      modifies this, undostate, undostate.undoRec, undostate.undoChar
      ensures undostate.HasUndoSide() && RecordedOrNot()
      ensures Abs() == UndoModel.DeleteSelection(undostate.caps, old(Abs()))
    {
      hide Tiled, Entries, Record, Deleted, LooseRecord;
      Clamp();
      if selectStart != selectEnd {
        if selectStart < selectEnd {
          Delete(selectStart, selectEnd - selectStart);
          selectEnd := selectStart;
          cursor := selectStart;
        } else {
          Delete(selectEnd, selectStart - selectEnd);
          selectStart := selectEnd;
          cursor := selectEnd;
        }
      }
    }

    method Cut() returns (done: bool)
      requires undostate.HasUndoSide()
      modifies this, undostate, undostate.undoRec, undostate.undoChar
      ensures done == old(selectStart != selectEnd)
      ensures undostate.HasUndoSide() && RecordedOrNot()
      ensures Abs() == UndoModel.Cut(undostate.caps, old(Abs()))
    {
      if selectStart != selectEnd {
        DeleteSelection();
        return true;
      }
      return false;
    }

    /** The steps pasting and typing share. */
    method InsertAtCursor(s: Text) returns (ok: bool)
      requires undostate.HasUndoSide() && cursor <= |text|
      modifies this, undostate, undostate.undoRec, undostate.undoChar
      ensures ok == undostate.caps.Holds(old(|text|) + |s|)
      ensures undostate.HasUndoSide() && RecordedOrNot()
      ensures Abs() == UndoModel.InsertAtCursor(undostate.caps, old(Abs()), s)
    {
      hide Tiled, Entries, Record, LooseRecord, UndoSide, RedoSide;
      ghost var before := text;
      ok := InsertChars(cursor, s);
      if ok {
        undostate.MakeUndoInsert(cursor, |s|);
        past, order := past + [before], InOrder;
        cursor := cursor + |s|;
      }
    }

    method Paste(s: Text) returns (ok: bool)
      requires undostate.HasUndoSide()
      modifies this, undostate, undostate.undoRec, undostate.undoChar
      ensures undostate.HasUndoSide() && RecordedOrNot()
      ensures Abs() == UndoModel.Paste(undostate.caps, old(Abs()), s)
    {
      Clamp();
      DeleteSelectionCursor(undostate.caps, Abs());
      DeleteSelection();
      ok := InsertAtCursor(s);
    }

    /** The overwriting branch of typing. */
    method Overwrite(s: Text)
      requires undostate.HasUndoSide() && Overwrites(Abs())
      modifies this, undostate, undostate.undoRec, undostate.undoChar
      ensures undostate.IsValid() && order == InOrder && |past| > |old(past)|
      ensures Abs() == UndoModel.Overwrite(undostate.caps, old(Abs()), s)
    {
      hide Tiled, Entries, Record, LooseRecord, UndoSide, RedoSide;
      undostate.MakeUndoReplace(text, cursor, 1, 1);
      past, order := past + [text], InOrder;
      DeleteChars(cursor, 1);
      var ok := InsertChars(cursor, s);
      if ok {
        cursor := cursor + |s|;
      }
    }

    method TypeText(s: Text)
      requires undostate.HasUndoSide() && s != []
      modifies this, undostate, undostate.undoRec, undostate.undoChar
      ensures undostate.HasUndoSide() && RecordedOrNot()
      ensures Abs() == UndoModel.TypeText(undostate.caps, old(Abs()), s)
    {
      hide Tiled, Entries, Record, LooseRecord, UndoModel.DeleteSelection, UndoModel.InsertAtCursor;
      if s[0] == '\n' && singleLine {
        return;
      }
      if insertMode && selectStart == selectEnd && cursor < |text| {
        Overwrite(s);
      } else {
        DeleteSelectionCursor(undostate.caps, Abs());
        DeleteSelection();
        var _ := InsertAtCursor(s);
      }
    }

    method ReplaceAll(s: Text)
      requires undostate.HasUndoSide()
      modifies this, undostate, undostate.undoRec, undostate.undoChar
      ensures undostate.IsValid() && order == InOrder && |past| > |old(past)|
      ensures Abs() == UndoModel.ReplaceAll(undostate.caps, old(Abs()), s)
    {
      hide Record, Tiled, Entries, UndoSide, Valid, RedoSide, Undos, Redos;
      undostate.MakeUndoReplace(text, 0, |text|, |s|);
      past, order := past + [text], InOrder;
      assert text[0..|text|] == text;
      RefillText(s);
    }

    /** The part of it that changes the text. */
    method RefillText(s: Text)
      modifies this`text, this`cursor, this`selectStart, this`selectEnd
      ensures text == if undostate.caps.Holds(|s|) then s else []
      ensures cursor == selectStart == selectEnd == |text|
    {
      DeleteChars(0, |text|);
      cursor, selectStart, selectEnd := 0, 0, 0;
      if |s| <= 0 {
        return;
      }
      var ok := InsertChars(0, s);
      if ok {
        cursor, selectStart, selectEnd := |s|, |s|, |s|;
      }
    }

    // -------------------------------------------------------------- undo and redo

    /** Deletes, then inserts, skipping the call that would do nothing. */
    method Edit(where: nat, del: nat, ins: Text)
      requires where + del <= |text|
      requires undostate.caps.Holds(|Apply(text, Entry(where, ins, del))|)
      modifies this`text
      ensures text == Apply(old(text), Entry(where, ins, del))
    {
      ApplySkips(text, Entry(where, ins, del));
      if del != 0 {
        DeleteChars(where, del);
      }
      if ins != [] {
        var _ := InsertChars(where, ins);
      }
    }

    /** Carries an entry out on the text. */
    method Replay(where: nat, del: nat, ins: Text, ghost history: seq<Text>)
      requires where + del <= |text| && undostate.caps.Holds(|Apply(text, Entry(where, ins, del))|)
      modifies this`text, this`cursor, this`past
      ensures text == Apply(old(text), Entry(where, ins, del)) && cursor == where + |ins| && past == history
    {
      Edit(where, del, ins);
      cursor := where + |ins|;
      past := history;
    }

    /** Undo is a step of the session, whatever became of the redo side before.  Of a redo side in
        order it makes the right one exactly when it is intact. */
    method Undo()
      requires IsValid() && Sessions.Enabled(undostate.caps, View(), Sessions.Undone)
      modifies this, undostate, undostate.undoRec, undostate.undoChar
      ensures IsValid() && View() == Sessions.UndoneFrom(undostate.caps, old(View()))
      ensures old(order) == InOrder && old(Abs()).undo != [] ==>
        && Shape(undostate.Raw())
        && var d := old(Abs());
           Intact(undostate.caps, d.undo, d.redo) <==> RedoAfter(undostate.caps, d.text, d.undo, d.redo, Abs().redo)
    {
      hide Tiled, Reserved, Intact, RedoAfter, Entries, RawSide, Apply, LooseRecord, Redos, Reverted,
        Sessions.UndoneFrom, Sessions.UndoOutcome;
      ghost var st := View();
      if undostate.undoPoint == 0 {
        NothingUndone(undostate.caps, st);
        return;
      }
      var outcome, where, del, ins := TakeBack(st);
      if outcome == Leaves {
        ArrayLeft(undostate.caps, st);
        return;
      }
      if outcome == Restores {
        Replay(where, del, ins, if past == [] then [] else past[..|past| - 1]);
        RevertedIs(st.doc, Abs());
      }
      UndoneIs(undostate.caps, st, outcome, Abs(), order == OutOfOrder, RawSide(undostate.Raw()));
    }

    /** The part of it that is about the storage. */
    method TakeBack(ghost st: Sessions.State) returns (outcome: Outcome, where: nat, del: nat, ins: Text)
      requires IsValid() && st == View() && !st.Outside? && st.doc.undo != [] && CanUndo(undostate.caps, st.doc)
      modifies this`order, undostate, undostate.undoRec, undostate.undoChar
      ensures IsValid() && outcome == Sessions.UndoOutcome(undostate.caps, st)
      ensures outcome == Leaves ==>
        order == Unknown && (st.Torn? || !Intact(undostate.caps, st.doc.undo, st.doc.redo))
      ensures outcome != Leaves ==>
        && order != Unknown && LooseRedo(undostate.Raw())
        && (order == OutOfOrder <==> st.Torn? || !Intact(undostate.caps, st.doc.undo, st.doc.redo))
        && RawSide(undostate.Raw())
             == Reserved(undostate.caps, st.doc.undo, Sessions.SideOf(undostate.caps, st))
        && Undos(undostate.Raw())
             == if outcome == Restores then st.doc.undo[..|st.doc.undo| - 1] else st.doc.undo
      ensures outcome == Restores ==> Entry(where, ins, del) == Last(st.doc.undo)
      ensures st.Sound? ==> outcome == Restores
      ensures st.Sound? ==>
        && var d := st.doc;
           Intact(undostate.caps, d.undo, d.redo) <==>
             RedoAfter(undostate.caps, d.text, d.undo, d.redo, Redos(undostate.Raw()))
    {
      hide Tiled, Reserved, Through, Within, Intact, RedoAfter, Entries, RawSide, Apply, LooseRecord, Lengths,
        Chars, Sum, Redos, OutcomeOf;
      ghost var torn := order == OutOfOrder;
      UndoRuns(undostate.caps, undostate.Raw(), st, torn);
      outcome, where, del, ins := undostate.MoveToRedo(text);
      if outcome == Leaves {
        order := Unknown;
      } else {
        order := if torn || !Intact(undostate.caps, st.doc.undo, st.doc.redo) then OutOfOrder else InOrder;
      }
    }

    /** An entry that does not fit the text, which only an undo that lost characters can bring about, has
        no defined effect, and the model stops before it. */
    method Redo()
      requires IsValid() && Sessions.Enabled(undostate.caps, View(), Sessions.Redone)
      modifies this, undostate, undostate.undoRec, undostate.undoChar
      ensures IsValid() && View() == Sessions.RedoneFrom(undostate.caps, old(View()))
    {
      hide Tiled, Entries, EntryOf, LooseRecord, Apply, Inverse, Chars;
      if undostate.redoPoint == undostate.caps.records {
        return;
      }
      ghost var d := Abs();
      TopRedo(undostate.Raw());
      var r := undostate.undoRec[undostate.redoPoint];
      ApplyLength(text, d.redo[0]);
      if r.where + r.deleteLength > |text| || !undostate.caps.Holds(|text| - r.deleteLength + r.insertLength) {
        order := Unknown;
        return;
      }
      var where, del, ins := undostate.MoveToUndo(text);
      Replay(where, del, ins, past + [text]);
      RedoStepIs(undostate.caps, d, Abs());
    }

    // -------------------------------------------------------------- sessions

    /** Every operation on the field is the step of a session. */
    method Do(op: Sessions.Op)
      requires IsValid() && Sessions.Enabled(undostate.caps, View(), op)
      modifies this, undostate, undostate.undoRec, undostate.undoChar
      ensures IsValid() && View() == Sessions.Step(undostate.caps, old(View()), op)
    {
      match op
      case Undone => Undo();
      case Redone => Redo();
      case _ => DoEdit(op);
    }

    /** A whole session on the field. */
    method DoAll(ops: seq<Sessions.Op>, ghost st: Sessions.State)
      requires IsValid() && Sessions.Session(undostate.caps, View(), ops, st)
      modifies this, undostate, undostate.undoRec, undostate.undoChar
      ensures IsValid() && View() == st
    {
      hide IsValid, View, Sessions.Enabled, Sessions.Step;
      assert ops[0..] == ops;
      for k := 0 to |ops|
        invariant IsValid() && Sessions.Session(undostate.caps, View(), ops[k..], st)
      {
        assert ops[k..][1..] == ops[k + 1..];
        Do(ops[k]);
      }
    }

    method DoEdit(op: Sessions.Op)
      requires IsValid() && order != Unknown
      requires !op.Undone? && !op.Redone? && Sessions.EditAllowed(undostate.caps, Abs(), op)
      modifies this, undostate, undostate.undoRec, undostate.undoChar
      ensures IsValid() && View() == Sessions.Edited(undostate.caps, old(View()), op)
    {
      hide View, Tiled, Record, RecordedOrNot, Loose, Valid, Entries, UndoModel.Delete, UndoModel.Cut, UndoModel.Paste,
        UndoModel.TypeText, UndoModel.ReplaceAll;
      SidesInOrder();
      match op {
        case Erase(where, len) =>
          Delete(where, len);
          Recorded();
        case CutSelection => var _ := Cut();
        case PasteText(s) => var _ := Paste(s);
        case Typed(s) => TypeText(s);
        case Replaced(s) =>
          ReplaceAll(s);
          Recorded();
        case Place(k, a, b) =>
          cursor, selectStart, selectEnd := k, a, b;
          StacksAlone();
        case ToggleInsert =>
          insertMode := !insertMode;
          StacksAlone();
      }
      EditedView(op);
    }

    lemma SidesInOrder()
      requires IsValid() && order != Unknown
      ensures undostate.HasUndoSide()
    {}

    twostate lemma Recorded()
      requires undostate.IsValid() && order == InOrder && |past| > |old(past)|
      ensures RecordedOrNot() && undostate.HasUndoSide()
    {}

    twostate lemma StacksAlone()
      requires undostate.Raw() == old(undostate.Raw()) && order == old(order) && past == old(past)
      requires old(IsValid()) && order != Unknown
      ensures RecordedOrNot() && undostate.HasUndoSide()
    {}

    twostate lemma EditedView(op: Sessions.Op)
      requires old(IsValid() && order != Unknown) && undostate.HasUndoSide() && RecordedOrNot()
      requires !op.Undone? && !op.Redone? && Sessions.EditAllowed(undostate.caps, old(Abs()), op)
      requires Abs() == Sessions.Edit(undostate.caps, old(Abs()), op)
      ensures IsValid() && View() == Sessions.Edited(undostate.caps, old(View()), op)
    {
      hide Tiled, LooseRecord, Entries, Sessions.Edit;
      Sessions.EditRecordsOrNot(undostate.caps, old(Abs()), op);
      Sessions.EditForgetsRedo(undostate.caps, old(Abs()), op);
    }
  }

  /** The session of UndoLimits.UndoIsLost on a field: after four pastes the fourth undo and every later one
      do nothing, though only the last three pastes are undone. */
  method UndoIsLost(a: Text, b: Text, s: Text, s': Text, more: nat) returns (field: TextField)
    requires |a| == 998 && |b| == 500 && |s| == |s'| == 300
    ensures fresh(field) && field.IsValid() && field.text == a != ""
    ensures Shape(field.undostate.Raw()) && Undos(field.undostate.Raw()) != []
  {
    hide TextField.View, TextField.IsValid, Sessions.Session, Sessions.UndoneFrom;
    field := new TextField(Limits.CAPS, "", false);
    StartsSound(field);
    ghost var ops, st := Limits.UndoIsLost(a, b, s, s');
    field.DoAll([Sessions.PasteText(a), Sessions.PasteText(b), Sessions.PasteText(s), Sessions.PasteText(s'),
      Sessions.Undone, Sessions.Undone, Sessions.Undone], st);
    for k := 0 to more + 1
      invariant field.IsValid() && fresh(field) && fresh(field.undostate)
      invariant fresh(field.undostate.undoRec) && fresh(field.undostate.undoChar)
      invariant field.undostate.caps == Limits.CAPS
      invariant field.View() == if k == 0 then st else Sessions.UndoneFrom(Limits.CAPS, st)
    {
      field.Undo();
    }
    ViewIs(field);
  }

  lemma StartsSound(field: TextField)
    requires field.IsValid() && field.order == InOrder && field.Abs() == Doc("", [], [], [], 0, 0, 0, false, false)
    ensures field.View() == Sessions.Start("", false)
  {}

  lemma ViewIs(field: TextField)
    requires field.IsValid() && !field.View().Outside?
    ensures Shape(field.undostate.Raw())
    ensures field.text == field.View().doc.text && Undos(field.undostate.Raw()) == field.View().doc.undo
  {}

  /** What undo needs to know of the storage of a state. */
  lemma UndoRuns(c: Caps, s: Store, st: Sessions.State, torn: bool)
    requires Sized(c, s) && s.undoPoint > 0 && Shape(s) && !st.Outside?
    requires st.doc.undo == Undos(s) && InRange(st.doc.text, Last(Undos(s)))
    requires if torn then Loose(s) && s.undoPoint < s.redoPoint && st.Torn? && st.side == RawSide(s)
             else Valid(s) && st.Sound? && st.doc.redo == Redos(s)
    ensures CanUndoOn(s, st.doc.text) && RawSide(s) == Sessions.SideOf(c, st)
    ensures (torn || !Intact(c, st.doc.undo, st.doc.redo)) && Sessions.UndoOutcome(c, st) != Leaves ==>
      var r := Reserved(c, st.doc.undo, RawSide(s));
      (if Sessions.UndoOutcome(c, st) == Restores then |Undos(s)| - 1 else |Undos(s)|) + |r.lens| < c.records
  {
    hide Tiled, Entries, EntryOf, Released, Chars, Reserved, LooseRecord;
    if !torn {
      SoundWithin(c, s);
      RedoSideLoose(s);
    }
    TopRecord(c, s);
    if (torn || !Intact(c, st.doc.undo, st.doc.redo)) && Sessions.UndoOutcome(c, st) != Leaves {
      EmptySide(RawSide(s));
      Sessions.ReservedFits(c, st.doc, RawSide(s));
    }
  }

  /** Of a redo side in order no undo leaves the array. */
  lemma ArrayLeft(c: Caps, st: Sessions.State)
    requires !st.Outside? && st.doc.undo != [] && CanUndo(c, st.doc) && Sessions.UndoOutcome(c, st) == Leaves
    requires st.Torn? || !Intact(c, st.doc.undo, st.doc.redo)
    ensures Sessions.UndoneFrom(c, st) == Sessions.Outside
  {}

  lemma ApplyLength(t: Text, e: Entry)
    ensures InRange(t, e) ==> |Apply(t, e)| == |t| - e.del + |e.ins|
  {}

  lemma NothingUndone(c: Caps, st: Sessions.State)
    requires !st.Outside? && st.doc.undo == []
    ensures Sessions.UndoneFrom(c, st) == st
  {}

  /** The parts of an undo step. */
  lemma UndoneIs(c: Caps, st: Sessions.State, outcome: Outcome, d: Doc, torn: bool, side: Side)
    requires !st.Outside? && st.doc.undo != [] && CanUndo(c, st.doc)
    requires outcome == Sessions.UndoOutcome(c, st) != Leaves
    requires side == Reserved(c, st.doc.undo, Sessions.SideOf(c, st))
    requires torn == (st.Torn? || !Intact(c, st.doc.undo, st.doc.redo)) && (!torn ==> outcome == Restores)
    requires d == (if outcome == Restores then Reverted(st.doc) else st.doc).(redo := d.redo)
    requires !torn ==> RedoAfter(c, st.doc.text, st.doc.undo, st.doc.redo, d.redo)
    ensures Sessions.UndoneFrom(c, st) == if torn then Sessions.Torn(d.(redo := []), side) else Sessions.Sound(d)
  {
    hide Reserved, OutcomeOf, Intact, UndoEntry, UndoKept, Apply, RedoAfter;
    RedoAfterIs(c, st.doc.text, st.doc.undo, st.doc.redo, d.redo);
  }

  lemma RevertedIs(d: Doc, d': Doc)
    requires d.undo != [] && InRange(d.text, Last(d.undo))
    requires d'.text == Apply(d.text, Last(d.undo)) && d'.undo == d.undo[..|d.undo| - 1]
    requires d'.past == if d.past == [] then [] else d.past[..|d.past| - 1]
    requires d'.cursor == Last(d.undo).where + |Last(d.undo).ins|
    requires d' == d.(text := d'.text, undo := d'.undo, redo := d'.redo, past := d'.past, cursor := d'.cursor)
    ensures d' == Reverted(d).(redo := d'.redo)
  {}

  lemma EmptySide(side: Side)
    ensures side.lens == [] ==> End(side) == side.point
  {}

  /** The parts of a redo step. */
  lemma RedoStepIs(c: Caps, d: Doc, d': Doc)
    requires d.redo != [] && CanRedo(c, d)
    requires d'.text == Apply(d.text, d.redo[0]) && d'.redo == d.redo[1..]
    requires d'.undo == d.undo
      + [if RedoHasRoom(c, d.undo, d.redo) then Inverse(d.text, d.redo[0]) else Entry(d.redo[0].where, [], 0)]
    requires d'.past == d.past + [d.text] && d'.cursor == d.redo[0].where + |d.redo[0].ins|
    requires d' == d.(text := d'.text, undo := d'.undo, redo := d'.redo, past := d'.past, cursor := d'.cursor)
    ensures d' == RedoStep(c, d)
  {}
}
