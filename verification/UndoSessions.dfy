/** Whole editing sessions: any edits, undos and redos in any order. */
module UndoSessions {
  import opened UndoModel
  import opened UndoLaws

  /** A document whose redo stack is in order; or one whose redo stack has been torn by an undo that
      was not intact, so that only the numbers undo goes by are known of it; or, after an undo whose
      moves leave the character array or a redo of an entry that does not fit the text, nothing. */
  datatype State = Sound(doc: Doc) | Torn(doc: Doc, side: Side) | Outside

  function SideOf(c: Caps, st: State): Side
    requires !st.Outside?
  {
    match st
    case Sound(d) => Side(Lengths(d.redo), if Chars(d.redo) <= c.chars then c.chars - Chars(d.redo) else 0)
    case Torn(_, side) => side
  }

  ghost predicate Holds(c: Caps, st: State) {
    match st
    case Sound(d) => Inv(c, d)
    case Torn(d, side) =>
      && c.records > 0 && d.redo == [] && Linked(c, d.text, d.past, d.undo)
      && |d.undo| + |side.lens| < c.records && Chars(d.undo) <= side.point <= c.chars
    case Outside => true
  }

  // ---------------------------------------------------------------- the operations

  datatype Op =
    | Erase(where: nat, len: nat)
    | CutSelection
    | PasteText(s: Text)
    | Typed(s: Text)
    | Replaced(s: Text)
    | Place(cursor: nat, selStart: nat, selEnd: nat)
    | ToggleInsert
    | Undone
    | Redone

  /** What the caller owes an edit: ranges inside the text, room for a whole replacement, and one
      character per keystroke when overwriting. */
  predicate EditAllowed(c: Caps, d: Doc, op: Op) {
    match op
    case Erase(where, len) => where + len <= |d.text|
    case Typed(s) => s != [] && (Overwrites(d) ==> |s| == 1)
    case Replaced(s) => c.Holds(|s|)
    case _ => true
  }

  function Edit(c: Caps, d: Doc, op: Op): Doc
    requires EditAllowed(c, d, op)
  {
    match op
    case Erase(where, len) => Delete(c, d, where, len)
    case CutSelection => Cut(c, d)
    case PasteText(s) => Paste(c, d, s)
    case Typed(s) => TypeText(c, d, s)
    case Replaced(s) => ReplaceAll(c, d, s)
    case Place(k, a, b) => d.(cursor := k, selStart := a, selEnd := b)
    case ToggleInsert => d.(insertMode := !d.insertMode)
    case _ => d
  }

  /** An edit that records something starts the redo stack afresh. */
  function Edited(c: Caps, st: State, op: Op): State
    requires !st.Outside? && EditAllowed(c, st.doc, op)
  {
    var d := Edit(c, st.doc, op);
    if st.Sound? || |d.past| > |st.doc.past| then Sound(d) else st.(doc := d)
  }

  /** How undo ends in a state with something to undo. */
  function UndoOutcome(c: Caps, st: State): Outcome
    requires !st.Outside? && st.doc.undo != []
  {
    OutcomeOf(c, st.doc.undo, SideOf(c, st))
  }

  /** An intact undo, one that tears the redo stack, and, on a torn one, one that gives up or leaves
      the array. */
  function UndoneFrom(c: Caps, st: State): State
    requires !st.Outside? && CanUndo(c, st.doc)
  {
    var d := st.doc;
    if d.undo == [] then st
    else if st.Sound? && Intact(c, d.undo, d.redo) then Sound(UndoStep(c, d))
    else
      var side := Reserved(c, d.undo, SideOf(c, st));
      match UndoOutcome(c, st)
      case Restores => Torn(Reverted(d).(redo := []), side)
      case GivesUp => Torn(d.(redo := []), side)
      case Leaves => Outside
  }

  function RedoneFrom(c: Caps, st: State): State
    requires !st.Outside?
  {
    if st.Torn? then st
    else if CanRedo(c, st.doc) then Sound(RedoStep(c, st.doc))
    else Outside
  }

  /** Undo may be asked for at any time.  Redo is not asked of a torn redo stack with records on it. */
  predicate Enabled(c: Caps, st: State, op: Op) {
    && !st.Outside?
    && match op
       case Undone => CanUndo(c, st.doc)
       case Redone => st.Torn? ==> st.side.lens == []
       case _ => EditAllowed(c, st.doc, op)
  }

  function Step(c: Caps, st: State, op: Op): State
    requires Enabled(c, st, op)
  {
    match op
    case Undone => UndoneFrom(c, st)
    case Redone => RedoneFrom(c, st)
    case _ => Edited(c, st, op)
  }

  function Start(t: Text, singleLine: bool): State {
    Sound(Doc(t, [], [], [], 0, 0, 0, false, singleLine))
  }

  /** A session: a run of operations, each allowed where it is made. */
  ghost predicate Session(c: Caps, st: State, ops: seq<Op>, st': State)
    decreases |ops|
  {
    if ops == [] then st' == st
    else Enabled(c, st, ops[0]) && Session(c, Step(c, st, ops[0]), ops[1..], st')
  }

  // ---------------------------------------------------------------- what every operation keeps

  lemma EditKeeps(c: Caps, d: Doc, op: Op)
    requires Inv(c, d) && EditAllowed(c, d, op)
    ensures Inv(c, Edit(c, d, op))
  {
    hide Inv, Paste, DeleteSelection, InsertAtCursor, Delete, ReplaceAll, Overwrite, Clamp;
    match op
    case Erase(where, len) => DeleteKeeps(c, d, where, len);
    case CutSelection => DeleteSelectionKeeps(c, d);
    case PasteText(s) => PasteKeeps(c, d, s);
    case Typed(s) =>
      if s[0] == '\n' && d.singleLine {
      } else if Overwrites(d) {
        OverwriteKeeps(c, d, s);
      } else {
        DeleteSelectionKeeps(c, d);
        DeleteSelectionCursor(c, d);
        InsertKeeps(c, DeleteSelection(c, d), s);
      }
    case Replaced(s) => ReplaceAllKeeps(c, d, s);
    case _ => PlacingKeeps(c, d, Edit(c, d, op));
  }

  lemma PasteKeeps(c: Caps, d: Doc, s: Text)
    requires Inv(c, d)
    ensures Inv(c, Paste(c, d, s))
  {
    hide Inv, DeleteSelection, InsertAtCursor, Clamp;
    ClampKeeps(c, d);
    DeleteSelectionKeeps(c, Clamp(d));
    DeleteSelectionCursor(c, Clamp(d));
    InsertKeeps(c, DeleteSelection(c, Clamp(d)), s);
  }

  /** An edit that records nothing changes neither the text nor the stacks; one that does leaves
      nothing to redo. */
  lemma EditRecordsOrNot(c: Caps, d: Doc, op: Op)
    requires EditAllowed(c, d, op)
    ensures var d' := Edit(c, d, op);
      if |d'.past| > |d.past| then d'.redo == []
      else d'.text == d.text && d'.undo == d.undo && d'.redo == d.redo && d'.past == d.past
  {
    match op
    case PasteText(s) =>
      DeleteSelectionRecordsOrNot(c, Clamp(d));
      DeleteSelectionCursor(c, Clamp(d));
    case Typed(s) =>
      DeleteSelectionRecordsOrNot(c, d);
      DeleteSelectionCursor(c, d);
    case CutSelection => DeleteSelectionRecordsOrNot(c, d);
    case _ =>
  }

  lemma DeleteSelectionRecordsOrNot(c: Caps, d: Doc)
    ensures var d' := DeleteSelection(c, d);
      if |d'.past| > |d.past| then d'.redo == []
      else d'.text == d.text && d'.undo == d.undo && d'.redo == d.redo && d'.past == d.past
  {}

  /** No edit looks at the redo stack. */
  lemma EditForgetsRedo(c: Caps, d: Doc, op: Op)
    requires EditAllowed(c, d, op)
    ensures EditAllowed(c, d.(redo := []), op)
    ensures Edit(c, d.(redo := []), op) == Edit(c, d, op).(redo := [])
  {
    hide Record, Deleted, Inserted, DeleteSelection, InsertAtCursor, Paste, TypeText;
    match op
    case PasteText(s) => PasteForgetsRedo(c, d, s);
    case Typed(s) => TypeForgetsRedo(c, d, s);
    case CutSelection => DeleteSelectionForgetsRedo(c, d);
    case _ =>
  }

  lemma ClampForgetsRedo(d: Doc)
    ensures Clamp(d.(redo := [])) == Clamp(d).(redo := [])
  {}

  lemma DeleteSelectionForgetsRedo(c: Caps, d: Doc)
    ensures DeleteSelection(c, d.(redo := [])) == DeleteSelection(c, d).(redo := [])
  {
    hide Record, Deleted, Clamp;
    ClampForgetsRedo(d);
  }

  lemma InsertForgetsRedo(c: Caps, d: Doc, s: Text)
    requires d.cursor <= |d.text|
    ensures InsertAtCursor(c, d.(redo := []), s) == InsertAtCursor(c, d, s).(redo := [])
  {
    hide Record, Inserted;
  }

  lemma PasteForgetsRedo(c: Caps, d: Doc, s: Text)
    ensures Paste(c, d.(redo := []), s) == Paste(c, d, s).(redo := [])
  {
    hide DeleteSelection, Clamp, InsertAtCursor;
    ClampForgetsRedo(d);
    DeleteSelectionForgetsRedo(c, Clamp(d));
    DeleteSelectionCursor(c, Clamp(d));
    InsertForgetsRedo(c, DeleteSelection(c, Clamp(d)), s);
  }

  lemma TypeForgetsRedo(c: Caps, d: Doc, s: Text)
    requires s != []
    ensures TypeText(c, d.(redo := []), s) == TypeText(c, d, s).(redo := [])
  {
    hide DeleteSelection, InsertAtCursor, Record, Deleted, Inserted;
    DeleteSelectionForgetsRedo(c, d);
    DeleteSelectionCursor(c, d);
    InsertForgetsRedo(c, DeleteSelection(c, d), s);
  }

  lemma EditedHolds(c: Caps, st: State, op: Op)
    requires Holds(c, st) && !st.Outside? && EditAllowed(c, st.doc, op)
    ensures Holds(c, Edited(c, st, op))
  {
    hide Edit, EditAllowed, Linked;
    EditKeeps(c, st.doc, op);
    EditRecordsOrNot(c, st.doc, op);
  }

  /** In a sound state the numbers are those of the redo entries. */
  lemma SoundSide(c: Caps, d: Doc)
    requires Stored(c, d.undo, d.redo)
    ensures SideOf(c, Sound(d)) == Side(Lengths(d.redo), c.chars - Chars(d.redo))
    ensures End(SideOf(c, Sound(d))) == c.chars
    ensures d.undo != [] ==> UndoOutcome(c, Sound(d)) == Restores
  {
    LengthsSum(d.redo);
    if d.undo != [] { ReleasedEnough(SideOf(c, Sound(d)), Chars(d.undo) + Last(d.undo).del); }
  }

  lemma UndoneHolds(c: Caps, st: State)
    requires Holds(c, st) && !st.Outside?
    ensures CanUndo(c, st.doc) && Holds(c, UndoneFrom(c, st))
  {
    hide Apply, Linked, Released, End;
    var d := st.doc;
    if d.undo != [] {
      UndoReverts(c, d);
      if st.Sound? && Intact(c, d.undo, d.redo) {
        UndoKeeps(c, d);
      } else {
        if st.Sound? { SoundSide(c, d); }
        if UndoOutcome(c, st) != Leaves { ReservedFits(c, d, SideOf(c, st)); }
      }
    }
  }

  /** A redo stack that is torn already, or is being torn, leaves a record to spare. */
  lemma ReservedFits(c: Caps, d: Doc, side: Side)
    requires d.undo != [] && Within(c, d.undo, side) && Chars(d.undo) <= side.point <= c.chars
    requires |d.undo| + |side.lens| <= c.records
    requires |d.undo| + |side.lens| == c.records ==>
      Last(d.undo).del > 0 && !Lossy(c, d.undo) && Chars(d.undo) + Last(d.undo).del > side.point && side.lens != []
    ensures var r := Reserved(c, d.undo, side); var n := if Through(c, d.undo, side) then |d.undo| - 1 else |d.undo|;
      n + |r.lens| < c.records && Chars(d.undo) <= r.point <= c.chars
  {
    hide Chars;
    ReleasedEnough(side, Chars(d.undo) + Last(d.undo).del);
  }

  lemma StepHolds(c: Caps, st: State, op: Op)
    requires Holds(c, st) && Enabled(c, st, op)
    ensures Holds(c, Step(c, st, op))
  {
    hide Holds, Inv, Edited, UndoneFrom, RedoneFrom, EditAllowed, CanUndo;
    match op
    case Undone => UndoneHolds(c, st);
    case Redone => RedoneHolds(c, st);
    case _ => EditedHolds(c, st, op);
  }

  lemma RedoneHolds(c: Caps, st: State)
    requires Holds(c, st) && !st.Outside?
    ensures Holds(c, RedoneFrom(c, st))
  {
    hide Inv, RedoStep, CanRedo;
    if st.Sound? && CanRedo(c, st.doc) { RedoKeeps(c, st.doc); }
  }

  lemma {:induction false} SessionKeeps(c: Caps, st: State, ops: seq<Op>, st': State)
    requires Holds(c, st) && Session(c, st, ops, st')
    ensures Holds(c, st')
    decreases |ops|
  {
    hide Holds, Enabled, Step;
    if ops != [] {
      StepHolds(c, st, ops[0]);
      SessionKeeps(c, Step(c, st, ops[0]), ops[1..], st');
    }
  }

  lemma StartHolds(c: Caps, t: Text, singleLine: bool)
    requires c.records > 0 && c.Holds(|t|)
    ensures Holds(c, Start(t, singleLine))
  {}

  // ---------------------------------------------------------------- undo restores history

  /** The three ways an undo ends: the text goes back to the one before the newest record; or nothing
      changes but the redo side; or its moves leave the character array.  Which it is, is a matter of
      numbers; with a sound redo stack it is the first. */
  lemma UndoExactly(c: Caps, st: State)
    requires Holds(c, st) && !st.Outside? && st.doc.undo != []
    ensures Enabled(c, st, Undone) && st.doc.past != []
    ensures var d, st' := st.doc, UndoneFrom(c, st); match UndoOutcome(c, st)
      case Restores =>
        && !st'.Outside?
        && st'.doc == d.(text := d.past[|d.past| - 1], past := d.past[..|d.past| - 1], undo := d.undo[..|d.undo| - 1],
             cursor := Last(d.undo).where + |Last(d.undo).ins|, redo := st'.doc.redo)
        && (st'.Sound? ==> RedoAfter(c, d.text, d.undo, d.redo, st'.doc.redo))
      case GivesUp => st'.Torn? && st'.doc == d && !Through(c, d.undo, SideOf(c, st))
      case Leaves => st' == Outside && !Within(c, d.undo, SideOf(c, st))
    ensures UndoneFrom(c, st).Sound? <==> st.Sound? && Intact(c, st.doc.undo, st.doc.redo)
    ensures st.Sound? ==> UndoOutcome(c, st) == Restores
  {
    hide Apply, UndoEntry, UndoKept, RedoAfter, Intact, Released, End, LinkedAt, RoomChain, Chars;
    UndoReverts(c, st.doc);
    if st.Sound? {
      SoundSide(c, st.doc);
      RedoAfterIs(c, st.doc.text, st.doc.undo, st.doc.redo,
        [UndoEntry(c, st.doc.text, st.doc.undo)] + UndoKept(c, st.doc.undo, st.doc.redo));
    }
  }

  /** An undo that gives up is the end of undoing: it gives up again whenever it is tried. */
  lemma GivingUpIsFinal(c: Caps, st: State)
    requires Holds(c, st) && !st.Outside? && st.doc.undo != [] && UndoOutcome(c, st) == GivesUp
    ensures Enabled(c, st, Undone)
    ensures var st' := UndoneFrom(c, st);
      && st'.Torn? && st'.doc == st.doc
      && Enabled(c, st', Undone) && UndoOutcome(c, st') == GivesUp && UndoneFrom(c, st') == st'
  {
    UndoExactly(c, st);
    ReservedEnd(c, st.doc.undo, SideOf(c, st));
    GivesUpExactly(c, st.doc.undo, UndoneFrom(c, st).side);
  }

  /** What an undo that is not intact leaves of the redo side: some of the older records, and a new one
      that says it is as long as the one that was newest. */
  lemma Tearing(c: Caps, d: Doc) returns (kept: Side)
    requires Stored(c, d.undo, d.redo) && d.undo != [] && CanUndo(c, d) && !Intact(c, d.undo, d.redo)
    ensures d.redo != [] && kept.point >= Last(d.undo).del && End(kept) == c.chars
    ensures UndoneFrom(c, Sound(d)) ==
      Torn(Reverted(d).(redo := []), Side([|d.redo[0].ins|] + kept.lens, kept.point - Last(d.undo).del))
    ensures kept == Released(SideOf(c, Sound(d)), Chars(d.undo) + Last(d.undo).del)
  {
    hide Apply, Released, Shrink, End;
    SoundSide(c, d);
    kept := Released(SideOf(c, Sound(d)), Chars(d.undo) + Last(d.undo).del);
    ReleasedEnough(SideOf(c, Sound(d)), Chars(d.undo) + Last(d.undo).del);
    EmptyEnd(SideOf(c, Sound(d)));
  }

  lemma EmptyEnd(side: Side)
    ensures side.lens == [] ==> End(side) == side.point
  {}

  /** The undo after one that tore the redo stack, if it has characters to store: `beyond` is how many of
      them have no place below the older redo records, `longer` how much longer the newest redo record
      says it is than it is.  With nothing beyond it restores the text; with more beyond than the newest
      record says it has, it gives up; otherwise it throws that record away, which leaves the array
      exactly when the record says too much. */
  lemma AfterTearing(c: Caps, d: Doc)
    requires Inv(c, d) && d.undo != [] && !Intact(c, d.undo, d.redo)
    ensures CanUndo(c, d) && d.redo != []
    ensures var st := UndoneFrom(c, Sound(d)); st.Torn? && st.doc.undo == d.undo[..|d.undo| - 1]
    ensures var st := UndoneFrom(c, Sound(d)); var undo := st.doc.undo;
      undo != [] && (Last(undo).del == 0 || Chars(undo) + Last(undo).del >= c.chars) ==> UndoOutcome(c, st) == Restores
    ensures var st := UndoneFrom(c, Sound(d)); var undo := st.doc.undo;
      undo != [] && 0 < Last(undo).del < c.chars - Chars(undo) ==>
        var beyond := Chars(undo) + Last(undo).del + Last(d.undo).del - c.chars;
        var longer := |d.redo[0].ins| - Last(d.undo).del;
        && (UndoOutcome(c, st) == Restores <==> beyond <= 0 || (longer <= 0 && beyond <= |d.redo[0].ins|))
        && (UndoOutcome(c, st) == GivesUp <==> beyond > |d.redo[0].ins|)
        && (UndoOutcome(c, st) == Leaves <==> beyond > 0 && longer > 0)
  {
    hide Apply, Released, Shrink, Intact, Chars, End, UndoneFrom, LinkedAt, Linked, CanUndo, Sum;
    UndoReverts(c, d);
    var kept := Tearing(c, d);
    var st := UndoneFrom(c, Sound(d));
    if st.doc.undo != [] {
      var need := Chars(st.doc.undo) + Last(st.doc.undo).del;
      ReleasedEnough(st.side, need);
      ReleasedLast(|d.redo[0].ins|, kept.lens, kept.point - Last(d.undo).del, need);
      EndIs(kept);
      EndIs(st.side);
      SumConcat([|d.redo[0].ins|], kept.lens);
      SumOne(|d.redo[0].ins|);
    }
  }

  lemma EndIs(side: Side)
    ensures End(side) == side.point + Sum(side.lens)
  {}

  lemma SumOne(n: nat)
    ensures Sum([n]) == n
  {}

  /** `k` undos in a row that get through. */
  ghost predicate Undos(c: Caps, st: State, k: nat, st': State)
    decreases k
  {
    if k == 0 then st' == st
    else
      && Enabled(c, st, Undone) && st.doc.undo != [] && UndoOutcome(c, st) == Restores
      && Undos(c, UndoneFrom(c, st), k - 1, st')
  }

  lemma {:induction false} UndosRestore(c: Caps, st: State, k: nat, st': State)
    requires Holds(c, st) && Undos(c, st, k, st') && k > 0
    ensures !st.Outside? && !st'.Outside? && k <= |st.doc.past| && st'.doc.text == st.doc.past[|st.doc.past| - k]
    ensures Holds(c, st')
    decreases k
  {
    hide Holds, UndoneFrom, OutcomeOf;
    UndoExactly(c, st);
    StepHolds(c, st, Undone);
    if k > 1 { UndosRestore(c, UndoneFrom(c, st), k - 1, st'); }
  }

  /** After any session, `k` undos that get through give exactly the text the `k`-th newest record was
      made from, however many older records and characters have been discarded meanwhile, and
      whether or not these undos or earlier ones were intact. */
  lemma UndoRestoresHistory(c: Caps, t: Text, singleLine: bool, ops: seq<Op>, st: State, k: nat, st': State)
    requires c.records > 0 && c.Holds(|t|)
    requires Session(c, Start(t, singleLine), ops, st)
    requires 0 < k && Undos(c, st, k, st')
    ensures !st.Outside? && !st'.Outside? && k <= |st.doc.past| && st'.doc.text == st.doc.past[|st.doc.past| - k]
  {
    StartHolds(c, t, singleLine);
    SessionKeeps(c, Start(t, singleLine), ops, st);
    UndosRestore(c, st, k, st');
  }

  /** In every sound state a session can reach, undo is applicable and the branch of redo that finds
      no room for the undo characters is dead. */
  lemma RedoAlwaysHasRoom(c: Caps, t: Text, singleLine: bool, ops: seq<Op>, d: Doc)
    requires c.records > 0 && c.Holds(|t|)
    requires Session(c, Start(t, singleLine), ops, Sound(d))
    ensures d.redo != [] ==> d.redo[0].del == 0 || Chars(d.undo) + d.redo[0].del + Chars(d.redo) <= c.chars
    ensures Enabled(c, Sound(d), Undone) && (d.undo != [] ==> UndoOutcome(c, Sound(d)) == Restores)
    ensures Chars(d.undo) + Chars(d.redo) <= c.chars && |d.undo| + |d.redo| <= c.records
  {
    StartHolds(c, t, singleLine);
    SessionKeeps(c, Start(t, singleLine), ops, Sound(d));
    SoundSide(c, d);
    if d.undo != [] { UndoReverts(c, d); }
  }

  // ---------------------------------------------------------------- redo stays applicable

  ghost predicate ReplayableFrom(c: Caps, st: State) {
    st.Sound? ==> Replayable(c, st.doc.text, st.doc.redo)
  }

  /** An undo has nothing to store or leaves a place beside the undo characters. */
  predicate LosslessAt(c: Caps, st: State, op: Op) {
    op.Undone? && !st.Outside? && st.doc.undo != [] ==>
      Last(st.doc.undo).del == 0 || Chars(st.doc.undo) + Last(st.doc.undo).del < c.chars
  }

  ghost predicate Lossless(c: Caps, st: State, ops: seq<Op>)
    decreases |ops|
  {
    ops != [] ==>
    && LosslessAt(c, st, ops[0])
    && (Enabled(c, st, ops[0]) ==> Lossless(c, Step(c, st, ops[0]), ops[1..]))
  }

  lemma StepKeepsReplayable(c: Caps, st: State, op: Op)
    requires Holds(c, st) && Enabled(c, st, op) && LosslessAt(c, st, op)
    requires ReplayableFrom(c, st)
    ensures ReplayableFrom(c, Step(c, st, op))
  {
    hide Inv, Edit, EditAllowed;
    var d := st.doc;
    match op
    case Undone =>
      if st.Sound? && d.undo != [] && Intact(c, d.undo, d.redo) { UndoKeepsReplayable(c, d); }
    case Redone =>
    case _ => EditRecordsOrNot(c, d, op);
  }

  lemma {:induction false} SessionKeepsReplayable(c: Caps, st: State, ops: seq<Op>, st': State)
    requires Holds(c, st) && Session(c, st, ops, st') && Lossless(c, st, ops)
    requires ReplayableFrom(c, st)
    ensures ReplayableFrom(c, st')
    decreases |ops|
  {
    hide Holds, Enabled, Step, LosslessAt, ReplayableFrom;
    if ops != [] {
      StepHolds(c, st, ops[0]);
      StepKeepsReplayable(c, st, ops[0]);
      SessionKeepsReplayable(c, Step(c, st, ops[0]), ops[1..], st');
    }
  }

  /** When no undo of the session lost characters, redo is applicable in every sound state. */
  lemma RedoAlwaysApplies(c: Caps, t: Text, singleLine: bool, ops: seq<Op>, d: Doc)
    requires c.records > 0 && c.Holds(|t|)
    requires Session(c, Start(t, singleLine), ops, Sound(d)) && Lossless(c, Start(t, singleLine), ops)
    ensures CanRedo(c, d)
  {
    StartHolds(c, t, singleLine);
    SessionKeepsReplayable(c, Start(t, singleLine), ops, Sound(d));
  }
}
