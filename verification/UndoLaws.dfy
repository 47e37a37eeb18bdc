/** Laws of undo and redo, one step at a time, and the invariant they keep. */
module UndoLaws {
  import opened UndoModel

  // ---------------------------------------------------------------- the invariants

  predicate Stored(c: Caps, undo: seq<Entry>, redo: seq<Entry>) {
    && |undo| + |redo| <= c.records
    && Chars(undo) + Chars(redo) <= c.chars
  }

  /** The text that undoing entry `i` starts from. */
  function After(text: Text, past: seq<Text>, undo: seq<Entry>, i: nat): Text
    requires |undo| <= |past| && i < |undo|
  {
    if i + 1 == |undo| then text else past[|past| - |undo| + i + 1]
  }

  predicate LinkedAt(text: Text, past: seq<Text>, undo: seq<Entry>, i: nat)
    requires |undo| <= |past| && i < |undo|
  {
    && InRange(After(text, past, undo, i), undo[i])
    && Apply(After(text, past, undo, i), undo[i]) == past[|past| - |undo| + i]
  }

  /** Every surviving record leads from the text after it to the text before it. */
  ghost predicate Linked(c: Caps, text: Text, past: seq<Text>, undo: seq<Entry>) {
    && |undo| <= |past|
    && c.Holds(|text|)
    && (forall t | t in past :: c.Holds(|t|))
    && (forall i: nat | i < |undo| :: LinkedAt(text, past, undo, i))
  }

  /** Replaying the redo stack never lacks room: each prefix of pending redo work moves
      `del` characters to the undo side before it frees `ins` characters on its own. */
  predicate RoomChain(undoPoint: int, redoPoint: int, redo: seq<Entry>)
    decreases |redo|
  {
    redo != [] ==>
    && undoPoint + redo[0].del <= redoPoint
    && RoomChain(undoPoint + redo[0].del, redoPoint + |redo[0].ins|, redo[1..])
  }

  predicate Roomy(c: Caps, undo: seq<Entry>, redo: seq<Entry>) {
    RoomChain(Chars(undo), c.chars - Chars(redo), redo)
  }

  /** Each pending redo entry fits the text it will be replayed on. */
  predicate Replayable(c: Caps, t: Text, redo: seq<Entry>)
    decreases |redo|
  {
    redo != [] ==>
    && InRange(t, redo[0]) && c.Holds(|Apply(t, redo[0])|)
    && Replayable(c, Apply(t, redo[0]), redo[1..])
  }

  ghost predicate Inv(c: Caps, d: Doc) {
    && c.records > 0
    && Stored(c, d.undo, d.redo)
    && Roomy(c, d.undo, d.redo)
    && Linked(c, d.text, d.past, d.undo)
  }

  // ---------------------------------------------------------------- one step at a time

  lemma LinkedAppend(c: Caps, prior: Text, past: seq<Text>, undo: seq<Entry>, j: nat, e: Entry, text: Text)
    requires Linked(c, prior, past, undo) && j <= |undo|
    requires InRange(text, e) && Apply(text, e) == prior && c.Holds(|text|)
    ensures Linked(c, text, past + [prior], undo[j..] + [e])
  {
    var undo', past' := undo[j..] + [e], past + [prior];
    forall i: nat | i < |undo'| ensures LinkedAt(text, past', undo', i) {
      if i + 1 < |undo'| {
        assert LinkedAt(prior, past, undo, j + i);
        assert After(text, past', undo', i) == After(prior, past, undo, j + i);
      }
    }
  }

  lemma CommitKeeps(c: Caps, d: Doc, e: Entry, text: Text)
    requires Inv(c, d)
    requires InRange(text, e) && Apply(text, e) == d.text && c.Holds(|text|)
    ensures Inv(c, Commit(c, d, e, text))
  {
    var j := RecordKeepsLongestFit(c, d.undo, e);
    if |e.ins| <= c.chars {
      LinkedAppend(c, d.text, d.past, d.undo, j, e, text);
    }
  }

  lemma DeleteKeeps(c: Caps, d: Doc, where: nat, len: nat)
    requires Inv(c, d) && where + len <= |d.text|
    ensures Inv(c, Delete(c, d, where, len))
  {
    var e := Entry(where, [], len);
    InverseUndoesApply(d.text, e);
    assert Deleted(d.text, where, len) == Apply(d.text, e);
    CommitKeeps(c, d, Inverse(d.text, e), Deleted(d.text, where, len));
  }

  /** The invariant says nothing of cursor and selection. */
  lemma PlacingKeeps(c: Caps, d: Doc, d': Doc)
    requires Inv(c, d) && d'.text == d.text && d'.undo == d.undo && d'.redo == d.redo && d'.past == d.past
    ensures Inv(c, d')
  {}

  lemma ClampKeeps(c: Caps, d: Doc)
    requires Inv(c, d)
    ensures Inv(c, Clamp(d))
  {}

  lemma DeleteSelectionKeeps(c: Caps, d: Doc)
    requires Inv(c, d)
    ensures Inv(c, DeleteSelection(c, d))
  {
    hide Inv, Deleted, Commit;
    var k := Clamp(d);
    ClampKeeps(c, d);
    if k.selStart != k.selEnd {
      var a, b := Min(k.selStart, k.selEnd), if k.selStart < k.selEnd then k.selEnd else k.selStart;
      DeleteKeeps(c, k, a, b - a);
      PlacingKeeps(c, Delete(c, k, a, b - a), DeleteSelection(c, d));
    }
  }

  lemma InsertKeeps(c: Caps, d: Doc, s: Text)
    requires Inv(c, d) && d.cursor <= |d.text|
    ensures Inv(c, InsertAtCursor(c, d, s))
  {
    if c.Holds(|d.text| + |s|) {
      var e := Entry(d.cursor, s, 0);
      InverseUndoesApply(d.text, e);
      assert Deleted(d.text, d.cursor, 0) == d.text;
      assert Inverse(d.text, e) == Entry(d.cursor, [], |s|);
      var t := Inserted(d.text, d.cursor, s);
      CommitKeeps(c, d, Entry(d.cursor, [], |s|), t);
    }
  }

  /** Overwriting writes a record that leads back to the old text exactly when one character is typed. */
  lemma OverwriteUndoable(c: Caps, d: Doc, s: Text)
    requires c.records > 0 && c.chars > 0 && s != [] && c.Holds(|d.text|)
    requires Overwrites(d)
    ensures var d' := Overwrite(c, d, s);
      && d'.undo != []
      && ((InRange(d'.text, Last(d'.undo)) && Apply(d'.text, Last(d'.undo)) == d.text) <==> |s| == 1)
  {
    var d' := Overwrite(c, d, s);
    var e := Entry(d.cursor, d.text[d.cursor..d.cursor + 1], 1);
    assert Last(d'.undo) == e;
    if |s| == 1 {
      InverseUndoesApply(d.text, Entry(d.cursor, s, 1));
      assert d'.text == Apply(d.text, Entry(d.cursor, s, 1));
    } else if InRange(d'.text, e) {
      assert |Apply(d'.text, e)| == |d'.text| != |d.text|;
    }
  }

  lemma OverwriteKeeps(c: Caps, d: Doc, s: Text)
    requires Inv(c, d) && Overwrites(d) && |s| == 1
    ensures Inv(c, Overwrite(c, d, s))
  {
    var f := Entry(d.cursor, s, 1);
    var e := Inverse(d.text, f);
    InverseUndoesApply(d.text, f);
    CommitKeeps(c, d, e, Apply(d.text, f));
  }

  lemma ReplaceAllKeeps(c: Caps, d: Doc, s: Text)
    requires Inv(c, d) && c.Holds(|s|)
    ensures Inv(c, ReplaceAll(c, d, s))
  {
    var f := Entry(0, s, |d.text|);
    InverseUndoesApply(d.text, f);
    assert d.text[0..|d.text|] == d.text;
    assert Apply(d.text, f) == s;
    CommitKeeps(c, d, Entry(0, d.text, |s|), s);
  }

  lemma {:induction false} RoomChainPrefix(u: int, r: int, redo: seq<Entry>, r': int, j: nat)
    requires RoomChain(u, r, redo) && r <= r' && j <= |redo|
    ensures RoomChain(u, r', redo[..j])
    decreases j
  {
    if j > 0 {
      assert redo[..j][1..] == redo[1..][..j - 1];
      RoomChainPrefix(u + redo[0].del, r + |redo[0].ins|, redo[1..], r' + |redo[0].ins|, j - 1);
    }
  }

  /** What is left of the redo stack, and that there is then room for the new redo record. */
  lemma UndoKeptPrefix(c: Caps, d: Doc) returns (j: nat)
    requires Stored(c, d.undo, d.redo) && d.undo != []
    ensures j <= |d.redo| && UndoKept(c, d.undo, d.redo) == d.redo[..j]
    ensures Chars(d.redo[..j]) <= Chars(d.redo)
    ensures !Lossy(c, d.undo) ==> Chars(d.undo) + Last(d.undo).del + Chars(d.redo[..j]) <= c.chars
    ensures !NeedsRoom(c, d.undo, d.redo) ==> j == |d.redo|
  {
    if NeedsRoom(c, d.undo, d.redo) {
      j := ShrinkKeepsLongest(d.redo, c.chars - Chars(d.undo) - Last(d.undo).del);
    } else {
      j := |d.redo|;
    }
    CharsConcat(d.redo[..j], d.redo[j..]);
    assert d.redo == d.redo[..j] + d.redo[j..];
  }

  lemma UndoKeepsSpace(c: Caps, d: Doc)
    requires Stored(c, d.undo, d.redo) && Roomy(c, d.undo, d.redo)
    requires d.undo != [] && CanUndo(c, d) && Intact(c, d.undo, d.redo)
    ensures var d' := UndoStep(c, d); Stored(c, d'.undo, d'.redo) && Roomy(c, d'.undo, d'.redo)
  {
    var d' := UndoStep(c, d);
    var j := UndoKeptPrefix(c, d);
    CharsLast(d.undo);
    var r := UndoEntry(c, d.text, d.undo);
    var kept := d.redo[..j];
    assert d'.redo == [r] + kept && d'.redo[1..] == kept;
    assert Chars(d'.redo) == |r.ins| + Chars(kept);
    RoomChainPrefix(Chars(d.undo), c.chars - Chars(d.redo), d.redo, c.chars - Chars(kept), j);
  }

  /** Undo, whatever becomes of the redo stack: the text goes back to the one the newest record was
      made from, and the older records still lead back from there. */
  lemma UndoReverts(c: Caps, d: Doc)
    requires Linked(c, d.text, d.past, d.undo) && d.undo != []
    ensures CanUndo(c, d) && d.past != []
    ensures var d' := Reverted(d);
      && d'.text == d.past[|d.past| - 1] && d'.past == d.past[..|d.past| - 1]
      && Linked(c, d'.text, d'.past, d'.undo)
      && Chars(d'.undo) == Chars(d.undo) - |Last(d.undo).ins|
  {
    assert LinkedAt(d.text, d.past, d.undo, |d.undo| - 1);
    CharsLast(d.undo);
    var d' := Reverted(d);
    forall i: nat | i < |d'.undo| ensures LinkedAt(d'.text, d'.past, d'.undo, i) {
      assert LinkedAt(d.text, d.past, d.undo, i);
    }
  }

  /** An intact undo keeps the whole invariant, also when redo records are thrown away to make room
      and when the redo side has no room for the deleted characters. */
  lemma UndoKeeps(c: Caps, d: Doc)
    requires Inv(c, d) && (d.undo != [] ==> Intact(c, d.undo, d.redo))
    ensures CanUndo(c, d) && Inv(c, UndoStep(c, d))
  {
    if d.undo != [] {
      UndoReverts(c, d);
      UndoKeepsSpace(c, d);
    }
  }

  /** Redo: with the room chain intact the characters it deletes always fit between the two sides, and
      the record it writes is the full inverse. */
  lemma RedoExactly(c: Caps, d: Doc)
    requires Inv(c, d) && CanRedo(c, d) && d.redo != []
    ensures d.redo[0].del == 0 || Chars(d.undo) + d.redo[0].del + Chars(d.redo) <= c.chars
    ensures var r := d.redo[0];
      && r.where + r.del <= |d.text|
      && RedoStep(c, d) == d.(text := d.text[..r.where] + r.ins + d.text[r.where + r.del..], past := d.past + [d.text],
           undo := d.undo + [Entry(r.where, d.text[r.where..r.where + r.del], |r.ins|)], redo := d.redo[1..],
           cursor := r.where + |r.ins|)
  {
    hide Apply, LinkedAt, Linked, Chars;
    ApplyIs(d.text, d.redo[0]);
  }

  /** And redo keeps the invariant. */
  lemma RedoKeeps(c: Caps, d: Doc)
    requires Inv(c, d) && CanRedo(c, d)
    ensures d.redo != [] ==> RedoHasRoom(c, d.undo, d.redo)
    ensures Inv(c, RedoStep(c, d))
  {
    hide Apply, LinkedAt, Linked, Chars;
    if d.redo != [] {
      var r := d.redo[0];
      InverseUndoesApply(d.text, r);
      RoomForRedo(c, d, Inverse(d.text, r));
      LinkedAppend(c, d.text, d.past, d.undo, 0, Inverse(d.text, r), Apply(d.text, r));
      assert d.undo[0..] == d.undo;
    }
  }

  lemma RoomForRedo(c: Caps, d: Doc, u: Entry)
    requires Stored(c, d.undo, d.redo) && Roomy(c, d.undo, d.redo) && d.redo != [] && |u.ins| == d.redo[0].del
    ensures RedoHasRoom(c, d.undo, d.redo)
    ensures Stored(c, d.undo + [u], d.redo[1..]) && Roomy(c, d.undo + [u], d.redo[1..])
  {
    CharsConcat(d.undo, [u]);
  }

  // ---------------------------------------------------------------- redo inverts undo

  /** An intact undo leaves the redo stack as it should be, and redo gives the text back exactly when
      there was nothing to store or a place was left beside the undo characters.  Then records and
      history are back as well, and without making room the whole document but the cursor. */
  lemma RedoInvertsUndo(c: Caps, d: Doc)
    requires Inv(c, d) && d.undo != [] && CanUndo(c, d) && Intact(c, d.undo, d.redo)
    ensures RedoAfter(c, d.text, d.undo, d.redo, UndoStep(c, d).redo) && CanRedo(c, UndoStep(c, d))
    ensures var del, need := Last(d.undo).del, Chars(d.undo) + Last(d.undo).del;
      RedoStep(c, UndoStep(c, d)).text == d.text <==> del == 0 || need < c.chars
    ensures var del, need := Last(d.undo).del, Chars(d.undo) + Last(d.undo).del;
      var r := RedoStep(c, UndoStep(c, d));
      del == 0 || need < c.chars ==> r == d.(redo := UndoStep(c, d).redo[1..], cursor := r.cursor)
    ensures var del, need := Last(d.undo).del, Chars(d.undo) + Last(d.undo).del;
      del == 0 || need >= c.chars || need + Chars(d.redo) <= c.chars ==> UndoStep(c, d).redo[1..] == d.redo
  {
    hide Apply, Inverse, InRange, Lossy, NeedsRoom, Intact, UndoKept, RoomChain, LinkedAt, RedoHasRoom, Chars,
      RedoAfter;
    var u := Last(d.undo);
    var m := UndoStep(c, d);
    UndoReverts(c, d);
    UndoKeeps(c, d);
    RedoEntry(c, d);
    RedoAfterIs(c, d.text, d.undo, d.redo, m.redo);
    assert d.undo == m.undo + [u] && d.past == m.past + [m.text];
    RedoKeeps(c, m);
    assert m.redo[1..] == UndoKept(c, d.undo, d.redo);
    NoRoomNeeded(c, d.undo, d.redo);
    LossyIs(c, d.undo);
  }

  lemma LossyIs(c: Caps, undo: seq<Entry>)
    requires undo != []
    ensures Lossy(c, undo) <==> Last(undo).del > 0 && Chars(undo) + Last(undo).del >= c.chars
  {}

  lemma NoRoomNeeded(c: Caps, undo: seq<Entry>, redo: seq<Entry>)
    requires undo != []
    ensures var del, need := Last(undo).del, Chars(undo) + Last(undo).del;
      del == 0 || need >= c.chars || need + Chars(redo) <= c.chars ==> UndoKept(c, undo, redo) == redo
  {}

  /** The redo entry an undo leaves fits the text, and gives back the old one unless it is lossy. */
  lemma RedoEntry(c: Caps, d: Doc)
    requires d.undo != [] && InRange(d.text, Last(d.undo)) && c.Holds(|d.text|)
    ensures var u := Last(d.undo); var t, r := Apply(d.text, u), UndoEntry(c, d.text, d.undo);
      && InRange(t, r) && c.Holds(|Apply(t, r)|)
      && (Apply(t, r) == d.text <==> !Lossy(c, d.undo))
      && (!Lossy(c, d.undo) ==> Inverse(t, r) == u)
  {
    hide Chars;
    var u := Last(d.undo);
    InverseUndoesApply(d.text, u);
    if Lossy(c, d.undo) {
      var t, r := Apply(d.text, u), UndoEntry(c, d.text, d.undo);
      assert |t| == |d.text| - u.del + |u.ins| && |Apply(t, r)| == |t| - |u.ins|;
    }
  }

  ghost predicate SameButCursor(a: Doc, b: Doc) {
    a == b.(cursor := a.cursor)
  }

  /** An intact undo keeps the whole redo stack replayable when it can store the characters. */
  lemma UndoKeepsReplayable(c: Caps, d: Doc)
    requires Inv(c, d) && d.undo != [] && CanUndo(c, d) && Intact(c, d.undo, d.redo)
    requires Last(d.undo).del == 0 || Chars(d.undo) + Last(d.undo).del < c.chars
    requires Replayable(c, d.text, d.redo)
    ensures Replayable(c, UndoStep(c, d).text, UndoStep(c, d).redo)
  {
    var m := UndoStep(c, d);
    InverseUndoesApply(d.text, Last(d.undo));
    var j := UndoKeptPrefix(c, d);
    ReplayablePrefix(c, d.text, d.redo, j);
    assert m.redo[1..] == d.redo[..j];
  }

  lemma {:induction false} ReplayablePrefix(c: Caps, t: Text, redo: seq<Entry>, j: nat)
    requires Replayable(c, t, redo) && j <= |redo|
    ensures Replayable(c, t, redo[..j])
    decreases j
  {
    if j > 0 {
      assert redo[..j][1..] == redo[1..][..j - 1];
      ReplayablePrefix(c, Apply(t, redo[0]), redo[1..], j - 1);
    }
  }

  // ---------------------------------------------------------------- many undos, as many redos

  /** `k` undos that store their characters without making room: what is deleted fits between the two
      sides and leaves a place beside the undo characters. */
  ghost predicate CleanUndos(c: Caps, d: Doc, k: nat, d': Doc)
    decreases k
  {
    if k == 0 then d' == d
    else
      && d.undo != [] && CanUndo(c, d)
      && (Last(d.undo).del == 0 || Chars(d.undo) + Last(d.undo).del < c.chars)
      && (Last(d.undo).del == 0 || Chars(d.undo) + Last(d.undo).del + Chars(d.redo) <= c.chars)
      && CleanUndos(c, UndoStep(c, d), k - 1, d')
  }

  ghost predicate RedoRun(c: Caps, d: Doc, k: nat, d': Doc)
    decreases k
  {
    if k == 0 then d' == d
    else CanRedo(c, d) && d.redo != [] && RedoRun(c, RedoStep(c, d), k - 1, d')
  }

  lemma {:induction false} RedosThenOne(c: Caps, d: Doc, k: nat, m: Doc)
    requires RedoRun(c, d, k, m) && m.redo != [] && CanRedo(c, m)
    ensures RedoRun(c, d, k + 1, RedoStep(c, m))
    decreases k
  {
    if k > 0 { RedosThenOne(c, RedoStep(c, d), k - 1, m); }
  }

  lemma SameCursorRedo(c: Caps, a: Doc, b: Doc)
    requires SameButCursor(a, b) && CanRedo(c, a) && a.redo != []
    ensures CanRedo(c, b) && RedoStep(c, a) == RedoStep(c, b)
  {}

  /** `k` such undos followed by `k` redos give the document back, stacks and history included. */
  lemma {:induction false} RedosInvertUndos(c: Caps, d: Doc, k: nat, m: Doc) returns (r: Doc)
    requires Inv(c, d) && CleanUndos(c, d, k, m)
    ensures RedoRun(c, m, k, r) && SameButCursor(r, d)
    decreases k
  {
    hide Inv, UndoStep, RedoStep;
    if k == 0 {
      r := m;
    } else {
      var d1 := UndoStep(c, d);
      UndoKeeps(c, d);
      var r1 := RedosInvertUndos(c, d1, k - 1, m);
      RedoInvertsUndo(c, d);
      SameCursorRedo(c, d1, r1);
      RedosThenOne(c, m, k - 1, r1);
      r := RedoStep(c, r1);
    }
  }
}
