/** Sessions in which undo and redo stop being inverse, at the sizes the editor is built with. */
module UndoLimits {
  import opened UndoModel
  import opened UndoLaws
  import opened UndoSessions

  /** Ninety-nine records, 999 characters, and text without limit. */
  const CAPS := Caps(99, 999, true, 0)

  /** Pasting `s` at the end of a text, with nothing selected and room for one more record. */
  lemma PasteAtEnd(c: Caps, d: Doc, s: Text)
    requires c.resizable && d.redo == [] && d.selStart == d.selEnd && d.cursor == |d.text|
    requires |d.undo| < c.records && Chars(d.undo) == 0
    ensures Paste(c, d, s) == d.(text := d.text + s, undo := d.undo + [Entry(|d.text|, [], |s|)],
                                 past := d.past + [d.text], cursor := |d.text| + |s|)
    ensures Chars(Paste(c, d, s).undo) == 0
  {
    assert Inserted(d.text, |d.text|, s) == d.text + s;
    CharsConcat(d.undo, [Entry(|d.text|, [], |s|)]);
  }

  /** The state after pasting each of `ss` at the end. */
  function Pasted(ss: seq<Text>): Doc {
    if ss == [] then Start("", false).doc
    else
      var d := Pasted(ss[..|ss| - 1]);
      var s := ss[|ss| - 1];
      d.(text := d.text + s, undo := d.undo + [Entry(|d.text|, [], |s|)],
         past := d.past + [d.text], cursor := |d.text| + |s|)
  }

  function Pastes(ss: seq<Text>): (ops: seq<Op>)
    ensures |ops| == |ss|
  {
    seq(|ss|, i requires 0 <= i < |ss| => PasteText(ss[i]))
  }

  lemma {:induction false} SessionThen(c: Caps, st: State, ops: seq<Op>, m: State, op: Op)
    requires Session(c, st, ops, m) && Enabled(c, m, op)
    ensures Session(c, st, ops + [op], Step(c, m, op))
    decreases |ops|
  {
    hide Enabled, Step;
    if ops == [] {
      assert Session(c, Step(c, m, op), [], Step(c, m, op));
      assert (ops + [op])[1..] == [];
    } else {
      SessionThen(c, Step(c, st, ops[0]), ops[1..], m, op);
      assert (ops + [op])[1..] == ops[1..] + [op];
    }
  }

  lemma EmptyStart()
    ensures Session(CAPS, Start("", false), Pastes([]), Sound(Pasted([])))
    ensures var d := Pasted([]);
      d.redo == [] && d.undo == [] && d.selStart == d.selEnd && d.cursor == |d.text| && Chars(d.undo) == 0
  {}

  lemma StepPastes(d: Doc, s: Text)
    ensures Enabled(CAPS, Sound(d), PasteText(s)) && Step(CAPS, Sound(d), PasteText(s)) == Sound(Paste(CAPS, d, s))
  {}

  lemma {:induction false} PastedIsReached(ss: seq<Text>)
    requires |ss| <= 99
    ensures Session(CAPS, Start("", false), Pastes(ss), Sound(Pasted(ss)))
    ensures var d := Pasted(ss); d.redo == [] && d.selStart == d.selEnd && d.cursor == |d.text|
    ensures |Pasted(ss).undo| == |ss| && Chars(Pasted(ss).undo) == 0
  {
    hide Session, Step, Enabled, Paste, Start, Chars;
    if ss == [] {
      EmptyStart();
    } else {
      var front, s := ss[..|ss| - 1], ss[|ss| - 1];
      PastedIsReached(front);
      PasteAtEnd(CAPS, Pasted(front), s);
      StepPastes(Pasted(front), s);
      SessionThen(CAPS, Start("", false), Pastes(front), Sound(Pasted(front)), PasteText(s));
      assert Pastes(ss) == Pastes(front) + [PasteText(s)];
    }
  }

  /** One paste of all 999 characters: undoing it cannot store them, and redo does not bring them back. */
  lemma LossyIsReached(s: Text) returns (d: Doc)
    requires |s| == 999
    ensures Session(CAPS, Start("", false), [PasteText(s)], Sound(d))
    ensures d.text == s && d.undo == [Entry(0, [], 999)] && Intact(CAPS, d.undo, d.redo)
    ensures CanUndo(CAPS, d) && CanRedo(CAPS, UndoStep(CAPS, d))
    ensures RedoStep(CAPS, UndoStep(CAPS, d)).text != s
  {
    d := Pasted([s]);
    PastedIsReached([s]);
    assert Pastes([s]) == [PasteText(s)];
    StartHolds(CAPS, "", false);
    SessionKeeps(CAPS, Start("", false), [PasteText(s)], Sound(d));
    UndoReverts(CAPS, d);
    RedoInvertsUndo(CAPS, d);
  }

  /** Undoing such a paste when there is room for it. */
  lemma PasteUndone(d: Doc, front: seq<Entry>, t: Text, s: Text)
    requires d.text == t + s && d.undo == front + [Entry(|t|, [], |s|)] && Chars(d.undo) == 0
    requires 0 < |s| < 999 && |s| + Chars(d.redo) <= 999 && |d.undo| + |d.redo| <= 99
    ensures CanUndo(CAPS, d) && Intact(CAPS, d.undo, d.redo) && Enabled(CAPS, Sound(d), Undone)
    ensures var d' := UndoStep(CAPS, d);
      && d'.text == t && d'.undo == front && d'.redo == [Entry(|t|, s, 0)] + d.redo
      && Chars(d'.undo) == 0 && Chars(d'.redo) == |s| + Chars(d.redo)
      && d'.past == if d.past == [] then [] else d.past[..|d.past| - 1]
  {
    hide Chars;
    CharsConcat(front, [Entry(|t|, [], |s|)]);
    assert d.undo[..|d.undo| - 1] == front;
    assert d.text[..|t|] == t && d.text[|t|..|t| + |s|] == s && d.text[|t| + |s|..] == [];
    assert Deleted(d.text, |t|, |s|) == t && Inserted(t, |t|, []) == t;
    CharsConcat([Entry(|t|, s, 0)], d.redo);
    OneEntry(Entry(|t|, [], |s|));
    OneEntry(Entry(|t|, s, 0));
    SoundSide(CAPS, d);
  }

  /** Undoing the last two of several pastes. */
  lemma TwoUndone(ss: seq<Text>, t: Text, front: seq<Entry>, b: Text, b': Text) returns (d: Doc)
    requires |ss| <= 99 && |b| == |b'| == 300
    requires Pasted(ss).text == t + b + b' && Chars(front) == 0
    requires Pasted(ss).undo == front + [Entry(|t|, [], 300), Entry(|t| + 300, [], 300)]
    ensures Session(CAPS, Start("", false), Pastes(ss) + [Undone, Undone], Sound(d))
    ensures d.text == t && d.undo == front && d.redo == [Entry(|t|, b, 0), Entry(|t| + 300, b', 0)]
    ensures Chars(d.redo) == 600 && |d.past| == if |Pasted(ss).past| < 2 then 0 else |Pasted(ss).past| - 2
    ensures |Pasted(ss).past| >= 2 ==> d.past == Pasted(ss).past[..|Pasted(ss).past| - 2]
  {
    hide UndoStep, Pasted, Session, Chars;
    var d0, st := Pasted(ss), Start("", false);
    PastedIsReached(ss);
    NothingToRedo(d0.redo);
    PasteUndone(d0, front + [Entry(|t|, [], 300)], t + b, b');
    var d1 := UndoStep(CAPS, d0);
    PasteUndone(d1, front, t, b);
    d := UndoStep(CAPS, d1);
    SessionThen(CAPS, st, Pastes(ss), Sound(d0), Undone);
    SessionThen(CAPS, st, Pastes(ss) + [Undone], Sound(d1), Undone);
    assert Pastes(ss) + [Undone] + [Undone] == Pastes(ss) + [Undone, Undone];
  }

  lemma OneEntry(e: Entry)
    ensures Chars([e]) == |e.ins|
  {}

  lemma NothingToRedo(redo: seq<Entry>)
    ensures redo == [] ==> Chars(redo) == 0
  {}

  /** Pastes of 500, 300 and 300 characters and two undos: the third has to make room, and is not
      intact. */
  lemma MakeRoomIsReached(a: Text, b: Text, b': Text) returns (ops: seq<Op>, d: Doc)
    requires |a| == 500 && |b| == |b'| == 300
    ensures ops == [PasteText(a), PasteText(b), PasteText(b'), Undone, Undone]
    ensures Session(CAPS, Start("", false), ops, Sound(d))
    ensures d.text == a && d.undo == [Entry(0, [], 500)] && d.redo == [Entry(500, b, 0), Entry(800, b', 0)]
    ensures CanUndo(CAPS, d) && !Intact(CAPS, d.undo, d.redo)
  {
    PastedThree(a, b, b');
    d := TwoUndone([a, b, b'], a, [Entry(0, [], 500)], b, b');
    ops := Pastes([a, b, b']) + [Undone, Undone];
  }

  lemma PastedThree(a: Text, b: Text, b': Text)
    ensures var d := Pasted([a, b, b']);
      && d.text == a + b + b' && d.past == ["", a, a + b]
      && d.undo == [Entry(0, [], |a|)] + [Entry(|a|, [], |b|), Entry(|a| + |b|, [], |b'|)]
  {
    assert [a, b, b'][..2] == [a, b] && [a, b][..1] == [a] && [a][..0] == [];
    assert Pasted([a]).text == a && Pasted([a, b]).text == a + b;
  }

  /** A paste of 998 characters before those: after the third undo the fourth gives up, and so does
      every later one.  The text stays what it was after the first paste. */
  lemma UndoIsLost(a: Text, b: Text, s: Text, s': Text) returns (ops: seq<Op>, st: State)
    requires |a| == 998 && |b| == 500 && |s| == |s'| == 300
    ensures ops == [PasteText(a), PasteText(b), PasteText(s), PasteText(s'), Undone, Undone, Undone]
    ensures Session(CAPS, Start("", false), ops, st)
    ensures !st.Outside? && st.doc.text == a && st.doc.undo != [] && st.doc.past == [""]
    ensures Enabled(CAPS, st, Undone) && Session(CAPS, Start("", false), ops + [Undone], UndoneFrom(CAPS, st))
    ensures Enabled(CAPS, UndoneFrom(CAPS, st), Undone)
    ensures UndoneFrom(CAPS, st).doc == st.doc && UndoneFrom(CAPS, UndoneFrom(CAPS, st)) == UndoneFrom(CAPS, st)
  {
    hide Session, Enabled, UndoneFrom, Pasted, Holds;
    var start, before := Start("", false), Pastes([a, b, s, s']) + [Undone, Undone];
    var d := FourPastesTwoUndos(a, b, s, s');
    StartHolds(CAPS, "", false);
    SessionKeeps(CAPS, start, before, Sound(d));
    ThirdAndFourth(a, b, d);
    st := UndoneFrom(CAPS, Sound(d));
    SessionThen(CAPS, start, before, Sound(d), Undone);
    ops := before + [Undone];
    SessionThen(CAPS, start, ops, st, Undone);
  }

  lemma FourPastesTwoUndos(a: Text, b: Text, s: Text, s': Text) returns (d: Doc)
    requires |a| == 998 && |b| == 500 && |s| == |s'| == 300
    ensures Session(CAPS, Start("", false), Pastes([a, b, s, s']) + [Undone, Undone], Sound(d))
    ensures d.text == a + b && d.past == ["", a] && d.undo == [Entry(0, [], 998), Entry(998, [], 500)]
    ensures |d.redo| == 2 && |d.redo[0].ins| == 300 && Chars(d.redo) == 600
  {
    hide Session, Pasted, UndoStep;
    PastedFour(a, b, s, s');
    d := TwoUndone([a, b, s, s'], a + b, [Entry(0, [], 998), Entry(998, [], 500)], s, s');
  }

  lemma PastedFour(a: Text, b: Text, s: Text, s': Text)
    ensures var d := Pasted([a, b, s, s']);
      && d.text == a + b + s + s' && d.past == ["", a, a + b, a + b + s]
      && d.undo == [Entry(0, [], |a|), Entry(|a|, [], |b|)]
           + [Entry(|a + b|, [], |s|), Entry(|a + b| + |s|, [], |s'|)]
  {
    PastedThree(a, b, s);
    assert [a, b, s, s'][..3] == [a, b, s];
  }

  lemma ThirdAndFourth(a: Text, b: Text, d: Doc)
    requires |a| == 998 && |b| == 500 && d.text == a + b && d.past == ["", a]
    requires d.undo == [Entry(0, [], 998), Entry(998, [], 500)]
    requires |d.redo| == 2 && |d.redo[0].ins| == 300 && Chars(d.redo) == 600
    requires Holds(CAPS, Sound(d))
    ensures Enabled(CAPS, Sound(d), Undone) && !UndoneFrom(CAPS, Sound(d)).Outside?
    ensures Enabled(CAPS, UndoneFrom(CAPS, Sound(d)), Undone)
    ensures var st := UndoneFrom(CAPS, Sound(d)); var st' := UndoneFrom(CAPS, st);
      && st.Torn? && st.doc.text == a && st.doc.undo == [Entry(0, [], 998)] && st.doc.past == [""]
      && Enabled(CAPS, st, Undone) && st'.Torn? && st'.doc == st.doc
      && Enabled(CAPS, st', Undone) && UndoneFrom(CAPS, st') == st'
  {
    hide Linked, LinkedAt, RoomChain, Apply, Chars, UndoneFrom, UndoOutcome;
    TwoEntries(Entry(0, [], 998), Entry(998, [], 500));
    OneEntry(Entry(0, [], 998));
    AfterTearing(CAPS, d);
    SoundSide(CAPS, d);
    UndoneHolds(CAPS, Sound(d));
    UndoExactly(CAPS, Sound(d));
    var st := UndoneFrom(CAPS, Sound(d));
    assert st.doc.undo == [Entry(0, [], 998)];
    GivingUpIsFinal(CAPS, st);
    UndoExactly(CAPS, st);
  }

  /** Pastes of 800, 300 and 800 characters: the second undo makes room and leaves a record that says it has
      800 characters where there are 300.  The third, which needs that room as well, would move the
      start of the redo characters to 1499, beyond the array. */
  lemma UndoLeaves(a: Text, b: Text, s: Text) returns (ops: seq<Op>, st: State)
    requires |a| == |s| == 800 && |b| == 300
    ensures ops == [PasteText(a), PasteText(b), PasteText(s), Undone, Undone]
    ensures Session(CAPS, Start("", false), ops, st) && Session(CAPS, Start("", false), ops + [Undone], Outside)
    ensures st.Torn? && st.doc.text == a && st.doc.undo == [Entry(0, [], 800)]
    ensures st.side == Side([800], 699) && Released(st.side, 800) == Side([], 1499)
    ensures UndoOutcome(CAPS, st) == Leaves
  {
    hide Session, UndoneFrom, Pasted, Holds, UndoStep, Released;
    var start, pastes := Start("", false), Pastes([a, b, s]);
    var d0, front := Pasted([a, b, s]), [Entry(0, [], 800), Entry(800, [], 300)];
    PastedThree(a, b, s);
    PastedIsReached([a, b, s]);
    NothingToRedo(d0.redo);
    PasteUndone(d0, front, a + b, s);
    var d := UndoStep(CAPS, d0);
    SessionThen(CAPS, start, pastes, Sound(d0), Undone);
    UndoneIsStep(d0);
    StartHolds(CAPS, "", false);
    SessionKeeps(CAPS, start, pastes + [Undone], Sound(d));
    st := SecondTears(a, b, s, d);
    SessionThen(CAPS, start, pastes + [Undone], Sound(d), Undone);
    ops := pastes + [Undone] + [Undone];
    SessionThen(CAPS, start, ops, st, Undone);
  }

  lemma UndoneIsStep(d: Doc)
    requires CanUndo(CAPS, d) && d.undo != [] && Intact(CAPS, d.undo, d.redo)
    ensures UndoneFrom(CAPS, Sound(d)) == Sound(UndoStep(CAPS, d))
  {}

  lemma SecondTears(a: Text, b: Text, s: Text, d: Doc) returns (st: State)
    requires |a| == |s| == 800 && |b| == 300 && d.text == a + b && Holds(CAPS, Sound(d))
    requires d.undo == [Entry(0, [], 800), Entry(800, [], 300)] && d.redo == [Entry(1100, s, 0)]
    ensures Enabled(CAPS, Sound(d), Undone) && st == UndoneFrom(CAPS, Sound(d))
    ensures st.Torn? && st.doc.text == a && st.doc.undo == [Entry(0, [], 800)]
    ensures st.side == Side([800], 699) && Released(st.side, 800) == Side([], 1499)
    ensures Enabled(CAPS, st, Undone) && UndoOutcome(CAPS, st) == Leaves && UndoneFrom(CAPS, st) == Outside
  {
    hide Linked, LinkedAt, RoomChain, Chars, UndoneFrom, UndoOutcome, Released, Apply;
    TwoEntries(Entry(0, [], 800), Entry(800, [], 300));
    OneEntry(Entry(0, [], 800));
    OneEntry(Entry(1100, s, 0));
    AfterTearing(CAPS, d);
    UndoneHolds(CAPS, Sound(d));
    UndoExactly(CAPS, Sound(d));
    var kept := Tearing(CAPS, d);
    assert Lengths(d.redo) == [800];
    OneReleased(800, 199, 300);
    st := UndoneFrom(CAPS, Sound(d));
    OneReleased(800, 699, 800);
    assert st.doc.undo == [Entry(0, [], 800)];
    PasteReverted(a, b, d);
    UndoExactly(CAPS, st);
  }

  lemma OneReleased(n: nat, point: nat, need: int)
    requires need > point
    ensures Released(Side([n], point), need) == Side([], point + n)
  {
    assert [n][..0] == [];
    ReleasedStep(Side([n], point), need);
    ReleasedDone(Side([], point + n), need);
  }

  lemma PasteReverted(a: Text, b: Text, d: Doc)
    requires d.text == a + b && d.undo != [] && Last(d.undo) == Entry(|a|, [], |b|)
    ensures InRange(d.text, Last(d.undo)) && Apply(d.text, Last(d.undo)) == a
  {
    assert Deleted(d.text, |a|, |b|) == a;
  }

  /** After a lossy undo redo can end beyond the text: pastes of 999 and of one character, both undone, and
      one redo, which brings nothing back; the next inserts at 999 into an empty text. */
  lemma RedoIsLost(a: Text, x: Text) returns (ops: seq<Op>, d: Doc)
    requires |a| == 999 && |x| == 1
    ensures ops == [PasteText(a), PasteText(x), Undone, Undone, Redone]
    ensures Session(CAPS, Start("", false), ops, Sound(d)) && Session(CAPS, Start("", false), ops + [Redone], Outside)
    ensures d.text == "" && d.redo == [Entry(999, x, 0)] && !CanRedo(CAPS, d)
  {
    hide Session, Pasted, UndoStep;
    var start, pastes := Start("", false), Pastes([a, x]);
    var d0 := Pasted([a, x]);
    PastedTwo(a, x);
    PastedIsReached([a, x]);
    NothingToRedo(d0.redo);
    PasteUndone(d0, [Entry(0, [], 999)], a, x);
    var d1 := UndoStep(CAPS, d0);
    UndoneIsStep(d0);
    SessionThen(CAPS, start, pastes, Sound(d0), Undone);
    var d2 := LossyUndone(a, x, d1);
    SessionThen(CAPS, start, pastes + [Undone], Sound(d1), Undone);
    d := NothingRedone(x, d2);
    SessionThen(CAPS, start, pastes + [Undone] + [Undone], Sound(d2), Redone);
    ops := pastes + [Undone] + [Undone] + [Redone];
    SessionThen(CAPS, start, ops, Sound(d), Redone);
  }

  lemma PastedTwo(a: Text, x: Text)
    ensures var d := Pasted([a, x]);
      d.text == a + x && d.undo == [Entry(0, [], |a|)] + [Entry(|a|, [], |x|)]
  {
    assert [a, x][..1] == [a] && [a][..0] == [];
    assert Pasted([a]).text == a;
  }

  lemma LossyUndone(a: Text, x: Text, d: Doc) returns (d': Doc)
    requires |a| == 999 && |x| == 1 && d.text == a
    requires d.undo == [Entry(0, [], 999)] && d.redo == [Entry(999, x, 0)]
    ensures Enabled(CAPS, Sound(d), Undone) && UndoneFrom(CAPS, Sound(d)) == Sound(d')
    ensures d'.text == "" && d'.undo == [] && d'.redo == [Entry(0, [], 0), Entry(999, x, 0)]
  {
    OneEntry(Entry(0, [], 999));
    d' := UndoStep(CAPS, d);
    assert Deleted(a, 0, 999) == "";
  }

  lemma NothingRedone(x: Text, d: Doc) returns (d': Doc)
    requires |x| == 1 && d.text == "" && d.redo == [Entry(0, [], 0), Entry(999, x, 0)]
    ensures RedoneFrom(CAPS, Sound(d)) == Sound(d')
    ensures d'.text == "" && d'.redo == [Entry(999, x, 0)] && !CanRedo(CAPS, d')
  {
    d' := RedoStep(CAPS, d);
    assert Apply("", Entry(0, [], 0)) == "";
  }

  lemma TwoEntries(e: Entry, f: Entry)
    ensures Chars([e, f]) == |e.ins| + |f.ins|
  {
    CharsConcat([e], [f]);
    assert [e, f] == [e] + [f];
  }
}
