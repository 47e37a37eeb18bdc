/** What the undo and redo stacks of the text editor mean, on plain values.

    An `Entry` is a record together with the characters it owns in the shared
    character array.  A `Doc` is the text being edited, its two stacks, the
    selection, and `past`: every text a record was ever made from, oldest first.
    `past` is never shortened by the buffers filling up, so it is the yardstick
    the bounded stacks are measured against.  Module UndoEngine proves the array
    code equal to the functions of this module. */
module UndoModel {

  type Text = string

  /** Applying an entry deletes `del` characters at `where`, then inserts `ins` there. */
  datatype Entry = Entry(where: nat, ins: Text, del: nat)

  /** The two buffer sizes, and the room for text: without resizing, at most `limit` characters. */
  datatype Caps = Caps(records: nat, chars: nat, resizable: bool, limit: nat)
  {
    predicate Holds(n: nat) { resizable || n <= limit }
  }

  datatype Doc = Doc(
    text: Text, undo: seq<Entry>, redo: seq<Entry>, past: seq<Text>,
    cursor: nat, selStart: nat, selEnd: nat, insertMode: bool, singleLine: bool)

  // ---------------------------------------------------------------- text edits

  function Deleted(t: Text, where: nat, len: nat): Text
    requires where + len <= |t|
  {
    t[..where] + t[where + len..]
  }

  function Inserted(t: Text, where: nat, s: Text): Text
    requires where <= |t|
  {
    t[..where] + s + t[where..]
  }

  predicate InRange(t: Text, e: Entry) { e.where + e.del <= |t| }

  function Apply(t: Text, e: Entry): Text
    requires InRange(t, e)
  {
    Inserted(Deleted(t, e.where, e.del), e.where, e.ins)
  }

  lemma ApplyIs(t: Text, e: Entry)
    requires InRange(t, e)
    ensures Apply(t, e) == t[..e.where] + e.ins + t[e.where + e.del..]
  {
    var d := Deleted(t, e.where, e.del);
    assert d[..e.where] == t[..e.where] && d[e.where..] == t[e.where + e.del..];
  }

  /** The entry that takes `Apply(t, e)` back to `t`. */
  function Inverse(t: Text, e: Entry): Entry
    requires InRange(t, e)
  {
    Entry(e.where, t[e.where..e.where + e.del], |e.ins|)
  }

  lemma InverseUndoesApply(t: Text, e: Entry)
    requires InRange(t, e)
    ensures InRange(Apply(t, e), Inverse(t, e))
    ensures Apply(Apply(t, e), Inverse(t, e)) == t
    ensures Inverse(Apply(t, e), Inverse(t, e)) == e
  {
    var a := Apply(t, e);
    assert a[..e.where] == t[..e.where];
    assert a[e.where..e.where + |e.ins|] == e.ins;
    assert a[e.where + |e.ins|..] == t[e.where + e.del..];
    assert t == t[..e.where] + t[e.where..e.where + e.del] + t[e.where + e.del..];
    var b := Deleted(a, e.where, |e.ins|);
    assert b == t[..e.where] + t[e.where + e.del..];
    assert b[..e.where] == t[..e.where];
    assert b[e.where..] == t[e.where + e.del..];
  }

  // ---------------------------------------------------------------- stack space

  function Chars(es: seq<Entry>): nat {
    if es == [] then 0 else |es[0].ins| + Chars(es[1..])
  }

  lemma {:induction false} CharsConcat(a: seq<Entry>, b: seq<Entry>)
    ensures Chars(a + b) == Chars(a) + Chars(b)
  {
    if a == [] {
      assert a + b == b;
    } else {
      assert (a + b)[1..] == a[1..] + b;
      CharsConcat(a[1..], b);
    }
  }

  lemma CharsLast(es: seq<Entry>)
    requires es != []
    ensures Chars(es) == Chars(es[..|es| - 1]) + |es[|es| - 1].ins|
  {
    CharsConcat(es[..|es| - 1], [es[|es| - 1]]);
    assert es == es[..|es| - 1] + [es[|es| - 1]];
  }

  function DropOldest(es: seq<Entry>): seq<Entry> { if es == [] then [] else es[1..] }

  /** Drops the oldest entries until `need` more characters fit. */
  function Trim(undo: seq<Entry>, need: nat, cap: nat): seq<Entry>
    requires need <= cap
  {
    if Chars(undo) + need > cap then Trim(undo[1..], need, cap) else undo
  }

  lemma TrimStep(undo: seq<Entry>, need: nat, cap: nat)
    requires need <= cap
    ensures Chars(undo) + need > cap ==> undo != [] && Trim(undo, need, cap) == Trim(DropOldest(undo), need, cap)
    ensures Chars(undo) + need <= cap ==> Trim(undo, need, cap) == undo
  {}

  /** The undo stack after an entry has been recorded. */
  function Record(c: Caps, undo: seq<Entry>, e: Entry): seq<Entry> {
    var kept := if |undo| == c.records then DropOldest(undo) else undo;
    if |e.ins| > c.chars then [] else Trim(kept, |e.ins|, c.chars) + [e]
  }

  predicate Fits(c: Caps, undo: seq<Entry>) {
    |undo| <= c.records && Chars(undo) <= c.chars
  }

  lemma {:induction false} TrimKeepsLongest(undo: seq<Entry>, need: nat, cap: nat) returns (j: nat)
    requires need <= cap
    ensures j <= |undo| && Trim(undo, need, cap) == undo[j..]
    ensures Chars(undo[j..]) + need <= cap
    ensures j > 0 ==> Chars(undo[j - 1..]) + need > cap
  {
    if Chars(undo) + need > cap {
      var i := TrimKeepsLongest(undo[1..], need, cap);
      assert undo[1..][i..] == undo[i + 1..];
      if i > 0 { assert undo[1..][i - 1..] == undo[i..]; }
      j := i + 1;
      if i == 0 { assert undo[j - 1..] == undo; }
    } else {
      assert undo[0..] == undo;
      j := 0;
    }
  }

  lemma {:induction false} CharsSuffix(es: seq<Entry>, i: nat, j: nat)
    requires i <= j <= |es|
    ensures Chars(es[j..]) <= Chars(es[i..])
  {
    CharsConcat(es[i..j], es[j..]);
    assert es[i..] == es[i..j] + es[j..];
  }

  /** Recording keeps the new entry and as many of the newest old ones as fit; it keeps
      nothing at all when the entry alone is larger than the character buffer. */
  lemma RecordKeepsLongestFit(c: Caps, undo: seq<Entry>, e: Entry) returns (j: nat)
    requires c.records > 0 && Fits(c, undo)
    ensures |e.ins| > c.chars ==> Record(c, undo, e) == []
    ensures |e.ins| <= c.chars ==>
      && j <= |undo|
      && Record(c, undo, e) == undo[j..] + [e]
      && Fits(c, undo[j..] + [e])
      && forall i | 0 <= i < j :: !Fits(c, undo[i..] + [e])
  {
    j := 0;
    if |e.ins| <= c.chars {
      var d := if |undo| == c.records then 1 else 0;
      var kept := undo[d..];
      assert kept == if |undo| == c.records then DropOldest(undo) else undo;
      var i := TrimKeepsLongest(kept, |e.ins|, c.chars);
      j := d + i;
      assert kept[i..] == undo[j..];
      CharsConcat(undo[j..], [e]);
      forall p | 0 <= p < j ensures !Fits(c, undo[p..] + [e]) {
        if d <= p {
          assert kept[i - 1..] == undo[j - 1..];
          CharsSuffix(undo, p, j - 1);
          CharsConcat(undo[p..], [e]);
        }
      }
    }
  }

  /** Drops the redo entries that would be replayed last until at most `space` characters remain. */
  function Shrink(redo: seq<Entry>, space: int): seq<Entry>
    decreases |redo|
  {
    if redo != [] && Chars(redo) > space then Shrink(redo[..|redo| - 1], space) else redo
  }

  lemma {:induction false} ShrinkKeepsLongest(redo: seq<Entry>, space: nat) returns (j: nat)
    ensures j <= |redo| && Shrink(redo, space) == redo[..j]
    ensures Chars(redo[..j]) <= space
    ensures j < |redo| ==> Chars(redo[..j + 1]) > space
    decreases |redo|
  {
    if redo != [] && Chars(redo) > space {
      var front := redo[..|redo| - 1];
      j := ShrinkKeepsLongest(front, space);
      assert front[..j] == redo[..j];
      if j < |front| {
        assert front[..j + 1] == redo[..j + 1];
      } else {
        assert redo[..j + 1] == redo;
      }
    } else {
      j := |redo|;
      assert redo[..j] == redo;
    }
  }

  // ---------------------------------------------------------------- the operations

  function Last(es: seq<Entry>): Entry requires es != [] { es[|es| - 1] }

  /** An edit to `text`, recorded by `e`. */
  function Commit(c: Caps, d: Doc, e: Entry, text: Text): Doc {
    d.(text := text, undo := Record(c, d.undo, e), redo := [], past := d.past + [d.text])
  }

  function Delete(c: Caps, d: Doc, where: nat, len: nat): Doc
    requires where + len <= |d.text|
  {
    Commit(c, d, Entry(where, d.text[where..where + len], 0), Deleted(d.text, where, len))
  }

  function Min(a: nat, b: nat): nat { if a < b then a else b }

  function Clamp(d: Doc): (r: Doc)
    ensures r.cursor <= |d.text|
  {
    var n := |d.text|;
    var s := Min(d.selStart, n);
    var e := Min(d.selEnd, n);
    if d.selStart != d.selEnd then
      d.(selStart := s, selEnd := e, cursor := Min(if s == e then s else d.cursor, n))
    else
      d.(cursor := Min(d.cursor, n))
  }

  function DeleteSelection(c: Caps, d0: Doc): Doc {
    var d := Clamp(d0);
    if d.selStart == d.selEnd then d
    else if d.selStart < d.selEnd then
      Delete(c, d, d.selStart, d.selEnd - d.selStart).(selEnd := d.selStart, cursor := d.selStart)
    else
      Delete(c, d, d.selEnd, d.selStart - d.selEnd).(selStart := d.selEnd, cursor := d.selEnd)
  }

  lemma DeleteSelectionCursor(c: Caps, d: Doc)
    ensures DeleteSelection(c, d).cursor <= |DeleteSelection(c, d).text| <= |d.text|
  {}

  function Cut(c: Caps, d: Doc): Doc {
    if d.selStart != d.selEnd then DeleteSelection(c, d) else d
  }

  /** The shared tail of pasting and typing: insert at the cursor if there is room, then record it. */
  function InsertAtCursor(c: Caps, d: Doc, s: Text): Doc
    requires d.cursor <= |d.text|
  {
    if c.Holds(|d.text| + |s|) then
      Commit(c, d, Entry(d.cursor, [], |s|), Inserted(d.text, d.cursor, s)).(cursor := d.cursor + |s|)
    else d
  }

  function Paste(c: Caps, d: Doc, s: Text): Doc {
    DeleteSelectionCursor(c, Clamp(d));
    InsertAtCursor(c, DeleteSelection(c, Clamp(d)), s)
  }

  predicate Overwrites(d: Doc) {
    d.insertMode && d.selStart == d.selEnd && d.cursor < |d.text|
  }

  /** Overwriting records "one character became one character" whatever the length of `s`. */
  function Overwrite(c: Caps, d: Doc, s: Text): Doc
    requires Overwrites(d)
  {
    var e := Entry(d.cursor, d.text[d.cursor..d.cursor + 1], 1);
    var t := Deleted(d.text, d.cursor, 1);
    if c.Holds(|t| + |s|)
    then Commit(c, d, e, Inserted(t, d.cursor, s)).(cursor := d.cursor + |s|)
    else Commit(c, d, e, t)
  }

  function TypeText(c: Caps, d: Doc, s: Text): Doc
    requires s != []
  {
    if s[0] == '\n' && d.singleLine then d
    else if Overwrites(d) then Overwrite(c, d, s)
    else
      DeleteSelectionCursor(c, d);
      InsertAtCursor(c, DeleteSelection(c, d), s)
  }

  /** Replacing the whole text in one record.  When the new text does not fit, none is left. */
  function ReplaceAll(c: Caps, d: Doc, s: Text): Doc {
    var t := if c.Holds(|s|) then s else [];
    Commit(c, d, Entry(0, d.text, |s|), t).(cursor := |t|, selStart := |t|, selEnd := |t|)
  }

  // ---------------------------------------------------------------- what the operations do to the text

  function Max(a: nat, b: nat): nat { if a > b then a else b }

  /** The part of the text an edit replaces: the selection, as far as it is inside the text, whichever
      way round, or the place of the cursor. */
  function From(d: Doc): (i: nat)
    ensures i <= |d.text|
  {
    if d.selStart == d.selEnd then Min(d.cursor, |d.text|) else Min(Min(d.selStart, d.selEnd), |d.text|)
  }

  function To(d: Doc): (i: nat)
    ensures From(d) <= i <= |d.text|
  {
    if d.selStart == d.selEnd then From(d) else Min(Max(d.selStart, d.selEnd), |d.text|)
  }

  lemma ClampMeans(d: Doc)
    ensures var r := Clamp(d); From(r) == From(d) && To(r) == To(d) && r.cursor <= |d.text|
    ensures var r := Clamp(d); r == d.(cursor := r.cursor, selStart := r.selStart, selEnd := r.selEnd)
    ensures var r := Clamp(d); r.selStart == r.selEnd ==> From(d) == r.cursor == To(d)
    ensures var r := Clamp(d); r.selStart != r.selEnd ==> From(d) == Min(r.selStart, r.selEnd)
    ensures var r := Clamp(d); r.selStart != r.selEnd ==> To(d) == Max(r.selStart, r.selEnd)
  {}

  /** The selection goes, under one record; the cursor stands where it was. */
  lemma DeleteSelectionMeans(c: Caps, d: Doc)
    ensures var r := DeleteSelection(c, d);
      && r.text == d.text[..From(d)] + d.text[To(d)..] && r.cursor == From(d) == From(r) == To(r)
      && r.undo == if From(d) == To(d) then d.undo else Record(c, d.undo, Entry(From(d), d.text[From(d)..To(d)], 0))
  {
    hide Clamp, From, To, Record;
    var k := Clamp(d);
    ClampMeans(d);
    ClampMeans(DeleteSelection(c, d));
    NothingSelected(DeleteSelection(c, d));
    if From(d) == To(d) { assert d.text[..From(d)] + d.text[To(d)..] == d.text; }
  }

  lemma NothingSelected(d: Doc)
    ensures d.selStart == d.selEnd && d.cursor <= |d.text| ==> From(d) == d.cursor == To(d)
  {}

  /** The selection is replaced by `s` if there is room for that, and by nothing if there is not. */
  lemma PasteMeans(c: Caps, d: Doc, s: Text)
    ensures var ins := if c.Holds(From(d) + |s| + |d.text| - To(d)) then s else [];
      && Paste(c, d, s).text == d.text[..From(d)] + ins + d.text[To(d)..]
      && Paste(c, d, s).cursor == From(d) + |ins|
  {
    hide Clamp, From, To, Record, DeleteSelection;
    ClampMeans(d);
    DeleteSelectionMeans(c, Clamp(d));
    DeleteSelectionCursor(c, Clamp(d));
    ReplacedIs(c, DeleteSelection(c, Clamp(d)), d.text[..From(d)], d.text[To(d)..], s);
  }

  lemma ReplacedIs(c: Caps, k: Doc, before: Text, after: Text, s: Text)
    requires k.text == before + after && k.cursor == |before|
    ensures var ins := if c.Holds(|before| + |s| + |after|) then s else [];
      InsertAtCursor(c, k, s).text == before + ins + after && InsertAtCursor(c, k, s).cursor == |before| + |ins|
  {
    hide Record;
    assert k.text[..k.cursor] == before && k.text[k.cursor..] == after;
    assert before + [] + after == before + after;
  }

  /** A newline in a single line is ignored; overwriting replaces one character; otherwise typing is pasting. */
  lemma TypeMeans(c: Caps, d: Doc, s: Text)
    requires s != []
    ensures s[0] == '\n' && d.singleLine ==> TypeText(c, d, s) == d
    ensures !(s[0] == '\n' && d.singleLine) ==>
      var over := d.insertMode && d.selStart == d.selEnd && d.cursor < |d.text|;
      var to := if over then d.cursor + 1 else To(d);
      var ins := if c.Holds(From(d) + |s| + |d.text| - to) then s else [];
      && TypeText(c, d, s).text == d.text[..From(d)] + ins + d.text[to..]
      && TypeText(c, d, s).cursor == From(d) + |ins|
  {
    if !(s[0] == '\n' && d.singleLine) {
      if Overwrites(d) {
        OverwriteMeans(c, d, s);
      } else {
        hide Clamp, From, To, Record, DeleteSelection;
        DeleteSelectionMeans(c, d);
        DeleteSelectionCursor(c, d);
        ReplacedIs(c, DeleteSelection(c, d), d.text[..From(d)], d.text[To(d)..], s);
      }
    }
  }

  lemma OverwriteMeans(c: Caps, d: Doc, s: Text)
    requires Overwrites(d)
    ensures From(d) == d.cursor
    ensures var ins := if c.Holds(d.cursor + |s| + |d.text| - (d.cursor + 1)) then s else [];
      && Overwrite(c, d, s).text == d.text[..d.cursor] + ins + d.text[d.cursor + 1..]
      && Overwrite(c, d, s).cursor == d.cursor + |ins|
  {
    hide Record;
    var t := Deleted(d.text, d.cursor, 1);
    assert t[..d.cursor] == d.text[..d.cursor] && t[d.cursor..] == d.text[d.cursor + 1..];
    assert d.text[..d.cursor] + [] + d.text[d.cursor + 1..] == t;
  }

  /** The undo characters leave no room at all for the characters a redo would need. */
  predicate Lossy(c: Caps, undo: seq<Entry>)
    requires undo != []
  {
    Last(undo).del > 0 && Chars(undo) + Last(undo).del >= c.chars
  }

  /** Undo has to throw away redo entries first. */
  predicate NeedsRoom(c: Caps, undo: seq<Entry>, redo: seq<Entry>)
    requires undo != []
  {
    && Last(undo).del > 0 && !Lossy(c, undo)
    && Chars(undo) + Last(undo).del > c.chars - Chars(redo)
  }

  predicate SameShape(e: Entry, where: nat, ins: nat, del: nat) {
    e.where == where && |e.ins| == ins && e.del == del
  }

  /** When room has to be made, the new redo record inherits the place and the lengths of the
      record that was on top of the redo stack; this is when that does no harm. */
  predicate Intact(c: Caps, undo: seq<Entry>, redo: seq<Entry>)
    requires undo != []
  {
    var u, need := Last(undo), Chars(undo) + Last(undo).del;
    u.del > 0 && need < c.chars < need + Chars(redo) ==>
      redo != [] && SameShape(redo[0], u.where, u.del, |u.ins|)
  }

  function UndoEntry(c: Caps, t: Text, undo: seq<Entry>): Entry
    requires undo != [] && InRange(t, Last(undo))
  {
    var u := Last(undo);
    if Lossy(c, undo) then Entry(u.where, [], |u.ins|) else Inverse(t, u)
  }

  function UndoKept(c: Caps, undo: seq<Entry>, redo: seq<Entry>): seq<Entry>
    requires undo != []
  {
    if NeedsRoom(c, undo, redo)
    then Shrink(redo, c.chars - Chars(undo) - Last(undo).del)
    else redo
  }

  /** The redo stack as an undo should leave it.  The way back comes first, with the characters that
      are deleted, provided they and the undo characters leave a place free.  It is followed by as many of
      the records as fit with them, those to be replayed first. */
  predicate RedoAfter(c: Caps, t: Text, undo: seq<Entry>, redo: seq<Entry>, redo': seq<Entry>)
    requires undo != [] && InRange(t, Last(undo))
  {
    var u, need := Last(undo), Chars(undo) + Last(undo).del;
    && redo' != [] && redo'[1..] <= redo
    && redo'[0].where == u.where && redo'[0].del == |u.ins|
    && redo'[0].ins == (if u.del == 0 || need < c.chars then t[u.where..u.where + u.del] else [])
    && if u.del == 0 || need >= c.chars then redo'[1..] == redo
       else need + Chars(redo'[1..]) <= c.chars && (|redo'| <= |redo| ==> need + Chars(redo[..|redo'|]) > c.chars)
  }

  /** What the code leaves is that, and nothing else is. */
  lemma RedoAfterIs(c: Caps, t: Text, undo: seq<Entry>, redo: seq<Entry>, redo': seq<Entry>)
    requires undo != [] && InRange(t, Last(undo))
    ensures RedoAfter(c, t, undo, redo, redo') <==> redo' == [UndoEntry(c, t, undo)] + UndoKept(c, undo, redo)
  {
    hide Chars;
    var u, need := Last(undo), Chars(undo) + Last(undo).del;
    var e, kept := UndoEntry(c, t, undo), UndoKept(c, undo, redo);
    if u.del > 0 && need < c.chars {
      KeptLongest(c, undo, redo);
      if RedoAfter(c, t, undo, redo, redo') {
        assert redo'[1..] == redo[..|redo'| - 1];
        LongestFits(redo, c.chars - need, |redo'| - 1, |kept|);
      }
    }
    assert redo' != [] ==> redo' == [redo'[0]] + redo'[1..];
    assert ([e] + kept)[1..] == kept;
  }

  /** What is kept is the longest part that fits. */
  lemma KeptLongest(c: Caps, undo: seq<Entry>, redo: seq<Entry>)
    requires undo != [] && Last(undo).del > 0 && Chars(undo) + Last(undo).del < c.chars
    ensures var space, kept := c.chars - Chars(undo) - Last(undo).del, UndoKept(c, undo, redo);
      && kept <= redo && kept == redo[..|kept|] && Chars(kept) <= space
      && (|kept| < |redo| ==> Chars(redo[..|kept| + 1]) > space)
  {
    hide Chars;
    var j := ShrinkKeepsLongest(redo, c.chars - Chars(undo) - Last(undo).del);
    assert redo[..|redo|] == redo;
  }

  lemma LongestFits(es: seq<Entry>, space: int, i: nat, j: nat)
    requires i <= |es| && j <= |es| && Chars(es[..i]) <= space && Chars(es[..j]) <= space
    requires i < |es| ==> Chars(es[..i + 1]) > space
    requires j < |es| ==> Chars(es[..j + 1]) > space
    ensures i == j
  {
    if i < j { CharsPrefix(es, i + 1, j); }
    if j < i { CharsPrefix(es, j + 1, i); }
  }

  lemma CharsPrefix(es: seq<Entry>, i: nat, j: nat)
    requires i <= j <= |es|
    ensures Chars(es[..i]) <= Chars(es[..j])
  {
    CharsConcat(es[..i], es[i..j]);
    assert es[..j] == es[..i] + es[i..j];
  }

  predicate CanUndo(c: Caps, d: Doc) {
    d.undo != [] ==>
      InRange(d.text, Last(d.undo)) && c.Holds(|Apply(d.text, Last(d.undo))|)
  }

  /** What undo does apart from the redo stack. */
  function Reverted(d: Doc): Doc
    requires d.undo != [] && InRange(d.text, Last(d.undo))
  {
    var u := Last(d.undo);
    d.(text := Apply(d.text, u),
       undo := d.undo[..|d.undo| - 1],
       past := if d.past == [] then [] else d.past[..|d.past| - 1],
       cursor := u.where + |u.ins|)
  }

  /** An undo that is intact. */
  function UndoStep(c: Caps, d: Doc): Doc
    requires CanUndo(c, d) && (d.undo != [] ==> Intact(c, d.undo, d.redo))
  {
    if d.undo == [] then d
    else Reverted(d).(redo := [UndoEntry(c, d.text, d.undo)] + UndoKept(c, d.undo, d.redo))
  }

  predicate CanRedo(c: Caps, d: Doc) {
    d.redo != [] ==>
      InRange(d.text, d.redo[0]) && c.Holds(|Apply(d.text, d.redo[0])|)
  }

  /** Room for the characters that redoing would move back to the undo side. */
  predicate RedoHasRoom(c: Caps, undo: seq<Entry>, redo: seq<Entry>)
    requires redo != []
  {
    redo[0].del == 0 || Chars(undo) + redo[0].del <= c.chars - Chars(redo)
  }

  function RedoStep(c: Caps, d: Doc): Doc
    requires CanRedo(c, d)
  {
    if d.redo == [] then d else
    var r := d.redo[0];
    var u := if RedoHasRoom(c, d.undo, d.redo) then Inverse(d.text, r) else Entry(r.where, [], 0);
    d.(text := Apply(d.text, r),
       undo := d.undo + [u],
       redo := d.redo[1..],
       past := d.past + [d.text],
       cursor := r.where + |r.ins|)
  }

  // ---------------------------------------------------------------- the redo side in numbers

  function Sum(ns: seq<nat>): nat { if ns == [] then 0 else ns[0] + Sum(ns[1..]) }

  lemma {:induction false} SumConcat(a: seq<nat>, b: seq<nat>)
    ensures Sum(a + b) == Sum(a) + Sum(b)
  {
    if a == [] {
      assert a + b == b;
    } else {
      assert (a + b)[1..] == a[1..] + b;
      SumConcat(a[1..], b);
    }
  }

  /** What undo goes by when it makes room: how many characters each redo record says it has, the
      newest first, and where the redo characters start. */
  datatype Side = Side(lens: seq<nat>, point: nat)

  /** Where the redo characters end if the records say so rightly. */
  function End(side: Side): nat { side.point + Sum(side.lens) }

  function Lengths(redo: seq<Entry>): (ns: seq<nat>)
    ensures |ns| == |redo|
    ensures forall i | 0 <= i < |redo| :: ns[i] == |redo[i].ins|
  {
    seq(|redo|, i requires 0 <= i < |redo| => |redo[i].ins|)
  }

  lemma {:induction false} LengthsSum(redo: seq<Entry>)
    ensures Sum(Lengths(redo)) == Chars(redo)
  {
    if redo != [] {
      LengthsSum(redo[1..]);
      assert Lengths(redo)[1..] == Lengths(redo[1..]);
    }
  }

  /** The loop that makes room: it gives up when no record is left. */
  function Released(side: Side, need: int): (r: Side)
    ensures |r.lens| <= |side.lens| && r.point >= side.point
    ensures need > side.point && side.lens != [] ==> |r.lens| < |side.lens|
    decreases |side.lens|
  {
    var n := |side.lens|;
    if need > side.point && n > 0
    then Released(Side(side.lens[..n - 1], side.point + side.lens[n - 1]), need)
    else side
  }

  lemma ReleasedStep(side: Side, need: int)
    requires need > side.point && side.lens != []
    ensures var n := |side.lens| - 1; var next := Side(side.lens[..n], side.point + side.lens[n]);
      Released(side, need) == Released(next, need) && next.point <= Released(next, need).point
  {}

  lemma ReleasedDone(side: Side, need: int)
    requires need <= side.point || side.lens == []
    ensures Released(side, need) == side
  {}

  /** It succeeds exactly when `need` is not beyond the end, and does not move the end. */
  lemma {:induction false} ReleasedEnough(side: Side, need: int)
    ensures End(Released(side, need)) == End(side)
    ensures Released(side, need).lens == [] || need <= Released(side, need).point
    ensures need <= Released(side, need).point <==> need <= End(side)
    ensures Released(side, need).point <= End(side)
    decreases |side.lens|
  {
    var n := |side.lens|;
    if need > side.point && n > 0 {
      SumConcat(side.lens[..n - 1], [side.lens[n - 1]]);
      assert side.lens == side.lens[..n - 1] + [side.lens[n - 1]];
      ReleasedEnough(Side(side.lens[..n - 1], side.point + side.lens[n - 1]), need);
    }
  }

  /** Undo gets as far as changing the text. */
  predicate Through(c: Caps, undo: seq<Entry>, side: Side)
    requires undo != []
  {
    Last(undo).del > 0 && !Lossy(c, undo) ==> Chars(undo) + Last(undo).del <= End(side)
  }

  /** Every move of the loop stays within the character array. */
  predicate Within(c: Caps, undo: seq<Entry>, side: Side)
    requires undo != []
  {
    Last(undo).del > 0 && !Lossy(c, undo) ==>
      Released(side, Chars(undo) + Last(undo).del).point <= c.chars
  }

  /** How undo ends: it restores the text, or gives up for want of room, or a move would leave the
      character array, and then nothing is known of what follows. */
  datatype Outcome = Restores | GivesUp | Leaves

  function OutcomeOf(c: Caps, undo: seq<Entry>, side: Side): Outcome
    requires undo != []
  {
    if !Within(c, undo, side) then Leaves else if Through(c, undo, side) then Restores else GivesUp
  }

  /** Undo gives up exactly when the characters do not fit below the end. */
  lemma GivesUpExactly(c: Caps, undo: seq<Entry>, side: Side)
    requires undo != []
    ensures OutcomeOf(c, undo, side) == GivesUp <==> !Through(c, undo, side)
  {
    ReleasedEnough(side, Chars(undo) + Last(undo).del);
  }

  /** Room is looked for among the older records first; only if they do not suffice is the newest
      record given up as well, with the length `a` that it says it has. */
  lemma {:induction false} ReleasedLast(a: nat, lens: seq<nat>, point: nat, need: int)
    ensures var side, end := Side([a] + lens, point), point + Sum(lens);
      if need <= end then Released(side, need).point <= end else Released(side, need) == Side([], end + a)
    decreases |lens|
  {
    var side, n := Side([a] + lens, point), |lens|;
    if need <= point {
      ReleasedDone(side, need);
    } else if n > 0 {
      var last := lens[n - 1];
      ReleasedStep(side, need);
      assert side.lens[..n] == [a] + lens[..n - 1];
      ReleasedLast(a, lens[..n - 1], point + last, need);
      SumConcat(lens[..n - 1], [last]);
      assert lens == lens[..n - 1] + [last];
    } else {
      ReleasedStep(side, need);
      ReleasedDone(Side([], point + a), need);
      assert side.lens[..0] == [];
    }
  }

  /** The redo side after an undo.  When room is made, the new record keeps the length of the one
      that was newest. */
  function Reserved(c: Caps, undo: seq<Entry>, side: Side): Side
    requires undo != []
  {
    var del := Last(undo).del;
    var need := Chars(undo) + del;
    if del == 0 || Lossy(c, undo) then side.(lens := [0] + side.lens)
    else
      var kept := Released(side, need);
      if need > kept.point then kept
      else Side([if need > side.point then side.lens[0] else del] + kept.lens, kept.point - del)
  }

  /** Only making room moves the end, by as much as the new record is long beyond what it stores. */
  lemma ReservedEnd(c: Caps, undo: seq<Entry>, side: Side)
    requires undo != []
    ensures var u := Last(undo); var r := Reserved(c, undo, side);
      if u.del > 0 && !Lossy(c, undo) && side.point < Chars(undo) + u.del <= End(side)
      then side.lens != [] && End(r) == End(side) - u.del + side.lens[0]
      else End(r) == End(side)
    ensures !Through(c, undo, side) ==> Reserved(c, undo, side) == Side([], End(side))
  {
    ReleasedEnough(side, Chars(undo) + Last(undo).del);
  }
}
