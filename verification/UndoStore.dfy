/** The storage of the undo engine as a value: one sequence of records with the undo stack at its
    low end and the redo stack at its high end, and one sequence of characters shared the same way.
    The functions below say what each in-place operation makes of it, and what that means. */
module UndoStore {
  import opened UndoModel

  datatype UndoRecord = UndoRecord(where: int, insertLength: int, deleteLength: int, charStorage: int)

  /** A record without its storage. */
  function Fields(r: UndoRecord): (int, int, int) { (r.where, r.insertLength, r.deleteLength) }

  datatype Store = Store(
    rec: seq<UndoRecord>, chars: seq<char>,
    undoPoint: int, redoPoint: int, undoCharPoint: int, redoCharPoint: int)

  // ---------------------------------------------------------------- records in storage

  /** A record whose characters, if it has any, start at `base`. */
  predicate StoredAt(r: UndoRecord, base: int) {
    && r.where >= 0 && r.insertLength >= 0 && r.deleteLength >= 0
    && r.charStorage == if r.insertLength > 0 then base else -1
  }

  /** The characters of the records tile `[base, end)` in order. */
  predicate Tiled(rs: seq<UndoRecord>, base: int, end: int)
    decreases |rs|
  {
    if rs == [] then base == end
    else StoredAt(rs[0], base) && Tiled(rs[1..], base + rs[0].insertLength, end)
  }

  function Length(rs: seq<UndoRecord>): int {
    if rs == [] then 0 else rs[0].insertLength + Length(rs[1..])
  }

  function EntryOf(r: UndoRecord, chars: seq<char>): Entry {
    Entry(
      if r.where >= 0 then r.where else 0,
      if 0 <= r.charStorage <= r.charStorage + r.insertLength <= |chars|
      then chars[r.charStorage..r.charStorage + r.insertLength] else [],
      if r.deleteLength >= 0 then r.deleteLength else 0)
  }

  function Entries(rs: seq<UndoRecord>, chars: seq<char>): (es: seq<Entry>)
    ensures |es| == |rs|
    ensures forall i | 0 <= i < |rs| :: es[i] == EntryOf(rs[i], chars)
  {
    seq(|rs|, i requires 0 <= i < |rs| => EntryOf(rs[i], chars))
  }

  function Shifted(r: UndoRecord, n: int): UndoRecord {
    if r.charStorage >= 0 then r.(charStorage := r.charStorage + n) else r
  }

  function Renumbered(rs: seq<UndoRecord>, from: int, to: int, n: int): (r: seq<UndoRecord>)
    ensures |r| == |rs|
  {
    seq(|rs|, i requires 0 <= i < |rs| => if from <= i < to then Shifted(rs[i], n) else rs[i])
  }

  /** Tiling says where each record's characters are, and how many there are in all. */
  lemma {:induction false} TiledAt(rs: seq<UndoRecord>, base: int, end: int, i: nat)
    requires Tiled(rs, base, end) && i < |rs|
    ensures StoredAt(rs[i], base + Length(rs[..i]))
    ensures 0 <= Length(rs[..i])
    ensures base + Length(rs[..i]) + rs[i].insertLength <= end
    decreases |rs|
  {
    if i == 0 {
      TiledLength(rs[1..], base + rs[0].insertLength, end);
    } else {
      TiledAt(rs[1..], base + rs[0].insertLength, end, i - 1);
      assert rs[..i][1..] == rs[1..][..i - 1];
    }
  }

  lemma {:induction false} TiledLength(rs: seq<UndoRecord>, base: int, end: int)
    requires Tiled(rs, base, end)
    ensures Length(rs) >= 0 && end == base + Length(rs)
    decreases |rs|
  {
    if rs != [] { TiledLength(rs[1..], base + rs[0].insertLength, end); }
  }

  lemma {:induction false} TiledConcat(a: seq<UndoRecord>, b: seq<UndoRecord>, base: int, mid: int, end: int)
    requires Tiled(a, base, mid)
    ensures Tiled(a + b, base, end) <==> Tiled(b, mid, end)
    decreases |a|
  {
    if a == [] {
      assert a + b == b;
    } else {
      assert (a + b)[1..] == a[1..] + b;
      TiledConcat(a[1..], b, base + a[0].insertLength, mid, end);
    }
  }

  /** A tiled sequence splits at every record. */
  lemma {:induction false} TiledSplit(rs: seq<UndoRecord>, base: int, end: int, i: nat)
    requires Tiled(rs, base, end) && i <= |rs|
    ensures Tiled(rs[..i], base, base + Length(rs[..i]))
    ensures Tiled(rs[i..], base + Length(rs[..i]), end)
    decreases |rs|
  {
    if i == 0 {
      assert rs[i..] == rs;
    } else {
      TiledSplit(rs[1..], base + rs[0].insertLength, end, i - 1);
      assert rs[..i][1..] == rs[1..][..i - 1];
      assert rs[1..][i - 1..] == rs[i..];
    }
  }

  lemma {:induction false} TiledShift(rs: seq<UndoRecord>, rs': seq<UndoRecord>, base: int, end: int, n: int)
    requires Tiled(rs, base, end) && base >= 0 && base + n >= 0 && |rs'| == |rs|
    requires forall i | 0 <= i < |rs| :: rs'[i] == Shifted(rs[i], n)
    ensures Tiled(rs', base + n, end + n)
    decreases |rs|
  {
    if rs != [] {
      TiledShift(rs[1..], rs'[1..], base + rs[0].insertLength, end, n);
    }
  }

  lemma {:induction false} EntriesChars(rs: seq<UndoRecord>, base: int, end: int, chars: seq<char>)
    requires Tiled(rs, base, end) && 0 <= base && end <= |chars|
    ensures Chars(Entries(rs, chars)) == end - base
    decreases |rs|
  {
    if rs != [] {
      TiledLength(rs[1..], base + rs[0].insertLength, end);
      EntriesChars(rs[1..], base + rs[0].insertLength, end, chars);
      assert Entries(rs, chars)[1..] == Entries(rs[1..], chars);
    }
  }

  /** Moving the characters by `n` and renumbering the records changes no entry. */
  lemma EntriesMoved(rs: seq<UndoRecord>, rs': seq<UndoRecord>, base: int, end: int, chars: seq<char>,
      chars': seq<char>, n: int)
    requires Tiled(rs, base, end) && |rs'| == |rs|
    requires 0 <= base && 0 <= base + n && end <= |chars| && end + n <= |chars'|
    requires forall i | 0 <= i < |rs| :: rs'[i] == Shifted(rs[i], n)
    requires forall k | base <= k < end :: chars'[k + n] == chars[k]
    ensures Entries(rs', chars') == Entries(rs, chars)
  {
    forall i | 0 <= i < |rs| ensures EntryOf(rs'[i], chars') == EntryOf(rs[i], chars) {
      TiledAt(rs, base, end, i);
      EntryMoved(rs[i], base + Length(rs[..i]), end, chars, chars', n);
    }
  }

  lemma EntryMoved(r: UndoRecord, at: int, end: int, chars: seq<char>, chars': seq<char>, n: int)
    requires StoredAt(r, at) && 0 <= at <= at + r.insertLength <= end && 0 <= at + n
    requires end <= |chars| && end + n <= |chars'|
    requires forall k | at <= k < end :: chars'[k + n] == chars[k]
    ensures EntryOf(Shifted(r, n), chars') == EntryOf(r, chars)
  {
    var a, b := chars'[at + n..at + n + r.insertLength], chars[at..at + r.insertLength];
    forall k | 0 <= k < r.insertLength ensures a[k] == b[k] {
      assert chars'[(at + k) + n] == chars[at + k];
    }
    assert a == b;
  }

  lemma EntriesCons(r: UndoRecord, rs: seq<UndoRecord>, chars: seq<char>)
    ensures Entries([r] + rs, chars) == [EntryOf(r, chars)] + Entries(rs, chars)
  {}

  // ---------------------------------------------------------------- the two stacks

  predicate Shape(s: Store) {
    s.rec != [] && 0 <= s.undoPoint <= s.redoPoint <= |s.rec|
  }

  /** The undo side alone: its records tile `[0, undoCharPoint)`. */
  predicate UndoSide(s: Store) {
    && Shape(s)
    && 0 <= s.undoCharPoint <= |s.chars|
    && Tiled(s.rec[..s.undoPoint], 0, s.undoCharPoint)
  }

  /** The redo side alone: its records tile `[redoCharPoint, |chars|)`. */
  predicate RedoSide(s: Store) {
    && Shape(s)
    && 0 <= s.redoCharPoint <= |s.chars|
    && Tiled(s.rec[s.redoPoint..], s.redoCharPoint, |s.chars|)
  }

  /** Both sides, and their characters do not overlap. */
  predicate Valid(s: Store) {
    UndoSide(s) && RedoSide(s) && s.undoCharPoint <= s.redoCharPoint
  }

  predicate LooseRecord(r: UndoRecord) {
    r.insertLength >= 0 && (r.charStorage >= 0 || (r.charStorage == -1 && r.insertLength == 0))
  }

  /** All that can be said of the redo side after an undo that is not intact. */
  predicate LooseRedo(s: Store) {
    && Shape(s) && 0 <= s.redoCharPoint <= |s.chars|
    && forall i | s.redoPoint <= i < |s.rec| :: LooseRecord(s.rec[i])
  }

  predicate Loose(s: Store) {
    UndoSide(s) && LooseRedo(s) && s.undoCharPoint <= s.redoCharPoint
  }

  function RawSide(s: Store): (side: Side)
    requires LooseRedo(s)
    ensures |side.lens| == |s.rec| - s.redoPoint && side.point == s.redoCharPoint
  {
    Side(seq(|s.rec| - s.redoPoint, i requires 0 <= i < |s.rec| - s.redoPoint => s.rec[s.redoPoint + i].insertLength),
         s.redoCharPoint)
  }

  function Undos(s: Store): seq<Entry>
    requires Shape(s)
  {
    Entries(s.rec[..s.undoPoint], s.chars)
  }

  function Redos(s: Store): seq<Entry>
    requires Shape(s)
  {
    Entries(s.rec[s.redoPoint..], s.chars)
  }

  lemma UndoSpace(s: Store)
    requires UndoSide(s)
    ensures Chars(Undos(s)) == s.undoCharPoint
  {
    EntriesChars(s.rec[..s.undoPoint], 0, s.undoCharPoint, s.chars);
  }

  lemma RedoSpace(s: Store)
    requires RedoSide(s)
    ensures Chars(Redos(s)) == |s.chars| - s.redoCharPoint
  {
    EntriesChars(s.rec[s.redoPoint..], s.redoCharPoint, |s.chars|, s.chars);
  }

  /** A redo side in order is a loose one that tells the truth. */
  lemma RedoSideLoose(s: Store)
    requires RedoSide(s)
    ensures LooseRedo(s) && RawSide(s).lens == Lengths(Redos(s)) && Chars(Redos(s)) == |s.chars| - s.redoCharPoint
  {
    hide Tiled, Chars;
    RedoSpace(s);
    var rs := s.rec[s.redoPoint..];
    forall i | s.redoPoint <= i < |s.rec|
      ensures LooseRecord(s.rec[i]) && s.rec[i].insertLength == |Redos(s)[i - s.redoPoint].ins|
    {
      TiledAt(rs, s.redoCharPoint, |s.chars|, i - s.redoPoint);
      assert rs[i - s.redoPoint] == s.rec[i];
    }
    assert RawSide(s).lens == Lengths(Redos(s));
  }

  /** The newest undo record has the lengths its entry says, and its characters end the undo side. */
  lemma TopUndo(s: Store)
    requires UndoSide(s) && s.undoPoint > 0
    ensures var u := s.rec[s.undoPoint - 1];
      && StoredAt(u, s.undoCharPoint - u.insertLength) && u.insertLength <= s.undoCharPoint
      && SameShape(Last(Undos(s)), u.where, u.insertLength, u.deleteLength)
      && (u.insertLength > 0 ==>
           Last(Undos(s)).ins == s.chars[s.undoCharPoint - u.insertLength..s.undoCharPoint])
      && Tiled(s.rec[..s.undoPoint - 1], 0, s.undoCharPoint - u.insertLength)
  {
    var rs, i := s.rec[..s.undoPoint], s.undoPoint - 1;
    TiledAt(rs, 0, s.undoCharPoint, i);
    TiledSplit(rs, 0, s.undoCharPoint, i);
    assert rs[i..] == [s.rec[i]] && rs[..i] == s.rec[..i];
  }

  /** The newest redo record, likewise; its characters start the redo side. */
  lemma TopRedo(s: Store)
    requires RedoSide(s) && s.redoPoint < |s.rec|
    ensures var r := s.rec[s.redoPoint];
      && StoredAt(r, s.redoCharPoint) && s.redoCharPoint + r.insertLength <= |s.chars|
      && SameShape(Redos(s)[0], r.where, r.insertLength, r.deleteLength)
      && (r.insertLength > 0 ==>
           Redos(s)[0].ins == s.chars[s.redoCharPoint..s.redoCharPoint + r.insertLength])
      && Tiled(s.rec[s.redoPoint + 1..], s.redoCharPoint + r.insertLength, |s.chars|)
  {
    var rs := s.rec[s.redoPoint..];
    TiledAt(rs, s.redoCharPoint, |s.chars|, 0);
    assert rs[1..] == s.rec[s.redoPoint + 1..];
  }

  // ---------------------------------------------------------------- recording

  /** The newest record set to `u`, with its characters reserved behind those of the others. */
  function Written(s: Store, u: UndoRecord): Store
    requires Shape(s) && s.undoPoint > 0
  {
    s.(rec := s.rec[s.undoPoint - 1 := u], undoCharPoint := s.undoCharPoint + u.insertLength)
  }

  lemma WrittenMeans(s: Store, u: UndoRecord)
    requires Shape(s) && s.undoPoint > 0 && StoredAt(u, s.undoCharPoint)
    requires s.redoPoint == |s.rec| && s.redoCharPoint == |s.chars|
    requires 0 <= s.undoCharPoint <= s.undoCharPoint + u.insertLength <= |s.chars|
    requires Tiled(s.rec[..s.undoPoint - 1], 0, s.undoCharPoint)
    ensures var s' := Written(s, u); var front := Entries(s.rec[..s.undoPoint - 1], s.chars);
      && Valid(s') && Redos(s') == []
      && Undos(s') == front + [EntryOf(u, s.chars)] && Undos(s')[..s.undoPoint - 1] == front
  {
    var s', front := Written(s, u), s.rec[..s.undoPoint - 1];
    assert s'.rec[..s.undoPoint] == front + [u];
    TiledConcat(front, [u], 0, s.undoCharPoint, s'.undoCharPoint);
  }

  lemma NothingToRedo(s: Store)
    requires Valid(s) && s.redoPoint == |s.rec|
    ensures Redos(s) == []
  {}

  // ---------------------------------------------------------------- discarding

  /** memmove: `count` elements at `from` copied to `to`. */
  function Moved<T>(s: seq<T>, to: int, from: int, count: int): (r: seq<T>)
    requires 0 <= to <= to + count <= |s| && 0 <= from <= from + count <= |s|
    ensures |r| == |s|
  {
    s[..to] + s[from..from + count] + s[to + count..]
  }

  /** Moving by 0 and renumbering by 0 change nothing. */
  lemma NothingMoved(rs: seq<UndoRecord>, from: int, to: int, chars: seq<char>, at: int, count: int)
    requires 0 <= at <= at + count <= |chars|
    ensures Renumbered(rs, from, to, 0) == rs && Moved(chars, at, at, count) == chars
  {
    assert forall i | 0 <= i < |rs| :: Shifted(rs[i], 0) == rs[i];
  }

  function UndoDiscarded(s: Store): Store
    requires UndoSide(s)
  {
    if s.undoPoint == 0 then s else
    TiledAt(s.rec[..s.undoPoint], 0, s.undoCharPoint, 0);
    var n := s.rec[0].insertLength;
    s.(undoPoint := s.undoPoint - 1,
       undoCharPoint := s.undoCharPoint - n,
       chars := Moved(s.chars, 0, n, s.undoCharPoint - n),
       rec := Moved(Renumbered(s.rec, 0, s.undoPoint, -n), 0, 1, s.undoPoint - 1))
  }

  lemma NothingToUndo(s: Store)
    requires Shape(s) && s.undoPoint == 0 && s.undoCharPoint == 0
    ensures UndoSide(s) && Undos(s) == []
    ensures s.redoPoint == |s.rec| && s.redoCharPoint == |s.chars| ==> Valid(s)
  {}

  lemma UndoDiscardedMeans(s: Store)
    requires UndoSide(s)
    ensures var s' := UndoDiscarded(s);
      && UndoSide(s') && Undos(s') == DropOldest(Undos(s))
      && |s'.rec| == |s.rec| && |s'.chars| == |s.chars|
      && s'.undoPoint == |Undos(s')| && s'.redoPoint == s.redoPoint && s'.redoCharPoint == s.redoCharPoint
  {
    hide EntryOf, Shifted;
    if s.undoPoint > 0 {
      var s' := UndoDiscarded(s);
      var rs, rs', end := s.rec[..s.undoPoint], s'.rec[..s'.undoPoint], s.undoCharPoint;
      var n, tail := rs[0].insertLength, rs[1..];
      TiledLength(tail, n, end);
      TiledShift(tail, rs', n, end, -n);
      EntriesMoved(tail, rs', n, end, s.chars, s'.chars, -n);
      assert Undos(s)[1..] == Entries(tail, s.chars);
    }
  }

  /** Dropping the topmost redo record moves characters within the array. */
  predicate Movable(s: Store) {
    LooseRedo(s) && (s.redoPoint < |s.rec| ==> s.redoCharPoint + s.rec[|s.rec| - 1].insertLength <= |s.chars|)
  }

  /** The topmost redo record, the last one that would be replayed, is gone; the slot just below
      the remaining ones still holds the place and lengths of the newest. */
  function RedoDiscarded(s: Store): Store
    requires Movable(s)
  {
    if s.redoPoint == |s.rec| then s else
    var k := |s.rec| - 1;
    var n := s.rec[k].insertLength;
    s.(redoPoint := s.redoPoint + 1,
       redoCharPoint := s.redoCharPoint + n,
       chars := Moved(s.chars, s.redoCharPoint + n, s.redoCharPoint, |s.chars| - s.redoCharPoint - n),
       rec := Moved(Renumbered(s.rec, s.redoPoint, k, n), s.redoPoint + 1, s.redoPoint, k - s.redoPoint))
  }

  lemma RedoSideMovable(s: Store)
    requires RedoSide(s) && s.redoPoint < |s.rec|
    ensures Movable(s)
  {
    hide Tiled, Redos, Lengths, Chars, Length;
    RedoSideLoose(s);
    TiledAt(s.rec[s.redoPoint..], s.redoCharPoint, |s.chars|, |s.rec| - 1 - s.redoPoint);
  }

  /** The redo records but the topmost, before they are moved up. */
  lemma FrontRedos(s: Store)
    requires RedoSide(s) && s.redoPoint < |s.rec|
    ensures var front, n := s.rec[s.redoPoint..|s.rec| - 1], s.rec[|s.rec| - 1].insertLength;
      && 0 <= n <= n + s.redoCharPoint <= |s.chars| && Tiled(front, s.redoCharPoint, |s.chars| - n)
      && Redos(s)[..|Redos(s)| - 1] == Entries(front, s.chars)
  {
    hide EntryOf;
    var rs, m, base, end := s.rec[s.redoPoint..], |s.rec| - 1 - s.redoPoint, s.redoCharPoint, |s.chars|;
    TiledSplit(rs, base, end, m);
    TiledAt(rs, base, end, m);
    assert rs[m..] == [rs[m]] && rs[..m] == s.rec[s.redoPoint..|s.rec| - 1];
    OneTiled(rs[m], base + Length(rs[..m]), end);
  }

  lemma OneTiled(r: UndoRecord, base: int, end: int)
    requires Tiled([r], base, end)
    ensures end == base + r.insertLength && r.insertLength >= 0
  {}

  lemma RecordsMovedUp(rec: seq<UndoRecord>, from: nat, n: int, all: seq<UndoRecord>)
    requires from < |rec| && all == Moved(Renumbered(rec, from, |rec| - 1, n), from + 1, from, |rec| - 1 - from)
    ensures |all| == |rec| && forall j | from < j < |rec| :: all[j] == Shifted(rec[j - 1], n)
  {
    hide Shifted, Moved;
    forall j | from < j < |rec| ensures all[j] == Shifted(rec[j - 1], n) {
      MovedAt(Renumbered(rec, from, |rec| - 1, n), from + 1, from, |rec| - 1 - from, j - from - 1);
    }
  }

  lemma MovedAt<T>(s: seq<T>, to: int, from: int, count: int, i: nat)
    requires 0 <= to <= to + count <= |s| && 0 <= from <= from + count <= |s| && i < count
    ensures Moved(s, to, from, count)[to + i] == s[from + i]
  {}

  /** Discarding moves records and characters up by one and by `n`. */
  lemma MovedUp(s: Store)
    requires Movable(s) && s.redoPoint < |s.rec|
    ensures var s', n := RedoDiscarded(s), s.rec[|s.rec| - 1].insertLength;
      && |s'.rec| == |s.rec| && |s'.chars| == |s.chars|
      && s'.redoPoint == s.redoPoint + 1 && s'.redoCharPoint == s.redoCharPoint + n && s'.undoPoint == s.undoPoint
      && (forall j | s.redoPoint < j < |s.rec| :: s'.rec[j] == Shifted(s.rec[j - 1], n))
      && (forall k | s.redoCharPoint <= k < |s.chars| - n :: s'.chars[k + n] == s.chars[k])
  {
    hide Shifted, Moved;
    var s', n := RedoDiscarded(s), s.rec[|s.rec| - 1].insertLength;
    RecordsMovedUp(s.rec, s.redoPoint, n, s'.rec);
    forall k | s.redoCharPoint <= k < |s.chars| - n ensures s'.chars[k + n] == s.chars[k] {
      MovedAt(s.chars, s.redoCharPoint + n, s.redoCharPoint, |s.chars| - s.redoCharPoint - n, k - s.redoCharPoint);
    }
  }

  lemma RedoDiscardedMeans(s: Store)
    requires RedoSide(s) && s.redoPoint < |s.rec|
    ensures Movable(s) && Redos(s) != []
    ensures var s' := RedoDiscarded(s);
      RedoSide(s') && Redos(s') == Redos(s)[..|Redos(s)| - 1]
  {
    hide EntryOf, Shifted, Tiled, Length, Redos, Entries, RedoDiscarded, Movable;
    RedosAre(s);
    RedoSideMovable(s);
    FrontRedos(s);
    MovedUp(s);
    var s', n, k := RedoDiscarded(s), s.rec[|s.rec| - 1].insertLength, |s.rec| - 1;
    var front, rs' := s.rec[s.redoPoint..k], s'.rec[s'.redoPoint..];
    ShiftedSlices(s.rec, s'.rec, s.redoPoint, n);
    TiledShift(front, rs', s.redoCharPoint, |s.chars| - n, n);
    EntriesMoved(front, rs', s.redoCharPoint, |s.chars| - n, s.chars, s'.chars, n);
    RedosAre(s');
  }

  lemma ShiftedSlices(rec: seq<UndoRecord>, rec': seq<UndoRecord>, from: nat, n: int)
    requires from < |rec| == |rec'| && forall j | from < j < |rec| :: rec'[j] == Shifted(rec[j - 1], n)
    ensures var a, b := rec[from..|rec| - 1], rec'[from + 1..];
      |b| == |a| && forall i | 0 <= i < |a| :: b[i] == Shifted(a[i], n)
  {
    hide Shifted;
    var a, b := rec[from..|rec| - 1], rec'[from + 1..];
    forall i | 0 <= i < |a| ensures b[i] == Shifted(a[i], n) {
      assert b[i] == rec'[from + 1 + i] && a[i] == rec[from + i];
    }
  }

  lemma RedosAre(s: Store)
    requires Shape(s)
    ensures Redos(s) == Entries(s.rec[s.redoPoint..], s.chars)
  {}

  /** What neither discarding nor making room for redo touches. */
  predicate BelowUnchanged(s: Store, s': Store)
    requires Shape(s) && 0 <= s.redoCharPoint <= |s.chars|
  {
    && |s'.rec| == |s.rec| && |s'.chars| == |s.chars|
    && s.redoPoint <= s'.redoPoint <= |s'.rec| && s.redoCharPoint <= s'.redoCharPoint
    && s'.rec[..s.redoPoint] == s.rec[..s.redoPoint]
    && s'.chars[..s.redoCharPoint] == s.chars[..s.redoCharPoint]
    && s'.undoPoint == s.undoPoint && s'.undoCharPoint == s.undoCharPoint
  }

  /** The slot below the redo records of `s'` has the place and lengths of the newest record of `s`. */
  predicate TopLeft(s: Store, s': Store)
    requires Shape(s) && s.redoPoint < |s.rec|
  {
    && s.redoPoint < s'.redoPoint <= |s'.rec|
    && Fields(s'.rec[s'.redoPoint - 1]) == Fields(s.rec[s.redoPoint])
    && (s'.redoPoint < |s'.rec| ==> Fields(s'.rec[s'.redoPoint]) == Fields(s.rec[s.redoPoint]))
  }

  lemma RedoDiscardedFrame(s: Store)
    requires Movable(s) && s.redoPoint < |s.rec|
    ensures BelowUnchanged(s, RedoDiscarded(s)) && TopLeft(s, RedoDiscarded(s))
  {}

  /** What discarding does to the numbers. */
  lemma RedoDiscardedSide(s: Store)
    requires Movable(s) && s.redoPoint < |s.rec|
    ensures var s', side := RedoDiscarded(s), RawSide(s); var n := |side.lens| - 1;
      LooseRedo(s') && RawSide(s') == Side(side.lens[..n], side.point + side.lens[n])
  {}

  // ---------------------------------------------------------------- making room

  /** The moves of the loop below stay within the array. */
  predicate RoomWithin(s: Store, need: int) {
    LooseRedo(s) && Released(RawSide(s), s.undoCharPoint + need).point <= |s.chars|
  }

  /** They do exactly when the next one does and those after it do. */
  lemma RoomStep(s: Store, need: int)
    requires LooseRedo(s) && s.undoCharPoint + need > s.redoCharPoint && s.redoPoint < |s.rec|
    ensures RoomWithin(s, need) ==> Movable(s)
    ensures Movable(s) ==> BelowUnchanged(s, RedoDiscarded(s)) && s.redoPoint < RedoDiscarded(s).redoPoint
    ensures Movable(s) ==> LooseRedo(RedoDiscarded(s))
    ensures Movable(s) ==> (RoomWithin(s, need) <==> RoomWithin(RedoDiscarded(s), need))
  {
    hide LooseRecord, Released, RedoDiscarded;
    ReleasedStep(RawSide(s), s.undoCharPoint + need);
    if Movable(s) {
      RedoDiscardedSide(s);
      RedoDiscardedFrame(s);
    }
  }

  lemma RoomDone(s: Store, need: int)
    requires LooseRedo(s) && (s.undoCharPoint + need <= s.redoCharPoint || s.redoPoint == |s.rec|)
    ensures RoomWithin(s, need) && RoomFor(s, need) == s
  {
    ReleasedDone(RawSide(s), s.undoCharPoint + need);
  }

  lemma RoomWithinStep(s: Store, need: int)
    requires RoomWithin(s, need) && s.undoCharPoint + need > s.redoCharPoint && s.redoPoint < |s.rec|
    ensures Movable(s) && RoomWithin(RedoDiscarded(s), need)
    ensures Released(RawSide(RedoDiscarded(s)), s.undoCharPoint + need) == Released(RawSide(s), s.undoCharPoint + need)
  {
    hide LooseRecord, Released, RedoDiscarded;
    ReleasedStep(RawSide(s), s.undoCharPoint + need);
    RedoDiscardedSide(s);
    RedoDiscardedFrame(s);
  }

  /** Discards redo records until `need` more characters fit below the redo characters, or none is left. */
  function RoomFor(s: Store, need: int): Store
    requires RoomWithin(s, need)
    decreases |s.rec| - s.redoPoint
  {
    if s.undoCharPoint + need > s.redoCharPoint && s.redoPoint < |s.rec| then
      RoomWithinStep(s, need);
      RoomFor(RedoDiscarded(s), need)
    else s
  }

  /** What making room leaves alone, and what it does to the numbers. */
  lemma {:induction false} RoomForFrame(s: Store, need: int)
    requires RoomWithin(s, need)
    ensures var m := RoomFor(s, need);
      && LooseRedo(m) && RawSide(m) == Released(RawSide(s), s.undoCharPoint + need) && BelowUnchanged(s, m)
      && if s.undoCharPoint + need <= s.redoCharPoint || s.redoPoint == |s.rec| then m == s else TopLeft(s, m)
    decreases |s.rec| - s.redoPoint
  {
    hide LooseRecord, RedoDiscarded, Movable, Released;
    if s.undoCharPoint + need > s.redoCharPoint && s.redoPoint < |s.rec| {
      RoomWithinStep(s, need);
      RedoDiscardedFrame(s);
      RoomForFrame(RedoDiscarded(s), need);
      BelowTransitive(s, RedoDiscarded(s), RoomFor(s, need));
    } else {
      ReleasedDone(RawSide(s), s.undoCharPoint + need);
    }
  }

  lemma RedoSideWithin(s: Store, need: nat)
    requires RedoSide(s) && s.undoCharPoint + need <= |s.chars|
    ensures RoomWithin(s, need)
    ensures s.undoCharPoint + need > s.redoCharPoint ==> s.redoPoint < |s.rec|
  {
    hide LooseRecord, Tiled, Entries, Chars, Released, Lengths;
    RedoSpace(s);
    RedoSideLoose(s);
    LengthsSum(Redos(s));
    ReleasedEnough(RawSide(s), s.undoCharPoint + need);
    if s.redoPoint == |s.rec| { NothingLeft(s); }
  }

  /** On a redo side in order it finds room, and what is left is in order too. */
  lemma {:induction false} RoomForRoom(s: Store, need: nat)
    requires RedoSide(s) && s.undoCharPoint + need <= |s.chars|
    ensures RoomWithin(s, need)
    ensures var m := RoomFor(s, need);
      && RedoSide(m) && s.undoCharPoint + need <= m.redoCharPoint
      && Redos(m) == Shrink(Redos(s), |s.chars| - s.undoCharPoint - need)
    decreases |s.rec| - s.redoPoint
  {
    hide RedoDiscarded, RedoSide, RoomWithin, Redos, Movable, Chars;
    RedoSideWithin(s, need);
    RedoSpace(s);
    if s.undoCharPoint + need > s.redoCharPoint {
      RoomWithinStep(s, need);
      RedoDiscardedMeans(s);
      RedoDiscardedFrame(s);
      RoomForRoom(RedoDiscarded(s), need);
    }
  }

  lemma NothingLeft(s: Store)
    requires RedoSide(s) && s.redoPoint == |s.rec|
    ensures s.redoCharPoint == |s.chars|
  {}

  lemma BelowTransitive(a: Store, b: Store, c: Store)
    requires Shape(a) && 0 <= a.redoCharPoint <= |a.chars| && BelowUnchanged(a, b)
    requires Shape(b) && 0 <= b.redoCharPoint <= |b.chars| && BelowUnchanged(b, c)
    ensures BelowUnchanged(a, c)
  {
    assert c.rec[..a.redoPoint] == c.rec[..b.redoPoint][..a.redoPoint];
    assert b.rec[..a.redoPoint] == b.rec[..b.redoPoint][..a.redoPoint];
    assert c.chars[..a.redoCharPoint] == c.chars[..b.redoCharPoint][..a.redoCharPoint];
    assert b.chars[..a.redoCharPoint] == b.chars[..b.redoCharPoint][..a.redoCharPoint];
  }
}
