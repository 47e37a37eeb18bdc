/** Sorting the caller's rectangles for packing and bringing them back into the caller's order. */
module PackOrder {
  import opened Skyline
  import opened PackRun

  /** The two comparison functions: taller first and then wider first; and the original position. */
  datatype Order = ByHeight | ByOriginal

  function Compare(o: Order, p: Rect, q: Rect): int {
    match o
    case ByHeight =>
      if p.h > q.h then -1 else if p.h < q.h then 1
      else if p.w > q.w then -1 else if p.w < q.w then 1 else 0
    case ByOriginal =>
      if p.wasPacked < q.wasPacked then -1 else if p.wasPacked > q.wasPacked then 1 else 0
  }

  predicate IsPermutation(order: seq<nat>, n: nat) {
    && |order| == n && (forall i | 0 <= i < n :: order[i] < n)
    && forall i, j | 0 <= i < j < n :: order[i] != order[j]
  }

  function Arranged(rs: seq<Rect>, order: seq<nat>): (r: seq<Rect>)
    requires IsPermutation(order, |rs|)
    ensures |r| == |rs|
  {
    seq(|rs|, k requires 0 <= k < |rs| => rs[order[k]])
  }

  predicate InOrder(o: Order, rs: seq<Rect>) {
    forall i, j | 0 <= i < j < |rs| :: Compare(o, rs[i], rs[j]) <= 0
  }

  /** Taller rectangles come first, and of equally tall ones the wider. */
  predicate TallestFirst(rs: seq<Rect>) {
    forall i, j | 0 <= i < j < |rs| :: rs[i].h > rs[j].h || (rs[i].h == rs[j].h && rs[i].w >= rs[j].w)
  }

  predicate PositionsAscend(rs: seq<Rect>) {
    forall i, j | 0 <= i < j < |rs| :: rs[i].wasPacked <= rs[j].wasPacked
  }

  /** What the two comparisons make of an array in order. */
  lemma InOrderMeans(rs: seq<Rect>)
    ensures InOrder(ByHeight, rs) <==> TallestFirst(rs)
    ensures InOrder(ByOriginal, rs) <==> PositionsAscend(rs)
  {
    forall o, i, j | InOrder(o, rs) && 0 <= i < j < |rs| ensures Compare(o, rs[i], rs[j]) <= 0 {}
    if TallestFirst(rs) { assert InOrder(ByHeight, rs); }
    if PositionsAscend(rs) { assert InOrder(ByOriginal, rs); }
  }

  function Swapped<T>(s: seq<T>, j: nat): seq<T>
    requires 0 < j < |s|
  {
    s[j - 1 := s[j]][j := s[j - 1]]
  }

  lemma ArrangedSwapped(rs: seq<Rect>, order: seq<nat>, j: nat)
    requires IsPermutation(order, |rs|) && 0 < j < |rs|
    ensures IsPermutation(Swapped(order, j), |rs|)
    ensures Arranged(rs, Swapped(order, j)) == Swapped(Arranged(rs, order), j)
  {}

  /** The first `n` rectangles are in order, leaving aside how number `j` compares with those before it. */
  predicate InOrderBut(o: Order, rs: seq<Rect>, n: nat, j: nat) {
    n <= |rs| && forall p, q | 0 <= p < q < n && q != j :: Compare(o, rs[p], rs[q]) <= 0
  }

  lemma SwapKeepsOrder(o: Order, rs: seq<Rect>, n: nat, j: nat)
    requires 0 < j < n && InOrderBut(o, rs, n, j) && Compare(o, rs[j - 1], rs[j]) > 0
    ensures InOrderBut(o, Swapped(rs, j), n, j - 1)
  {
    var s := Swapped(rs, j);
    forall p, q | 0 <= p < q < n && q != j - 1 ensures Compare(o, s[p], s[q]) <= 0 {
      if q == j && p < j - 1 { assert Compare(o, rs[p], rs[j - 1]) <= 0; }
    }
  }

  lemma OrderClosed(o: Order, rs: seq<Rect>, n: nat, j: nat)
    requires InOrderBut(o, rs, n, j) && j < n && (j > 0 ==> Compare(o, rs[j - 1], rs[j]) <= 0)
    ensures InOrder(o, rs[..n])
  {
    forall p | 0 <= p < j ensures Compare(o, rs[p], rs[j]) <= 0 {
      if p < j - 1 { assert Compare(o, rs[p], rs[j - 1]) <= 0; }
    }
  }

  /** Sorts in place.  Only the contract matters to the packer: some permutation that is in order. */
  method Sort(a: array<Rect>, o: Order) returns (ghost order: seq<nat>)
    modifies a
    ensures IsPermutation(order, a.Length)
    ensures a[..] == Arranged(old(a[..]), order)
    ensures match o
      case ByHeight => TallestFirst(a[..])
      case ByOriginal => PositionsAscend(a[..])
  {
    hide Compare, Swapped;
    order := seq(a.Length, i => if i >= 0 then i else 0);
    for n := 0 to a.Length
      invariant IsPermutation(order, a.Length) && a[..] == Arranged(old(a[..]), order)
      invariant InOrder(o, a[..n])
    {
      order := Insert(a, o, n, old(a[..]), order);
    }
    assert a[..a.Length] == a[..];
    InOrderMeans(a[..]);
  }

  /** Moves rectangle `n` down to its place among the first `n`. */
  method Insert(a: array<Rect>, o: Order, n: nat, ghost rs: seq<Rect>, ghost order0: seq<nat>)
    returns (ghost order: seq<nat>)
    requires n < a.Length == |rs| == |order0| && IsPermutation(order0, |rs|) && a[..] == Arranged(rs, order0)
    requires InOrder(o, a[..n])
    modifies a
    ensures IsPermutation(order, |rs|) && a[..] == Arranged(rs, order)
    ensures InOrder(o, a[..n + 1])
  {
    hide Compare, IsPermutation, Arranged;
    var j := n;
    order := order0;
    while j > 0 && Compare(o, a[j - 1], a[j]) > 0
      invariant 0 <= j <= n && IsPermutation(order, |rs|) && a[..] == Arranged(rs, order)
      invariant |order| == |rs| && InOrderBut(o, a[..], n + 1, j)
    {
      SwapKeepsOrder(o, a[..], n + 1, j);
      ArrangedSwapped(rs, order, j);
      ghost var was := a[..];
      a[j - 1], a[j] := a[j], a[j - 1];
      assert a[..] == Swapped(was, j);
      order := Swapped(order, j);
      j := j - 1;
    }
    OrderClosed(o, a[..], n + 1, j);
  }

  // ---------------------------------------------------------------- there and back

  /** Every rectangle carries its position, so that the second sort can restore it. */
  function Marked(rs: seq<Rect>): (r: seq<Rect>)
    ensures |r| == |rs|
  {
    seq(|rs|, i requires 0 <= i < |rs| => rs[i].(wasPacked := i))
  }

  /** The same rectangles, possibly moved. */
  predicate MovedOnly(rs: seq<Rect>, rs': seq<Rect>) {
    |rs'| == |rs| && forall i | 0 <= i < |rs| :: rs'[i] == rs[i].(x := rs'[i].x, y := rs'[i].y)
  }

  predicate FlagsSet(rs: seq<Rect>, rs': seq<Rect>) {
    |rs'| == |rs| && forall i | 0 <= i < |rs| :: rs'[i] == rs[i].(wasPacked := if Refused(rs[i]) then 0 else 1)
  }

  /** What packing does to the caller's array: every rectangle is where it was, with its id and size;
      taken from the tallest to the lowest they went through one run of the packer; and each is
      flagged packed exactly when that run did not refuse it. */
  ghost predicate Outcome(t: Target, before: seq<Rect>, after: seq<Rect>, order: seq<nat>, place: seq<nat>,
      skies: seq<Sky>) {
    && |after| == |before| && IsPermutation(order, |before|)
    && IsPermutation(place, |before|) && (forall i | 0 <= i < |before| :: order[place[i]] == i)
    && (forall i | 0 <= i < |before| ::
          after[i] == before[i].(x := after[i].x, y := after[i].y, wasPacked := if Refused(after[i]) then 0 else 1))
    && TallestFirst(Arranged(before, order))
    && Run(t, skies, Arranged(after, order))
  }

  /** Which rectangle of the caller went through the packer before which. */
  lemma TallestPacked(t: Target, before: seq<Rect>, after: seq<Rect>, order: seq<nat>, place: seq<nat>, skies: seq<Sky>)
    requires Outcome(t, before, after, order, place, skies)
    ensures |order| == |before| && forall i | 0 <= i < |before| :: order[i] < |before|
    ensures forall i, j | 0 <= i < j < |before| ::
      || before[order[i]].h > before[order[j]].h
      || (before[order[i]].h == before[order[j]].h && before[order[i]].w >= before[order[j]].w)
  {
    hide Run;
    var rs := Arranged(before, order);
    forall i, j | 0 <= i < j < |before|
      ensures before[order[i]].h >= before[order[j]].h
      ensures before[order[i]].h == before[order[j]].h ==> before[order[i]].w >= before[order[j]].w
    {
      assert rs[i].h > rs[j].h || (rs[i].h == rs[j].h && rs[i].w >= rs[j].w);
    }
  }

  lemma SortedSizes(before: seq<Rect>, order: seq<nat>)
    requires IsPermutation(order, |before|) && forall i | 0 <= i < |before| :: before[i].w >= 0 && before[i].h >= 0
    ensures var rs := Arranged(Marked(before), order); forall i | 0 <= i < |rs| :: rs[i].w >= 0 && rs[i].h >= 0
  {}

  lemma {:induction false} AtLeastIndex(c: seq<int>, i: nat)
    requires i < |c| && (forall i, j | 0 <= i < j < |c| :: c[i] < c[j]) && c[0] >= 0
    ensures c[i] >= i
  {
    if i > 0 { AtLeastIndex(c, i - 1); }
  }

  lemma {:induction false} AtMostIndex(c: seq<int>, i: nat)
    requires i < |c| && (forall i, j | 0 <= i < j < |c| :: c[i] < c[j]) && c[|c| - 1] < |c|
    ensures c[i] <= i
    decreases |c| - i
  {
    if i < |c| - 1 { AtMostIndex(c, i + 1); }
  }

  lemma OneToOne(order: seq<nat>, n: nat, i: nat, j: nat)
    requires IsPermutation(order, n) && i < n && j < n
    ensures order[i] == order[j] <==> i == j
  {
    assert i < j ==> order[i] != order[j];
    assert j < i ==> order[j] != order[i];
  }

  /** Sorting by the carried positions undoes the first sort. */
  lemma BackInPlace(order: seq<nat>, mid: seq<Rect>, back: seq<nat>)
    requires IsPermutation(order, |mid|) && IsPermutation(back, |mid|)
    requires forall k | 0 <= k < |mid| :: mid[k].wasPacked == order[k]
    requires PositionsAscend(Arranged(mid, back))
    ensures forall i | 0 <= i < |mid| :: order[back[i]] == i
    ensures forall k | 0 <= k < |mid| :: back[order[k]] == k
  {
    var n := |mid|;
    var c: seq<int> := seq(n, i requires 0 <= i < n => order[back[i]]);
    forall i, j | 0 <= i < j < n ensures c[i] < c[j] {
      assert Arranged(mid, back)[i].wasPacked <= Arranged(mid, back)[j].wasPacked;
      OneToOne(back, n, i, j);
      OneToOne(order, n, back[i], back[j]);
    }
    forall i | 0 <= i < n ensures c[i] == i {
      AtLeastIndex(c, i);
      AtMostIndex(c, i);
    }
    forall k | 0 <= k < n ensures back[order[k]] == k {
      assert c[order[k]] == order[k];
      OneToOne(order, n, back[order[k]], k);
    }
  }

  /** The pieces of a call put together. */
  lemma OutcomeHolds(t: Target, before: seq<Rect>, order: seq<nat>, mid: seq<Rect>, back: seq<nat>, after: seq<Rect>,
      skies: seq<Sky>)
    requires IsPermutation(order, |before|) && TallestFirst(Arranged(Marked(before), order))
    requires MovedOnly(Arranged(Marked(before), order), mid) && Run(t, skies, mid)
    requires IsPermutation(back, |mid|) && PositionsAscend(Arranged(mid, back))
    requires FlagsSet(Arranged(mid, back), after)
    ensures Outcome(t, before, after, order, back, skies)
    ensures Boxes(after) == Boxes(mid)
  {
    var marked := Arranged(Marked(before), order);
    forall k | 0 <= k < |mid| ensures mid[k].wasPacked == order[k] {
      assert mid[k] == marked[k].(x := mid[k].x, y := mid[k].y);
    }
    BackInPlace(order, mid, back);
    forall i | 0 <= i < |after|
      ensures after[i] == before[i].(x := after[i].x, y := after[i].y, wasPacked := if Refused(after[i]) then 0 else 1)
    {
      assert mid[back[i]] == marked[back[i]].(x := mid[back[i]].x, y := mid[back[i]].y);
    }
    SameOrder(before, order);
    SameRun(t, order, mid, after, skies);
    BoxesWithin(after, mid, back);
    BoxesWithin(mid, after, order);
  }

  /** What a caller sees: of the rectangles flagged packed, those that take space lie inside the target
      and overlap neither each other nor anything packed by an earlier call. */
  lemma NothingOverlaps(t: Target, P: set<Box>, before: seq<Rect>, after: seq<Rect>, order: seq<nat>, place: seq<nat>,
      skies: seq<Sky>)
    requires Sensible(t) && Outcome(t, before, after, order, place, skies) && Packing(P, skies[0], t.width, t.height)
    requires forall r | r in before :: r.h >= 0
    ensures forall i | 0 <= i < |after| && after[i].wasPacked == 1 && !Empty(after[i]) ::
      Inside(BoxOf(after[i]), t.width, t.height) && forall a | a in P :: Disjoint(a, BoxOf(after[i]))
    ensures forall i, j
      | 0 <= i < |after| && 0 <= j < |after| && i != j && after[i].wasPacked == 1 == after[j].wasPacked
        && !Empty(after[i]) && !Empty(after[j]) ::
      Disjoint(BoxOf(after[i]), BoxOf(after[j]))
  {
    hide Run, Packing, Sensible, Inside, TallestFirst, Empty, Refused;
    var rs := Arranged(after, order);
    forall r | r in rs ensures r.h >= 0 { ArrangedHeights(before, after, order, r); }
    RunKeeps(t, P, skies, rs);
    forall i | 0 <= i < |after| ensures rs[place[i]] == after[i] {}
    forall i, j | 0 <= i < |after| && 0 <= j < |after| && i != j ensures place[i] != place[j] {
      OneToOne(place, |after|, i, j);
    }
  }

  lemma ArrangedHeights(before: seq<Rect>, after: seq<Rect>, order: seq<nat>, r: Rect)
    requires |after| == |before| && IsPermutation(order, |before|) && r in Arranged(after, order)
    requires forall i | 0 <= i < |before| :: after[i].h == before[i].h
    requires forall r | r in before :: r.h >= 0
    ensures r.h >= 0
  {
    var k :| 0 <= k < |after| && Arranged(after, order)[k] == r;
    assert before[order[k]] in before;
  }

  lemma SameOrder(before: seq<Rect>, order: seq<nat>)
    requires IsPermutation(order, |before|) && TallestFirst(Arranged(Marked(before), order))
    ensures TallestFirst(Arranged(before, order))
  {
    var m, b := Arranged(Marked(before), order), Arranged(before, order);
    forall i, j | 0 <= i < j < |b| ensures b[i].h > b[j].h || (b[i].h == b[j].h && b[i].w >= b[j].w) {
      assert m[i].h > m[j].h || (m[i].h == m[j].h && m[i].w >= m[j].w);
    }
  }

  /** The flags play no part in a run. */
  lemma SameRun(t: Target, order: seq<nat>, mid: seq<Rect>, after: seq<Rect>, skies: seq<Sky>)
    requires |after| == |mid| && IsPermutation(order, |mid|) && Run(t, skies, mid)
    requires forall k | 0 <= k < |mid| :: after[order[k]] == mid[k].(wasPacked := after[order[k]].wasPacked)
    ensures Run(t, skies, Arranged(after, order))
  {
    var rs := Arranged(after, order);
    forall k | 0 <= k < |rs| ensures Step(t, skies[k], rs[k], skies[k + 1]) {
      assert Step(t, skies[k], mid[k], skies[k + 1]);
    }
  }

  lemma BoxesWithin(a: seq<Rect>, b: seq<Rect>, f: seq<nat>)
    requires |f| == |a|
    requires forall i | 0 <= i < |a| :: f[i] < |b| && a[i] == b[f[i]].(wasPacked := a[i].wasPacked)
    ensures Boxes(a) <= Boxes(b)
  {
    forall c | c in Boxes(a) ensures c in Boxes(b) {
      var r :| r in a && Occupies(r) && BoxOf(r) == c;
      var i :| 0 <= i < |a| && a[i] == r;
      assert b[f[i]] in b && Occupies(b[f[i]]);
    }
  }
}
