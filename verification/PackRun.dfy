/** A run of the packer over a list of rectangles, on values: what the caller's array holds before
    and after, and what the packer promises over a whole run. */
module PackRun {
  import opened Skyline
  import opened SkylineSearch

  const MAXVAL := 0x7fff_ffff

  datatype Rect = Rect(id: int, w: int, h: int, x: int, y: int, wasPacked: int)

  datatype Target = Target(width: int, height: int, align: int, heuristic: Heuristic, numNodes: int)

  predicate Sensible(t: Target) {
    t.width > 0 && 0 <= t.height < SENTINEL_Y && t.align > 0 && t.numNodes > 0
  }

  predicate Empty(r: Rect) { r.w == 0 || r.h == 0 }

  predicate Refused(r: Rect) { r.x == MAXVAL && r.y == MAXVAL }

  predicate Occupies(r: Rect) { !Empty(r) && !Refused(r) }

  function BoxOf(r: Rect): Box { Box(r.x, r.y, r.w, r.h) }

  function Boxes(rs: seq<Rect>): set<Box> {
    set r | r in rs && Occupies(r) :: BoxOf(r)
  }

  /** The nodes not on the skyline. */
  function FreeNodes(t: Target, s: Sky): int { t.numNodes + 2 - |s| }

  /** One rectangle: an empty one goes to the origin and changes nothing; another is placed exactly
      when a node is free and it fits somewhere, and then where the heuristic says. */
  ghost predicate Step(t: Target, s: Sky, r: Rect, s': Sky) {
    if Empty(r) then r.x == 0 && r.y == 0 && s' == s
    else
      && t.align > 0 && FreeNodes(t, s) >= 0
      && Answer(s, FreeNodes(t, s), t.width, t.height, t.align, t.heuristic, r.w, r.h, !Refused(r), r.x, r.y)
      && if Refused(r) then s' == s
         else s != [] && Kept(s, r.x) < |s| && s' == Splice(s, r.x, r.w, r.y + r.h)
  }

  /** The skylines before, between and after the rectangles. */
  ghost predicate Run(t: Target, skies: seq<Sky>, rs: seq<Rect>) {
    |skies| == |rs| + 1 && forall i | 0 <= i < |rs| :: Step(t, skies[i], rs[i], skies[i + 1])
  }

  lemma NoBoxes(P: set<Box>)
    ensures P + Boxes([]) == P
  {}

  lemma OneMore(t: Target, skies: seq<Sky>, done: seq<Rect>, r: Rect, s: Sky, P0: set<Box>, P: set<Box>, P': set<Box>)
    requires Run(t, skies, done) && Step(t, skies[|done|], r, s)
    requires P == P0 + Boxes(done) && P' == if Occupies(r) then P + {BoxOf(r)} else P
    ensures Run(t, skies + [s], done + [r]) && P' == P0 + Boxes(done + [r])
  {}

  /** A placed rectangle is below the marker for a refused one. */
  lemma AnswerLow(s: Sky, free: nat, t: Target, w: int, h: int, x: int, y: int)
    requires t.align > 0 && t.height < SENTINEL_Y && h > 0
    requires Answer(s, free, t.width, t.height, t.align, t.heuristic, w, h, true, x, y)
    ensures y < MAXVAL
  {}

  lemma AnswerAnywhere(s: Sky, free: nat, t: Target, w: int, h: int, x: int, y: int, x': int, y': int)
    requires t.align > 0 && Answer(s, free, t.width, t.height, t.align, t.heuristic, w, h, false, x, y)
    ensures Answer(s, free, t.width, t.height, t.align, t.heuristic, w, h, false, x', y')
  {}

  // ---------------------------------------------------------------- nothing overlaps

  lemma StepKeeps(t: Target, P: set<Box>, s: Sky, r: Rect, s': Sky)
    requires Sensible(t) && Packing(P, s, t.width, t.height) && Step(t, s, r, s') && r.h >= 0
    ensures Occupies(r) ==> Inside(BoxOf(r), t.width, t.height) && forall a | a in P :: Disjoint(a, BoxOf(r))
    ensures Packing(if Occupies(r) then P + {BoxOf(r)} else P, s', t.width, t.height)
  {
    hide Splice, Kept, Over, Beneath, Top, Chosen, SomewhereFits, Disjoint;
    if Occupies(r) {
      PlacingKeeps(P, s, t.width, t.height, BoxOf(r), Aligned(r.w, t.align));
      assert Packing(P + {BoxOf(r)}, s', t.width, t.height);
    }
  }

  /** Whatever list of rectangles comes, those placed are inside the target, apart from each other
      and from everything placed before, and under the skyline. */
  lemma {:induction false} RunKeeps(t: Target, P: set<Box>, skies: seq<Sky>, rs: seq<Rect>)
    requires Sensible(t) && Run(t, skies, rs) && Packing(P, skies[0], t.width, t.height)
    requires forall r | r in rs :: r.h >= 0
    ensures Packing(P + Boxes(rs), skies[|rs|], t.width, t.height)
    ensures forall i | 0 <= i < |rs| && Occupies(rs[i]) ::
      Inside(BoxOf(rs[i]), t.width, t.height) && forall a | a in P :: Disjoint(a, BoxOf(rs[i]))
    ensures forall i, j | 0 <= i < j < |rs| && Occupies(rs[i]) && Occupies(rs[j]) ::
      Disjoint(BoxOf(rs[i]), BoxOf(rs[j]))
    decreases |rs|
  {
    hide Packing, Step, Sensible, Disjoint, Inside;
    if rs == [] {
      assert P + Boxes(rs) == P;
    } else {
      var r, P' := rs[0], if Occupies(rs[0]) then P + {BoxOf(rs[0])} else P;
      StepKeeps(t, P, skies[0], r, skies[1]);
      RunKeeps(t, P', skies[1..], rs[1..]);
      assert P' + Boxes(rs[1..]) == P + Boxes(rs) by { BoxesSplit(rs); }
    }
  }

  lemma BoxesSplit(rs: seq<Rect>)
    requires rs != []
    ensures Boxes(rs) == Boxes(rs[1..]) + if Occupies(rs[0]) then {BoxOf(rs[0])} else {}
  {
    assert rs == [rs[0]] + rs[1..];
  }

  // ---------------------------------------------------------------- running out of nodes

  /** A rectangle that fits is refused: no node is free. */
  ghost predicate Starved(t: Target, s: Sky, r: Rect)
    requires t.align > 0
  {
    !Empty(r) && Refused(r) && Aligned(r.w, t.align) >= 0
    && Aligned(r.w, t.align) <= t.width && SomewhereFits(s, t.width, t.height, Aligned(r.w, t.align), r.h)
  }

  lemma {:induction false} PointsAtMost(s: Sky, i: nat)
    requires Sorted(s) && i < |s| && s[0].x >= 0
    ensures s[i].x >= i
  {
    if i > 0 { PointsAtMost(s, i - 1); }
  }

  /** A skyline has at most one point per column, and the sentinel. */
  lemma EnoughNodes(t: Target, s: Sky)
    requires Over(s, t.width, t.height) && t.numNodes >= t.width
    ensures FreeNodes(t, s) > 0
  {
    PointsAtMost(s, |s| - 1);
  }

  /** With as many nodes as columns a rectangle is refused only when it fits nowhere. */
  lemma NeverStarved(t: Target, P: set<Box>, skies: seq<Sky>, rs: seq<Rect>, i: nat)
    requires Sensible(t) && t.numNodes >= t.width
    requires Run(t, skies, rs) && Packing(P, skies[0], t.width, t.height) && i < |rs|
    requires forall r | r in rs :: r.h >= 0
    ensures !Starved(t, skies[i], rs[i])
  {
    assert Run(t, skies[..i + 1], rs[..i]);
    RunKeeps(t, P, skies[..i + 1], rs[..i]);
    EnoughNodes(t, skies[i]);
    assert Step(t, skies[i], rs[i], skies[i + 1]);
  }

  /** After `k` unit squares next to each other on the floor: one point for each. */
  function Stairs(k: nat, width: int): Sky {
    seq(k + 2, i => if i < k then Pt(i, 1) else if i == k then Pt(k, 0) else Pt(width, SENTINEL_Y))
  }

  lemma StairsHeights(k: nat, width: int, p: int)
    requires k < width && 0 <= p < width
    ensures Sorted(Stairs(k, width)) && HeightAt(Stairs(k, width), p) == if p < k then 1 else 0
  {
    LocateIs(Stairs(k, width), p, if p < k then p else k);
  }

  lemma StairsTops(k: nat, width: int, a: nat, p: int)
    requires k < width && 0 < a && 0 <= p && p + a <= width
    ensures Top(Stairs(k, width), p, a) == if p < k then 1 else 0
  {
    var s := Stairs(k, width);
    StairsHeights(k, width, p);
    TopBounds(s, p, a, p);
    TopSplit(s, p, a, 0);
    forall q | p <= q < p + a ensures HeightAt(s, q) <= if p < k then 1 else 0 { StairsHeights(k, width, q); }
    TopReached(s, p, a, if p < k then 1 else 0);
  }

  lemma StairsWaste(k: nat, width: int, a: nat, p: int)
    requires k < width && 0 < a && k <= p && p + a <= width
    ensures Waste(Stairs(k, width), p, a) == 0
  {
    var s := Stairs(k, width);
    LocateIs(s, p, k);
    assert a * (0 - s[k].y) == 0;
    assert Scan(s, k + 1, p, a, 0, a, 0) == (0, 0);
  }

  /** Either heuristic puts the next square right behind the others. */
  lemma StairsNext(k: nat, width: int, height: int, heuristic: Heuristic, a: nat)
    requires k < width && 0 < a && k + a <= width && height >= 1
    ensures Chosen(Stairs(k, width), width, height, heuristic, a, 1, k, 0)
    ensures SomewhereFits(Stairs(k, width), width, height, a, 1)
  {
    var s := Stairs(k, width);
    StairsTops(k, width, a, k);
    forall p | 0 <= p && p + a <= width ensures Top(s, p, a) == if p < k then 1 else 0 { StairsTops(k, width, a, p); }
    assert s[k].x == k;
    StairsWaste(k, width, a, k);
    forall p | Candidate(s, width, a, p) ensures NoWorse(0, 0, k, Top(s, p, a), Waste(s, p, a), p) {
      if p >= k { StairsWaste(k, width, a, p); }
    }
  }

  lemma StairsGrow(k: nat, width: int)
    requires k + 1 < width
    ensures Kept(Stairs(k, width), k) < k + 2 && Splice(Stairs(k, width), k, 1, 1) == Stairs(k + 1, width)
  {
    LocateIs(Stairs(k, width), k, k);
  }

  /** Unit squares, all placed but the last. */
  function Square(k: nat, n: nat): Rect {
    if k < n then Rect(k, 1, 1, k, 0, 1) else Rect(k, 1, 1, MAXVAL, MAXVAL, 0)
  }

  lemma SquareStep(t: Target, k: nat)
    requires Sensible(t) && t.height >= 1 && k <= t.numNodes < t.width && t.numNodes - 1 + t.align <= t.width
    ensures Step(t, Stairs(k, t.width), Square(k, t.numNodes), Stairs(if k < t.numNodes then k + 1 else k, t.width))
    ensures k == t.numNodes && (t.height >= 2 || k + t.align <= t.width) ==>
      Starved(t, Stairs(k, t.width), Square(k, t.numNodes))
  {
    assert Aligned(1, t.align) == t.align;
    if k < t.numNodes {
      StairsNext(k, t.width, t.height, t.heuristic, t.align);
      StairsTops(k, t.width, t.align, k);
      if k + 1 < t.width { StairsGrow(k, t.width); }
    } else {
      StairsTops(k, t.width, t.align, 0);
      if k + t.align <= t.width { StairsTops(k, t.width, t.align, k); }
    }
  }

  // ---------------------------------------------------------------- one row

  /** How many of the columns from `x` on are built over. */
  function Built(s: Sky, x: int, w: nat): (n: nat)
    requires s != []
    ensures n <= w
    decreases w
  {
    if w == 0 then 0 else (if HeightAt(s, x) > 0 then 1 else 0) + Built(s, x + 1, w - 1)
  }

  lemma {:induction false} BuiltGrows(s: Sky, s': Sky, x: int, w: nat, c: int)
    requires s != [] && s' != []
    requires forall p | x <= p < x + w && HeightAt(s, p) > 0 :: HeightAt(s', p) > 0
    requires x <= c < x + w ==> HeightAt(s, c) <= 0 < HeightAt(s', c)
    ensures Built(s', x, w) >= Built(s, x, w) + if x <= c < x + w then 1 else 0
    decreases w
  {
    if w > 0 { BuiltGrows(s, s', x + 1, w - 1, c); }
  }

  lemma {:induction false} BuiltSplit(s: Sky, x: int, a: nat, b: nat)
    requires s != []
    ensures Built(s, x, a + b) == Built(s, x, a) + Built(s, x + a, b)
    decreases a
  {
    if a > 0 { BuiltSplit(s, x + 1, a - 1, b); }
  }

  lemma {:induction false} NothingBuilt(s: Sky, x: int, w: nat)
    requires s != [] && forall p | x <= p < x + w :: HeightAt(s, p) <= 0
    ensures Built(s, x, w) == 0
    decreases w
  {
    if w > 0 { NothingBuilt(s, x + 1, w - 1); }
  }

  /** In a target of one row every point beyond the first two stands for a column built over. */
  predicate Paid(t: Target, s: Sky) {
    s != [] && t.width >= 0 && |s| <= 2 + Built(s, 0, t.width)
  }

  /** In one row a rectangle that takes space builds over a free column and over no built one less. */
  lemma PlacedBuilds(t: Target, s: Sky, r: Rect)
    requires Sensible(t) && t.height == 1 && Over(s, t.width, 1) && r.w > 0 && r.h > 0 && Aligned(r.w, t.align) >= r.w
    requires 0 <= r.x && r.x + Aligned(r.w, t.align) <= t.width && Top(s, r.x, Aligned(r.w, t.align)) + r.h <= 1
    requires Kept(s, r.x) < |s|
    ensures var s' := Splice(s, r.x, r.w, 1); s' != [] && Built(s', 0, t.width) >= Built(s, 0, t.width) + 1
  {
    hide Splice, Locate, Kept, Top, Built, HeightAt;
    var w, s' := Aligned(r.w, t.align), Splice(s, r.x, r.w, 1);
    TopSplit(s, r.x, w, 0);
    SpliceKeeps(s, t.width, 1, r.x, r.w, 1);
    forall p | 0 <= p < t.width && HeightAt(s, p) > 0 ensures HeightAt(s', p) > 0 {
      SpliceHeights(s, t.width, 1, r.x, r.w, 1, p);
    }
    SpliceHeights(s, t.width, 1, r.x, r.w, 1, r.x);
    TopBounds(s, r.x, w, r.x);
    BuiltGrows(s, s', 0, t.width, r.x);
  }

  lemma StepStaysPaid(t: Target, s: Sky, r: Rect, s': Sky)
    requires Sensible(t) && t.height == 1 && Over(s, t.width, 1) && Step(t, s, r, s') && r.h >= 0 && Paid(t, s)
    ensures Paid(t, s')
  {
    hide Locate, Kept, Resume, Built, HeightAt, Chosen, SomewhereFits, Top, Over, Aligned;
    if !Empty(r) && !Refused(r) {
      KeptBounds(s, t.width, 1, r.x);
      TopSplit(s, r.x, Aligned(r.w, t.align), 0);
      PlacedBuilds(t, s, r);
    }
  }

  lemma {:induction false} RunStaysPaid(t: Target, skies: seq<Sky>, rs: seq<Rect>, i: nat)
    requires Sensible(t) && t.height == 1 && Run(t, skies, rs) && skies[0] == Flat(t.width) && i <= |rs|
    requires forall r | r in rs :: r.h >= 0
    ensures Over(skies[i], t.width, 1) && Paid(t, skies[i])
    decreases i
  {
    FlatIsPacking(t.width, 1);
    assert Run(t, skies[..i + 1], rs[..i]);
    RunKeeps(t, {}, skies[..i + 1], rs[..i]);
    if i > 0 {
      RunStaysPaid(t, skies, rs, i - 1);
      assert Step(t, skies[i - 1], rs[i - 1], skies[i]);
      StepStaysPaid(t, skies[i - 1], rs[i - 1], skies[i]);
    }
  }

  /** Columns nothing is built over are not among those built over. */
  lemma FreeColumns(s: Sky, width: int, p: int, w: nat)
    requires s != [] && 0 <= p && p + w <= width && Top(s, p, w) <= 0
    ensures Built(s, 0, width) <= width - w
  {
    hide HeightAt, Top, Built;
    forall q | p <= q < p + w ensures HeightAt(s, q) <= 0 { TopBounds(s, p, w, q); }
    NothingBuilt(s, p, w);
    BuiltSplit(s, 0, p, w);
    BuiltSplit(s, 0, p + w, width - p - w);
  }

  /** In one row a rectangle that fits leaves enough columns free to pay for its node. */
  lemma OneRowEnough(t: Target, s: Sky, r: Rect, s': Sky)
    requires Sensible(t) && t.height == 1 && t.numNodes + t.align > t.width
    requires Over(s, t.width, 1) && Paid(t, s) && Step(t, s, r, s') && r.h >= 0
    ensures !Starved(t, s, r)
  {
    hide Built, Top, Over, Chosen, Splice, Kept, Aligned;
    if Starved(t, s, r) {
      var w := Aligned(r.w, t.align);
      var p :| 0 <= p && p + w <= t.width && Top(s, p, w) + r.h <= 1;
      AtLeastAlign(r.w, t.align);
      FreeColumns(s, t.width, p, w);
    }
  }

  lemma AtLeastAlign(w: int, align: int)
    requires w > 0 && align > 0
    ensures Aligned(w, align) >= align
  {
    var r := w + align - 1;
    assert r / align >= 1;
    assert r - r % align == align * (r / align);
    assert align * (r / align) >= align * 1;
  }

  /** A run on an empty target that refuses its rectangle `i` although it fits. */
  ghost predicate StarvedRun(t: Target, skies: seq<Sky>, rs: seq<Rect>, i: nat)
    requires t.align > 0
  {
    && Run(t, skies, rs) && skies[0] == Flat(t.width) && (forall r | r in rs :: r.h >= 0)
    && i < |rs| && Starved(t, skies[i], rs[i])
  }

  ghost predicate NeverStarves(t: Target)
    requires t.align > 0
  {
    forall skies: seq<Sky>, rs: seq<Rect>, i: nat :: !StarvedRun(t, skies, rs, i)
  }

  /** When the nodes are enough. */
  predicate EnoughFor(t: Target) {
    t.numNodes >= t.width || t.height == 0 || (t.height == 1 && t.numNodes + t.align > t.width)
  }

  /** Contrary to what the header promises for the default quantised widths, the nodes are enough only
      when there are as many as columns, unless the target is too low to stack anything: and with as
      many as columns quantising changes nothing. */
  lemma NodesEnoughExactly(t: Target)
    requires Sensible(t)
    requires t.align == 1 || QuantisedAlign(t.align, t.width, t.numNodes)
    ensures NeverStarves(t) <==> EnoughFor(t)
    ensures t.numNodes >= t.width ==> t.align == 1
  {
    if t.numNodes >= t.width { QuantisedIsOne(t.align, t.width, t.numNodes); }
    if EnoughFor(t) {
      forall skies: seq<Sky>, rs: seq<Rect>, i: nat ensures !StarvedRun(t, skies, rs, i) {
        NotStarvedRun(t, skies, rs, i);
      }
    } else {
      RunsDry(t);
    }
  }

  lemma NotStarvedRun(t: Target, skies: seq<Sky>, rs: seq<Rect>, i: nat)
    requires Sensible(t) && EnoughFor(t)
    ensures !StarvedRun(t, skies, rs, i)
  {
    if Run(t, skies, rs) && skies[0] == Flat(t.width) && (forall r | r in rs :: r.h >= 0) && i < |rs| {
      FlatIsPacking(t.width, t.height);
      if t.numNodes >= t.width {
        NeverStarved(t, {}, skies, rs, i);
      } else if t.height == 1 {
        RunStaysPaid(t, skies, rs, i);
        assert Step(t, skies[i], rs[i], skies[i + 1]);
        OneRowEnough(t, skies[i], rs[i], skies[i + 1]);
      } else {
        NothingFits(t, skies[i], rs[i]);
      }
    }
  }

  lemma NothingFits(t: Target, s: Sky, r: Rect)
    requires Sensible(t) && t.height == 0 && r.h >= 0
    ensures !Starved(t, s, r)
  {
    if s != [] {
      forall p, w: nat ensures Top(s, p, w) >= 0 { TopSplit(s, p, w, 0); }
    }
  }

  lemma QuantisedIsOne(align: int, width: int, n: int)
    requires 0 < width <= n && align > 0 && (align == 1 || QuantisedAlign(align, width, n))
    ensures align == 1
  {
    assert align >= 2 ==> n * (align - 1) >= n * 1;
  }

  lemma {:induction false} Spread(n: int, a: int)
    requires n > 0 && a > 0
    ensures n * a >= n - 1 + a
    decreases n
  {
    if n > 1 {
      Spread(n - 1, a);
      assert n * a == (n - 1) * a + a;
    }
  }

  lemma LastSquareFits(align: int, width: int, n: int)
    requires 0 < n < width && align > 0 && (align == 1 || QuantisedAlign(align, width, n))
    ensures n - 1 + align <= width
  {
    if align > 1 {
      Spread(n, align - 1);
    }
  }

  lemma StarvesOnce(t: Target, skies: seq<Sky>, rs: seq<Rect>, i: nat)
    requires t.align > 0 && StarvedRun(t, skies, rs, i)
    ensures !NeverStarves(t)
  {}

  lemma RunsDry(t: Target)
    requires Sensible(t) && !EnoughFor(t)
    requires t.align == 1 || QuantisedAlign(t.align, t.width, t.numNodes)
    ensures !NeverStarves(t)
  {
    hide Step, Starved, Refused, Empty;
    LastSquareFits(t.align, t.width, t.numNodes);
    var n, w := t.numNodes, t.width;
    var rs := seq(n + 1, k => if k >= 0 then Square(k, n) else Square(0, n));
    var skies := seq(n + 2, k => Stairs(if 0 <= k <= n then k else n, w));
    forall k | 0 <= k < |rs| ensures Step(t, skies[k], rs[k], skies[k + 1]) { SquareStep(t, k); }
    assert Run(t, skies, rs);
    forall r | r in rs ensures r.h >= 0 {
      var k :| 0 <= k < |rs| && rs[k] == r;
    }
    assert skies[0] == Stairs(0, w) == Flat(w);
    SquareStep(t, n);
    StarvesOnce(t, skies, rs, n);
  }
}
