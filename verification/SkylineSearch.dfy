/** The search for a position, on values: what the two scans of the search compute, and why that is
    the position the heuristic promises. */
module SkylineSearch {
  import opened Skyline

  datatype Heuristic = BottomLeftHeuristic | BestFitHeuristic

  /** A position the best-fit search looks at: its left or its right edge is at a point. */
  ghost predicate Candidate(s: Sky, width: int, w: int, x: int) {
    0 <= x && x + w <= width && exists i | 0 <= i < |s| :: s[i].x == x || s[i].x == x + w
  }

  predicate NoWorse(y: int, waste: int, x: int, y': int, waste': int, x': int) {
    y < y' || (y == y' && (waste < waste' || (waste == waste' && x <= x')))
  }

  /** The lowest position over every x at which the rectangle fits; among the candidates that are as
      low, the one with least waste; among those, the leftmost. */
  ghost predicate BestFit(s: Sky, width: int, height: int, w: nat, h: int, x: int, y: int) {
    && s != [] && Candidate(s, width, w, x) && y == Top(s, x, w) && y + h <= height
    && (forall p | 0 <= p && p + w <= width :: y <= Top(s, p, w))
    && (forall p | Candidate(s, width, w, p) && Top(s, p, w) + h <= height ::
          NoWorse(y, Waste(s, x, w), x, Top(s, p, w), Waste(s, p, w), p))
  }

  ghost predicate SomewhereFits(s: Sky, width: int, height: int, w: nat, h: int) {
    s != [] && exists p :: 0 <= p && p + w <= width && Top(s, p, w) + h <= height
  }

  // ---------------------------------------------------------------- what the search computes

  /** The best position so far, if any. */
  datatype Pick = Pick(found: bool, x: int, y: int, waste: int)

  const START := Pick(false, 0, SENTINEL_Y, SENTINEL_Y)

  function LeftStep(s: Sky, height: int, heuristic: Heuristic, w: nat, h: int, j: nat, b: Pick): Pick
    requires j < |s|
  {
    var x := s[j].x;
    var y, waste := Top(s, x, w), Waste(s, x, w);
    if heuristic == BottomLeftHeuristic then
      if y < b.y then Pick(true, x, y, b.waste) else b
    else
      if y + h <= height && (y < b.y || (y == b.y && waste < b.waste)) then Pick(true, x, y, waste) else b
  }

  function LeftScan(s: Sky, width: int, height: int, heuristic: Heuristic, w: nat, h: int, j: nat, b: Pick): Pick
    decreases |s| - j
  {
    if j >= |s| || s[j].x + w > width then b
    else LeftScan(s, width, height, heuristic, w, h, j + 1, LeftStep(s, height, heuristic, w, h, j, b))
  }

  function RightStep(s: Sky, height: int, w: nat, h: int, t: nat, b: Pick): Pick
    requires t < |s|
  {
    var x := s[t].x - w;
    var y, waste := Top(s, x, w), Waste(s, x, w);
    if y + h <= height && y <= b.y && (y < b.y || waste < b.waste || (waste == b.waste && x < b.x))
    then Pick(true, x, y, waste) else b
  }

  function RightScan(s: Sky, height: int, w: nat, h: int, t: nat, b: Pick): Pick
    decreases |s| - t
  {
    if t >= |s| then b
    else RightScan(s, height, w, h, t + 1, if s[t].x < w then b else RightStep(s, height, w, h, t, b))
  }

  lemma RightScanUnfolds(s: Sky, height: int, w: nat, h: int, t: nat, b: Pick)
    requires t < |s| && s[t].x >= w
    ensures RightScan(s, height, w, h, t, b) == RightScan(s, height, w, h, t + 1, RightStep(s, height, w, h, t, b))
  {}

  /** A point that leaves room for the width to its right is not the sentinel. */
  lemma AtPoint(s: Sky, width: int, height: int, w: nat, j: nat)
    requires Over(s, width, height) && 0 < w && j < |s| && s[j].x + w <= width
    ensures j + 1 < |s| && 0 <= s[j].x < s[j + 1].x && j == Locate(s, s[j].x)
  {
    LocateIs(s, s[j].x, j);
  }

  lemma AtRightEdge(s: Sky, width: int, height: int, w: nat, t: nat)
    requires Over(s, width, height) && 0 < w && t < |s| && s[t].x >= w
    ensures s[t].x <= width
    ensures t + 1 < |s| ==> s[t].x < s[t + 1].x
    ensures Candidate(s, width, w, s[t].x - w)
  {
    assert t < |s| - 1 ==> s[t].x < s[|s| - 1].x;
    assert s[t].x == (s[t].x - w) + w;
  }

  /** What either heuristic promises about the position it returns. */
  ghost predicate Chosen(s: Sky, width: int, height: int, heuristic: Heuristic, w: nat, h: int, x: int, y: int) {
    match heuristic
    case BottomLeftHeuristic => BottomLeft(s, width, w, x, y)
    case BestFitHeuristic => BestFit(s, width, height, w, h, x, y)
  }

  /** What the search promises: a position it chooses is as the heuristic says, and if it chooses
      none, or one that is too high, then the rectangle fits nowhere. */
  ghost predicate Found(s: Sky, width: int, height: int, heuristic: Heuristic, w: int, h: int, found: bool, x: int,
      y: int) {
    && w > 0
    && (found ==> w <= width && Chosen(s, width, height, heuristic, w, h, x, y))
    && (!found || y + h > height ==> w > width || !SomewhereFits(s, width, height, w, h))
  }

  function Search(s: Sky, width: int, height: int, heuristic: Heuristic, w: nat, h: int): Pick {
    var b := LeftScan(s, width, height, heuristic, w, h, 0, START);
    if heuristic == BestFitHeuristic then RightScan(s, height, w, h, 0, b) else b
  }

  lemma SearchFinds(s: Sky, width: int, height: int, heuristic: Heuristic, w: nat, h: int)
    requires Over(s, width, height) && 0 < w <= width && 0 <= height < SENTINEL_Y && h > 0
    ensures var b := Search(s, width, height, heuristic, w, h);
      Found(s, width, height, heuristic, w, h, b.found, b.x, b.y)
  {
    match heuristic
    case BottomLeftHeuristic => BottomLeftFound(s, width, height, w, h);
    case BestFitHeuristic => BestFitFound(s, width, height, w, h);
  }

  lemma NoFit(s: Sky, width: int, height: int, w: int, h: int)
    requires Over(s, width, height) && w > 0 && (w > width || h > height)
    ensures w > width || !SomewhereFits(s, width, height, w, h)
  {
    forall p | 0 <= p && p + w <= width ensures Top(s, p, w) >= 0 { TopSplit(s, p, w, 0); }
  }

  lemma NothingFound(s: Sky, width: int, height: int, heuristic: Heuristic, w: int, h: int)
    requires Over(s, width, height) && w > 0 && (w > width || h > height)
    ensures Found(s, width, height, heuristic, w, h, false, 0, 0)
  {
    NoFit(s, width, height, w, h);
  }

  // ---------------------------------------------------------------- bottom left

  /** What the bottom-left scan knows after the first `j` points. */
  ghost predicate LowestOf(s: Sky, width: int, w: nat, j: nat, b: Pick) {
    && j < |s| && b.found == (j > 0)
    && (!b.found ==> b.y == SENTINEL_Y)
    && (forall i | 0 <= i < j :: b.y <= Top(s, s[i].x, w))
    && (b.found ==>
         var k := Locate(s, b.x);
         && k < j && b.x == s[k].x && b.x + w <= width && b.y == Top(s, b.x, w)
         && forall i | 0 <= i < k :: b.y < Top(s, s[i].x, w))
  }

  lemma LowestStep(s: Sky, width: int, height: int, w: nat, h: int, j: nat, b: Pick)
    requires Over(s, width, height) && 0 < w <= width && 0 <= height < SENTINEL_Y
    requires LowestOf(s, width, w, j, b) && s[j].x + w <= width
    ensures LowestOf(s, width, w, j + 1, LeftStep(s, height, BottomLeftHeuristic, w, h, j, b))
  {
    AtPoint(s, width, height, w, j);
    TopAtMost(s, width, height, s[j].x, w);
  }

  lemma {:induction false} LowestScanned(s: Sky, width: int, height: int, w: nat, h: int, j: nat, b: Pick)
    returns (m: nat)
    requires Over(s, width, height) && 0 < w <= width && 0 <= height < SENTINEL_Y
    requires LowestOf(s, width, w, j, b)
    ensures m < |s| && s[m].x + w > width
    ensures LowestOf(s, width, w, m, LeftScan(s, width, height, BottomLeftHeuristic, w, h, j, b))
    decreases |s| - j
  {
    if s[j].x + w <= width {
      LowestStep(s, width, height, w, h, j, b);
      m := LowestScanned(s, width, height, w, h, j + 1, LeftStep(s, height, BottomLeftHeuristic, w, h, j, b));
    } else {
      m := j;
    }
  }

  lemma BottomLeftFound(s: Sky, width: int, height: int, w: nat, h: int)
    requires Over(s, width, height) && 0 < w <= width && 0 <= height < SENTINEL_Y
    ensures var b := LeftScan(s, width, height, BottomLeftHeuristic, w, h, 0, START);
      && b.found && BottomLeft(s, width, w, b.x, b.y)
      && (b.y + h > height ==> !SomewhereFits(s, width, height, w, h))
  {
    var b := LeftScan(s, width, height, BottomLeftHeuristic, w, h, 0, START);
    var m := LowestScanned(s, width, height, w, h, 0, START);
    assert s[0].x == 0;
    forall i | 0 <= i < |s| - 1 && s[i].x + w <= width ensures b.y <= Top(s, s[i].x, w) {
      IsBefore(s, i, m);
    }
    AtPoint(s, width, height, w, Locate(s, b.x));
    NodesSuffice(s, width, height, w, Locate(s, b.x), b.y);
  }

  // ---------------------------------------------------------------- best fit

  ghost predicate Sound(s: Sky, width: int, height: int, w: nat, h: int, b: Pick) {
    s != [] &&
    if b.found then
      && Candidate(s, width, w, b.x)
      && b.y == Top(s, b.x, w) && b.waste == Waste(s, b.x, w) && b.y + h <= height
    else b == START
  }

  /** Position `p` does not fit, or is no better than the best so far. */
  ghost predicate Beaten(s: Sky, height: int, w: nat, h: int, b: Pick, p: int)
    requires s != []
  {
    Top(s, p, w) + h <= height ==> b.found && NoWorse(b.y, b.waste, b.x, Top(s, p, w), Waste(s, p, w), p)
  }

  ghost predicate LeftBeaten(s: Sky, height: int, w: nat, h: int, b: Pick, j: nat)
    requires s != [] && j <= |s|
  {
    forall i | 0 <= i < j :: Beaten(s, height, w, h, b, s[i].x)
  }

  ghost predicate RightBeaten(s: Sky, height: int, w: nat, h: int, b: Pick, t: nat)
    requires s != [] && t <= |s|
  {
    forall i | 0 <= i < t && s[i].x >= w :: Beaten(s, height, w, h, b, s[i].x - w)
  }

  ghost predicate Supersedes(b': Pick, b: Pick) {
    b' == b || (b'.found && (b.found ==> NoWorse(b'.y, b'.waste, b'.x, b.y, b.waste, b.x)))
  }

  lemma StillBeaten(s: Sky, height: int, w: nat, h: int, b: Pick, b': Pick, j: nat, t: nat)
    requires s != [] && j <= |s| && t <= |s| && Supersedes(b', b)
    requires LeftBeaten(s, height, w, h, b, j) && RightBeaten(s, height, w, h, b, t)
    ensures LeftBeaten(s, height, w, h, b', j) && RightBeaten(s, height, w, h, b', t)
  {
    forall i | 0 <= i < j ensures Beaten(s, height, w, h, b', s[i].x) {
      assert Beaten(s, height, w, h, b, s[i].x);
    }
    forall i | 0 <= i < t && s[i].x >= w ensures Beaten(s, height, w, h, b', s[i].x - w) {
      assert Beaten(s, height, w, h, b, s[i].x - w);
    }
  }

  lemma LeftStepKeeps(s: Sky, width: int, height: int, w: nat, h: int, j: nat, b: Pick)
    requires Over(s, width, height) && 0 < w <= width && 0 <= height < SENTINEL_Y && h > 0
    requires j < |s| && Sound(s, width, height, w, h, b) && LeftBeaten(s, height, w, h, b, j)
    requires b.found ==> j > 0 && b.x <= s[j - 1].x
    requires s[j].x + w <= width
    ensures var b' := LeftStep(s, height, BestFitHeuristic, w, h, j, b);
      && Sound(s, width, height, w, h, b') && LeftBeaten(s, height, w, h, b', j + 1)
      && (b'.found ==> b'.x <= s[j].x)
  {
    AtPoint(s, width, height, w, j);
    var b' := LeftStep(s, height, BestFitHeuristic, w, h, j, b);
    assert j > 0 ==> s[j - 1].x < s[j].x;
    StillBeaten(s, height, w, h, b, b', j, 0);
    assert Beaten(s, height, w, h, b', s[j].x);
  }

  lemma {:induction false} LeftScanned(s: Sky, width: int, height: int, w: nat, h: int, j: nat, b: Pick)
    returns (m: nat)
    requires Over(s, width, height) && 0 < w <= width && 0 <= height < SENTINEL_Y && h > 0
    requires j < |s| && Sound(s, width, height, w, h, b) && LeftBeaten(s, height, w, h, b, j)
    requires b.found ==> j > 0 && b.x <= s[j - 1].x
    ensures m < |s| && s[m].x + w > width
    ensures var b' := LeftScan(s, width, height, BestFitHeuristic, w, h, j, b);
      Sound(s, width, height, w, h, b') && LeftBeaten(s, height, w, h, b', m)
    decreases |s| - j
  {
    hide Sorted, Sound, LeftBeaten, LeftStep, NoWorse;
    if s[j].x + w <= width {
      LeftStepKeeps(s, width, height, w, h, j, b);
      assert j + 1 < |s| by { AtPoint(s, width, height, w, j); }
      m := LeftScanned(s, width, height, w, h, j + 1, LeftStep(s, height, BestFitHeuristic, w, h, j, b));
    } else {
      m := j;
    }
  }

  lemma RightStepKeeps(s: Sky, width: int, height: int, w: nat, h: int, j: nat, t: nat, b: Pick)
    requires Over(s, width, height) && 0 < w <= width && 0 <= height < SENTINEL_Y && h > 0
    requires j <= |s| && t < |s| && s[t].x >= w && Sound(s, width, height, w, h, b)
    requires LeftBeaten(s, height, w, h, b, j) && RightBeaten(s, height, w, h, b, t)
    ensures var b' := RightStep(s, height, w, h, t, b);
      && Sound(s, width, height, w, h, b')
      && LeftBeaten(s, height, w, h, b', j) && RightBeaten(s, height, w, h, b', t + 1)
  {
    hide Sorted, Top, Waste, LeftBeaten;
    AtRightEdge(s, width, height, w, t);
    var b' := RightStep(s, height, w, h, t, b);
    StillBeaten(s, height, w, h, b, b', j, t);
    assert Beaten(s, height, w, h, b', s[t].x - w);
  }

  lemma {:induction false} RightScanned(s: Sky, width: int, height: int, w: nat, h: int, j: nat, t: nat, b: Pick)
    requires Over(s, width, height) && 0 < w <= width && 0 <= height < SENTINEL_Y && h > 0
    requires j <= |s| && t <= |s| && Sound(s, width, height, w, h, b)
    requires LeftBeaten(s, height, w, h, b, j) && RightBeaten(s, height, w, h, b, t)
    ensures var b' := RightScan(s, height, w, h, t, b);
      && Sound(s, width, height, w, h, b')
      && LeftBeaten(s, height, w, h, b', j) && RightBeaten(s, height, w, h, b', |s|)
    decreases |s| - t
  {
    if t < |s| {
      if s[t].x >= w {
        RightStepKeeps(s, width, height, w, h, j, t, b);
      }
      RightScanned(s, width, height, w, h, j, t + 1, if s[t].x < w then b else RightStep(s, height, w, h, t, b));
    }
  }

  /** The two scans have seen enough to know the lowest position over every x. */
  lemma BestFitFound(s: Sky, width: int, height: int, w: nat, h: int)
    requires Over(s, width, height) && 0 < w <= width && 0 <= height < SENTINEL_Y && h > 0
    ensures var b := RightScan(s, height, w, h, 0, LeftScan(s, width, height, BestFitHeuristic, w, h, 0, START));
      && (b.found ==> BestFit(s, width, height, w, h, b.x, b.y))
      && (!b.found ==> !SomewhereFits(s, width, height, w, h))
  {
    var m := LeftScanned(s, width, height, w, h, 0, START);
    var b0 := LeftScan(s, width, height, BestFitHeuristic, w, h, 0, START);
    RightScanned(s, width, height, w, h, m, 0, b0);
    BestOfAll(s, width, height, w, h, m, RightScan(s, height, w, h, 0, b0));
  }

  lemma BestOfAll(s: Sky, width: int, height: int, w: nat, h: int, m: nat, b: Pick)
    requires Over(s, width, height) && 0 < w <= width && Sound(s, width, height, w, h, b)
    requires m < |s| && s[m].x + w > width
    requires LeftBeaten(s, height, w, h, b, m) && RightBeaten(s, height, w, h, b, |s|)
    ensures b.found ==> BestFit(s, width, height, w, h, b.x, b.y)
    ensures !b.found ==> !SomewhereFits(s, width, height, w, h)
  {
    forall p | 0 <= p && p + w <= width
      ensures Top(s, p, w) + h <= height ==> b.found
      ensures b.found ==> b.y <= Top(s, p, w)
    {
      SlideLeft(s, width, height, p, w);
      IsBefore(s, Locate(s, p), m);
      assert Beaten(s, height, w, h, b, s[Locate(s, p)].x);
    }
    forall p | Candidate(s, width, w, p) ensures Beaten(s, height, w, h, b, p) {
      CandidateBeaten(s, width, height, w, h, m, b, p);
    }
  }

  lemma CandidateBeaten(s: Sky, width: int, height: int, w: nat, h: int, m: nat, b: Pick, p: int)
    requires Sorted(s) && m < |s| && s[m].x + w > width
    requires LeftBeaten(s, height, w, h, b, m) && RightBeaten(s, height, w, h, b, |s|)
    requires Candidate(s, width, w, p)
    ensures Beaten(s, height, w, h, b, p)
  {
    hide Sorted, Beaten;
    var i :| 0 <= i < |s| && (s[i].x == p || s[i].x == p + w);
    if s[i].x == p + w {
      assert Beaten(s, height, w, h, b, s[i].x - w);
    } else {
      IsBefore(s, i, m);
    }
  }

  lemma IsBefore(s: Sky, i: nat, j: nat)
    requires Sorted(s) && i < |s| && j < |s| && s[i].x < s[j].x
    ensures i < j
  {}

  lemma TopAtMost(s: Sky, width: int, height: int, x: int, w: nat)
    requires Over(s, width, height) && 0 <= x && x + w <= width && height >= 0
    ensures 0 <= Top(s, x, w) <= height
  {
    TopSplit(s, x, w, 0);
    forall p | x <= p < x + w ensures HeightAt(s, p) <= height { LocateHolds(s, p); }
    TopReached(s, x, w, height);
  }

  lemma FlatIsPacking(width: int, height: int)
    requires width > 0 && height >= 0
    ensures Packing({}, Flat(width), width, height)
  {}

  ghost predicate QuantisedAlign(align: int, width: int, numNodes: int) {
    numNodes * align >= width && numNodes * (align - 1) < width
  }

  lemma QuantisedExists(width: int, numNodes: int)
    requires width > 0 && numNodes > 0
    ensures var align := (width + numNodes - 1) / numNodes; align > 0 && QuantisedAlign(align, width, numNodes)
  {
    var align := (width + numNodes - 1) / numNodes;
    var r := (width + numNodes - 1) % numNodes;
    assert width + numNodes - 1 == numNodes * align + r;
    assert numNodes * (align - 1) == numNodes * align - numNodes;
    assert align > 0 by { assert numNodes * align > 0; }
  }

  // ---------------------------------------------------------------- placing

  /** The skyline and the placed rectangles after placing `b`. */
  ghost predicate Grown(s: Sky, s': Sky, P: set<Box>, P': set<Box>, b: Box) {
    && s != [] && Kept(s, b.x) < |s| && b.w >= 0 && s' == Splice(s, b.x, b.w, b.y + b.h)
    && P' == P + {b} && forall a | a in P :: Disjoint(a, b)
  }

  ghost predicate PlaceReady(P: set<Box>, s: Sky, width: int, height: int, p: Pt, end: int, b: Box, s': Sky)
    requires s != []
  {
    && Kept(s, p.x) < |s| && s' == Closed(s, Kept(s, p.x), p, end)
    && Packing(P + {b}, s', width, height) && Grown(s, s', P, P + {b}, b)
  }

  /** The outline can be spliced for `b`. */
  ghost predicate Ready(P: set<Box>, s: Sky, width: int, height: int, b: Box)
    requires s != []
  {
    && b.w >= 0 && Kept(s, b.x) < |s|
    && PlaceReady(P, s, width, height, Pt(b.x, b.y + b.h), b.x + b.w, b, Splice(s, b.x, b.w, b.y + b.h))
  }

  lemma GetsReady(P: set<Box>, s: Sky, width: int, height: int, b: Box, w: nat)
    requires Packing(P, s, width, height) && Fits(s, width, height, b, w)
    ensures s != [] && Ready(P, s, width, height, b)
  {
    hide Splice, Kept, Closed, Locate, Top, Disjoint, Inside, Sorted;
    PlacingKeeps(P, s, width, height, b, w);
    ClosedIsSplice(s, b.x, b.w, b.y + b.h);
  }

  /** A rectangle is placed exactly when a node is free and it fits somewhere, and then where the
      heuristic says. */
  ghost predicate Answer(s: Sky, free: nat, width: int, height: int, align: int, heuristic: Heuristic, w: int, h: int,
      placed: bool, x: int, y: int)
    requires align > 0
  {
    var aligned := Aligned(w, align);
    && aligned >= w > 0
    && (placed <==> free > 0 && aligned <= width && SomewhereFits(s, width, height, aligned, h))
    && (placed ==>
          && Chosen(s, width, height, heuristic, aligned, h, x, y)
          && Fits(s, width, height, Box(x, y, w, h), aligned))
  }

  lemma FoundFits(s: Sky, width: int, height: int, heuristic: Heuristic, w: int, b: Box)
    requires s != [] && Found(s, width, height, heuristic, w, b.h, true, b.x, b.y)
    requires b.y + b.h <= height && b.h > 0 && 0 < b.w <= w
    ensures Fits(s, width, height, b, w) && SomewhereFits(s, width, height, w, b.h)
  {
    assert Top(s, b.x, w) + b.h <= height;
  }

  lemma Decided(s: Sky, free: nat, width: int, height: int, align: int, heuristic: Heuristic, w: int, h: int,
      found: bool, placed: bool, x: int, y: int)
    requires s != [] && align > 0 && 0 < w <= Aligned(w, align) && h > 0
    requires Found(s, width, height, heuristic, Aligned(w, align), h, found, x, y)
    requires placed <==> found && y + h <= height && free > 0
    ensures Answer(s, free, width, height, align, heuristic, w, h, placed, x, y)
  {
    if found && y + h <= height {
      FoundFits(s, width, height, heuristic, Aligned(w, align), Box(x, y, w, h));
    }
  }

  function Closed(s: Sky, k: nat, p: Pt, end: int): Sky
    requires k < |s|
  {
    var j := Resume(s, k, end);
    s[..k] + [p, Pt(Max(s[j].x, end), s[j].y)] + s[j + 1..]
  }

  lemma ClosedIsSplice(s: Sky, x: int, w: nat, top: int)
    requires s != [] && Kept(s, x) < |s|
    ensures Closed(s, Kept(s, x), Pt(x, top), x + w) == Splice(s, x, w, top)
  {}
}
