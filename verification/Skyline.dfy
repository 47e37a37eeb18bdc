/** The skyline of the rectangle packer as a value: the outline above everything placed so far,
    as a list of points from left to right.  Point `i` gives the height from its own x to the x
    of the next point; the last point is a sentinel at the right edge of the target. */
module Skyline {

  datatype Pt = Pt(x: int, y: int)
  type Sky = seq<Pt>

  const SENTINEL_Y := 0x4000_0000

  function Max(a: int, b: int): int { if a > b then a else b }

  predicate Sorted(s: Sky) {
    forall i, j | 0 <= i < j < |s| :: s[i].x < s[j].x
  }

  /** A skyline over `[0, width)` that stays within `[0, height]`. */
  predicate Over(s: Sky, width: int, height: int) {
    && |s| >= 2 && Sorted(s)
    && s[0].x == 0 && s[|s| - 1] == Pt(width, SENTINEL_Y)
    && forall i | 0 <= i < |s| - 1 :: 0 <= s[i].y <= height
  }

  function Flat(width: int): Sky { [Pt(0, 0), Pt(width, SENTINEL_Y)] }

  // ---------------------------------------------------------------- heights

  /** The last point at or before `x`. */
  function Locate(s: Sky, x: int): (i: nat)
    requires s != []
    ensures i < |s|
  {
    if |s| >= 2 && s[1].x <= x then 1 + Locate(s[1..], x) else 0
  }

  lemma {:induction false} LocateIs(s: Sky, x: int, i: nat)
    requires Sorted(s) && i < |s| && s[i].x <= x && (i + 1 < |s| ==> x < s[i + 1].x)
    ensures Locate(s, x) == i
  {
    if i > 0 { LocateIs(s[1..], x, i - 1); }
  }

  lemma {:induction false} LocateHolds(s: Sky, x: int)
    requires Sorted(s) && s != [] && s[0].x <= x
    ensures var i := Locate(s, x); s[i].x <= x && (i + 1 < |s| ==> x < s[i + 1].x)
  {
    if |s| >= 2 && s[1].x <= x { LocateHolds(s[1..], x); }
  }

  lemma LocateSide(s: Sky, x: int, m: nat)
    requires Sorted(s) && m < |s| && s[0].x <= x
    ensures s[m].x <= x <==> m <= Locate(s, x)
  {
    LocateHolds(s, x);
    var i := Locate(s, x);
    if m <= i {
      assert m == i || s[m].x < s[i].x;
    } else {
      assert i + 1 == m || s[i + 1].x < s[m].x;
    }
  }

  function HeightAt(s: Sky, x: int): int
    requires s != []
  {
    s[Locate(s, x)].y
  }

  /** The highest point of the skyline over `[x, x + w)`, and never less than 0. */
  function Top(s: Sky, x: int, w: nat): int
    requires s != []
    decreases w
  {
    if w == 0 then 0 else Max(HeightAt(s, x), Top(s, x + 1, w - 1))
  }

  lemma {:induction false} TopSplit(s: Sky, x: int, a: nat, b: nat)
    requires s != []
    ensures Top(s, x, a + b) == Max(Top(s, x, a), Top(s, x + a, b))
    ensures Top(s, x, a) >= 0 && Top(s, x + a, b) >= 0
    decreases a + b
  {
    if a > 0 { TopSplit(s, x + 1, a - 1, b); }
    else if b > 0 { TopSplit(s, x + 1, 0, b - 1); }
  }

  lemma {:induction false} TopBounds(s: Sky, x: int, w: nat, p: int)
    requires s != [] && x <= p < x + w
    ensures HeightAt(s, p) <= Top(s, x, w)
    decreases w
  {
    if p > x { TopBounds(s, x + 1, w - 1, p); }
  }

  lemma {:induction false} TopReached(s: Sky, x: int, w: nat, height: int)
    requires s != [] && height >= 0
    requires forall p | x <= p < x + w :: HeightAt(s, p) <= height
    ensures Top(s, x, w) <= height
    decreases w
  {
    if w > 0 { TopReached(s, x + 1, w - 1, height); }
  }

  /** A window inside one segment sees that segment's height. */
  lemma {:induction false} TopOfSegment(s: Sky, i: nat, x: int, w: nat)
    requires Sorted(s) && i + 1 < |s| && s[i].x <= x && x + w <= s[i + 1].x && w > 0 && s[i].y >= 0
    ensures Top(s, x, w) == s[i].y
    decreases w
  {
    LocateIs(s, x, i);
    if w > 1 { TopOfSegment(s, i, x + 1, w - 1); }
  }

  /** Sliding a window left to the point under its left edge never makes it higher. */
  lemma SlideLeft(s: Sky, width: int, height: int, x: int, w: nat)
    requires Over(s, width, height) && 0 <= x && x + w <= width && w > 0
    ensures var i := Locate(s, x);
      i + 1 < |s| && 0 <= s[i].x <= x < s[i + 1].x && Top(s, s[i].x, w) <= Top(s, x, w)
  {
    var i := Locate(s, x);
    LocateHolds(s, x);
    assert i + 1 < |s|;
    forall p | s[i].x <= p < s[i].x + w ensures HeightAt(s, p) <= Top(s, x, w) {
      if p < x {
        LocateIs(s, p, i);
        TopBounds(s, x, w, x);
      } else {
        TopBounds(s, x, w, p);
      }
    }
    TopSplit(s, x, w, 0);
    TopReached(s, s[i].x, w, Top(s, x, w));
  }

  // ---------------------------------------------------------------- positions

  /** The width is rounded up to a multiple of `align` for the search. */
  function Aligned(w: int, align: int): int
    requires align > 0
  {
    var r := w + align - 1;
    r - r % align
  }

  /** The least multiple of `align` that covers the width. */
  lemma AlignedCovers(w: int, align: int)
    requires align > 0 && w > 0
    ensures w <= Aligned(w, align) < w + align
    ensures exists k :: Aligned(w, align) == align * k
    ensures align == 1 ==> Aligned(w, align) == w
  {
    var r := w + align - 1;
    assert r - r % align == align * (r / align);
  }

  /** The lowest position over every integer x at which the window fits, and the leftmost of those. */
  ghost predicate BottomLeft(s: Sky, width: int, w: nat, x: int, y: int) {
    && s != [] && 0 <= x && x + w <= width && y == Top(s, x, w)
    && (forall p | 0 <= p && p + w <= width :: y <= Top(s, p, w))
    && (forall p | 0 <= p < x :: y < Top(s, p, w))
  }

  /** It is enough to look at the points of the skyline. */
  lemma NodesSuffice(s: Sky, width: int, height: int, w: nat, k: nat, y: int)
    requires Over(s, width, height) && 0 < w && k + 1 < |s| && s[k].x + w <= width
    requires y == Top(s, s[k].x, w)
    requires forall i | 0 <= i < |s| - 1 && s[i].x + w <= width :: y <= Top(s, s[i].x, w)
    requires forall i | 0 <= i < k :: y < Top(s, s[i].x, w)
    ensures BottomLeft(s, width, w, s[k].x, y)
  {
    forall p | 0 <= p && p + w <= width ensures y <= Top(s, p, w) {
      SlideLeft(s, width, height, p, w);
    }
    forall p | 0 <= p < s[k].x ensures y < Top(s, p, w) {
      SlideLeft(s, width, height, p, w);
      assert Locate(s, p) < k;
    }
  }

  lemma BottomLeftUnique(s: Sky, width: int, w: nat, x: int, y: int, x': int, y': int)
    requires BottomLeft(s, width, w, x, y) && BottomLeft(s, width, w, x', y')
    ensures x == x' && y == y'
  {
    assert y <= Top(s, x', w) && y' <= Top(s, x, w);
  }

  // ---------------------------------------------------------------- the scan over one window

  /** The loop of the window scan: height and waste so far, and the width it believes visited. */
  function Scan(s: Sky, i: nat, x0: int, w: int, minY: int, visited: int, waste: int): (r: (int, int))
    decreases |s| - i
  {
    if i + 1 >= |s| || s[i].x >= x0 + w then (minY, waste)
    else if s[i].y > minY then
      Scan(s, i + 1, x0, w, s[i].y,
        visited + s[i + 1].x - (if s[i].x < x0 then x0 else s[i].x),
        waste + visited * (s[i].y - minY))
    else
      var under := s[i + 1].x - s[i].x;
      var clipped := if under + visited > w then w - visited else under;
      Scan(s, i + 1, x0, w, minY, visited + clipped, waste + clipped * (minY - s[i].y))
  }

  /** The waste the code computes for a window at `x`. */
  function Waste(s: Sky, x: int, w: int): int
    requires s != []
  {
    Scan(s, Locate(s, x), x, w, 0, 0, 0).1
  }

  /** The area between height `y` and the skyline over `[x, x + w)`. */
  function Area(s: Sky, x: int, w: nat, y: int): int
    requires s != []
    decreases w
  {
    if w == 0 then 0 else y - HeightAt(s, x) + Area(s, x + 1, w - 1, y)
  }

  lemma {:induction false} AreaSplit(s: Sky, x: int, a: nat, b: nat, y: int)
    requires s != []
    ensures Area(s, x, a + b, y) == Area(s, x, a, y) + Area(s, x + a, b, y)
    decreases a
  {
    if a > 0 { AreaSplit(s, x + 1, a - 1, b, y); }
  }

  lemma {:induction false} AreaRaise(s: Sky, x: int, w: nat, y: int, d: int)
    requires s != []
    ensures Area(s, x, w, y + d) == Area(s, x, w, y) + w * d
    decreases w
  {
    if w > 0 {
      AreaRaise(s, x + 1, w - 1, y, d);
      assert w * d == (w - 1) * d + d;
    }
  }

  lemma {:induction false} AreaOfSegment(s: Sky, i: nat, x: int, w: nat, y: int)
    requires Sorted(s) && i + 1 < |s| && s[i].x <= x && x + w <= s[i + 1].x
    ensures Area(s, x, w, y) == w * (y - s[i].y)
    decreases w
  {
    if w > 0 {
      LocateIs(s, x, i);
      AreaOfSegment(s, i, x + 1, w - 1, y);
      assert w * (y - s[i].y) == (w - 1) * (y - s[i].y) + (y - s[i].y);
    }
  }

  /** One more segment, up to the right edge of the window: its effect on the height ... */
  lemma TopGrows(s: Sky, i: nat, x0: int, p: int, q: int)
    requires Sorted(s) && i + 1 < |s| && x0 <= p < q && s[i].x <= p && q <= s[i + 1].x && s[i].y >= 0
    ensures Top(s, x0, q - x0) == Max(Top(s, x0, p - x0), s[i].y)
  {
    TopSplit(s, x0, p - x0, q - p);
    TopOfSegment(s, i, p, q - p);
  }

  /** ... and on the area, below a raised height and below an unchanged one. */
  lemma AreaGrows(s: Sky, i: nat, x0: int, p: int, q: int, y: int)
    requires Sorted(s) && i + 1 < |s| && x0 <= p < q && s[i].x <= p && q <= s[i + 1].x
    ensures Area(s, x0, q - x0, s[i].y) == Area(s, x0, p - x0, y) + (p - x0) * (s[i].y - y)
    ensures Area(s, x0, q - x0, y) == Area(s, x0, p - x0, y) + (q - p) * (y - s[i].y)
  {
    hide Area, Sorted;
    var h := s[i].y;
    AreaSplit(s, x0, p - x0, q - p, h);
    AreaOfSegment(s, i, p, q - p, h);
    assert (q - p) * (h - h) == 0;
    AreaSplit(s, x0, p - x0, q - p, y);
    AreaOfSegment(s, i, p, q - p, y);
    AreaRaise(s, x0, p - x0, y, h - y);
  }

  /** Between segments: the scan has seen `[x0, p)`, and segment `i` is next. */
  predicate ScanAt(s: Sky, i: nat, x0: int, w: nat, p: int) {
    && i < |s| && x0 <= p <= x0 + w
    && if p < x0 + w then s[i].x <= p && i + 1 < |s| && p < s[i + 1].x && (s[i].x == p || p == x0) else s[i].x >= p
  }

  /** How far segment `i` reaches into the window. */
  function ReachOf(s: Sky, i: nat, x0: int, w: nat): int
    requires i + 1 < |s|
  {
    if s[i + 1].x < x0 + w then s[i + 1].x else x0 + w
  }

  lemma ScanNext(s: Sky, width: int, height: int, i: nat, x0: int, w: nat, p: int)
    requires Over(s, width, height) && x0 + w <= width && ScanAt(s, i, x0, w, p) && p < x0 + w
    ensures var q := ReachOf(s, i, x0, w);
      ScanAt(s, i + 1, x0, w, q) && p < q <= s[i + 1].x && s[i].y >= 0 && s[i].x < x0 + w
  {}

  /** The scan finds the top of the window. */
  lemma {:induction false} ScanTop(s: Sky, width: int, height: int, i: nat, x0: int, w: nat, p: int, minY: int,
      visited: int, waste: int)
    requires Over(s, width, height) && x0 >= 0 && x0 + w <= width && ScanAt(s, i, x0, w, p)
    requires minY == Top(s, x0, p - x0)
    ensures Scan(s, i, x0, w, minY, visited, waste).0 == Top(s, x0, w)
    decreases |s| - i
  {
    hide Top, Over, ScanAt;
    ScanLeaves(s, i, x0, w, p);
    if p < x0 + w {
      ScanNext(s, width, height, i, x0, w, p);
      var q := ReachOf(s, i, x0, w);
      OverIsSorted(s, width, height);
      TopGrows(s, i, x0, p, q);
      if s[i].y > minY {
        ScanTop(s, width, height, i + 1, x0, w, q, s[i].y,
          visited + s[i + 1].x - (if s[i].x < x0 then x0 else s[i].x),
          waste + visited * (s[i].y - minY));
      } else {
        var under := s[i + 1].x - s[i].x;
        var clipped := if under + visited > w then w - visited else under;
        ScanTop(s, width, height, i + 1, x0, w, q, minY, visited + clipped, waste + clipped * (minY - s[i].y));
      }
    }
  }

  lemma OverIsSorted(s: Sky, width: int, height: int)
    requires Over(s, width, height)
    ensures Sorted(s) && s != []
  {}

  lemma ScanLeaves(s: Sky, i: nat, x0: int, w: nat, p: int)
    requires ScanAt(s, i, x0, w, p)
    ensures i < |s| && x0 <= p <= x0 + w
    ensures p < x0 + w ==> s[i].x <= p && i + 1 < |s|
    ensures p == x0 + w ==> s[i].x >= x0 + w
  {}

  /** What the scan has counted so far is right, and it is not inside a segment on the floor. */
  predicate Exact(s: Sky, i: nat, x0: int, w: nat, p: int, minY: int, visited: int, waste: int)
    requires s != []
  {
    && i < |s| && x0 <= p && waste == Area(s, x0, p - x0, minY)
    && (p < x0 + w ==> visited == p - x0 && (s[i].x == p || s[i].y > minY))
  }

  /** It has not counted too little: every column counted too often as visited has been counted as
      waste up to the present height as well. */
  predicate AtLeast(s: Sky, x0: int, w: nat, p: int, minY: int, visited: int, waste: int)
    requires s != []
  {
    && x0 <= p && minY >= 0 && (p == x0 ==> minY == 0)
    && var excess := waste - Area(s, x0, p - x0, minY);
    if p < x0 + w then visited >= p - x0 && excess >= Times(visited - (p - x0), minY) else excess >= 0
  }

  function Times(a: int, b: int): int { a * b }

  /** Visited and waste after segment `i`. */
  function Counted(s: Sky, i: nat, x0: int, w: int, minY: int, visited: int, waste: int): (r: (int, int, int))
    requires i + 1 < |s|
  {
    if s[i].y > minY then
      (s[i].y, visited + s[i + 1].x - (if s[i].x < x0 then x0 else s[i].x), waste + Times(visited, s[i].y - minY))
    else
      var under := s[i + 1].x - s[i].x;
      var clipped := if under + visited > w then w - visited else under;
      (minY, visited + clipped, waste + Times(clipped, minY - s[i].y))
  }

  lemma ScanCounts(s: Sky, i: nat, x0: int, w: int, minY: int, visited: int, waste: int)
    requires i + 1 < |s| && s[i].x < x0 + w
    ensures var (y, v, a) := Counted(s, i, x0, w, minY, visited, waste);
      Scan(s, i, x0, w, minY, visited, waste) == Scan(s, i + 1, x0, w, y, v, a)
  {}

  lemma ScanStops(s: Sky, i: nat, x0: int, w: int, minY: int, visited: int, waste: int)
    requires i < |s| && s[i].x >= x0 + w
    ensures Scan(s, i, x0, w, minY, visited, waste) == (minY, waste)
  {}

  lemma CountedExact(s: Sky, i: nat, x0: int, w: nat, p: int, minY: int, visited: int, waste: int)
    requires Sorted(s) && ScanAt(s, i, x0, w, p) && p < x0 + w
    requires Exact(s, i, x0, w, p, minY, visited, waste)
    requires ScanAt(s, i + 1, x0, w, ReachOf(s, i, x0, w))
    ensures var (y, v, a) := Counted(s, i, x0, w, minY, visited, waste);
      Exact(s, i + 1, x0, w, ReachOf(s, i, x0, w), y, v, a)
  {
    hide Area, Sorted;
    AreaGrows(s, i, x0, p, ReachOf(s, i, x0, w), minY);
  }

  lemma CountedAtLeast(s: Sky, i: nat, x0: int, w: nat, p: int, minY: int, visited: int, waste: int)
    requires Sorted(s) && ScanAt(s, i, x0, w, p) && p < x0 + w && s[i].y >= 0
    requires AtLeast(s, x0, w, p, minY, visited, waste)
    ensures var (y, v, a) := Counted(s, i, x0, w, minY, visited, waste);
      AtLeast(s, x0, w, ReachOf(s, i, x0, w), y, v, a)
  {
    hide Area, Sorted, Times;
    var q := ReachOf(s, i, x0, w);
    AreaGrows(s, i, x0, p, q, minY);
    var e, h := visited - (p - x0), s[i].y;
    var excess := waste - Area(s, x0, p - x0, minY);
    if h > minY {
      RaisedExcess(excess, e, visited, p - x0, minY, h);
    } else {
      var under := s[i + 1].x - s[i].x;
      var clipped := if under + visited > w then w - visited else under;
      LowerExcess(excess, e, clipped, q - p, minY, h);
    }
  }

  lemma RaisedExcess(excess: int, e: int, visited: int, seen: int, y: int, h: int)
    requires e == visited - seen >= 0 && 0 <= y < h && excess >= Times(e, y)
    ensures excess + Times(visited, h - y) - seen * (h - y) >= Times(e, h) >= 0
  {
    assert visited * (h - y) - seen * (h - y) == e * (h - y) == e * h - e * y;
  }

  lemma LowerExcess(excess: int, e: int, clipped: int, c: int, y: int, h: int)
    requires e + clipped - c >= 0 && 0 <= h <= y && excess >= Times(e, y) && (clipped > c ==> y == 0)
    ensures excess + Times(clipped, y - h) - c * (y - h) >= Times(e + clipped - c, y) >= 0
  {
    var d := clipped - c;
    assert clipped * (y - h) - c * (y - h) == d * (y - h) == d * y - d * h;
    assert (e + d) * y == e * y + d * y;
    if d <= 0 { assert d * h <= 0; }
  }

  /** The scan of a window is exact once it has been exact, and never counts too little. */
  lemma {:induction false} ScanWaste(s: Sky, width: int, height: int, i: nat, x0: int, w: nat, p: int, minY: int,
      visited: int, waste: int)
    requires Over(s, width, height) && x0 >= 0 && x0 + w <= width && ScanAt(s, i, x0, w, p)
    requires AtLeast(s, x0, w, p, minY, visited, waste)
    ensures var (top, area) := Scan(s, i, x0, w, minY, visited, waste);
      && area >= Area(s, x0, w, top)
      && (Exact(s, i, x0, w, p, minY, visited, waste) ==> area == Area(s, x0, w, top))
    decreases |s| - i
  {
    hide Area, Over, Times, ScanAt, Counted;
    ScanLeaves(s, i, x0, w, p);
    if p < x0 + w {
      ScanNext(s, width, height, i, x0, w, p);
      OverIsSorted(s, width, height);
      ScanCounts(s, i, x0, w, minY, visited, waste);
      CountedAtLeast(s, i, x0, w, p, minY, visited, waste);
      if Exact(s, i, x0, w, p, minY, visited, waste) { CountedExact(s, i, x0, w, p, minY, visited, waste); }
      var (y, v, a) := Counted(s, i, x0, w, minY, visited, waste);
      ScanWaste(s, width, height, i + 1, x0, w, ReachOf(s, i, x0, w), y, v, a);
    }
  }

  /** A window in which the scan never rises has no waste. */
  lemma {:induction false} ScanFlat(s: Sky, width: int, height: int, i: nat, x0: int, w: int, visited: int, waste: int)
    requires Over(s, width, height) && x0 + w <= width
    ensures var (top, area) := Scan(s, i, x0, w, 0, visited, waste); top >= 0 && (top == 0 ==> area == waste)
    decreases |s| - i
  {
    if i + 1 < |s| && s[i].x < x0 + w {
      if s[i].y > 0 {
        ScanRises(s, i + 1, x0, w, s[i].y, visited + s[i + 1].x - (if s[i].x < x0 then x0 else s[i].x),
          waste + visited * (s[i].y - 0));
      } else {
        var under := s[i + 1].x - s[i].x;
        var clipped := if under + visited > w then w - visited else under;
        assert clipped * (0 - s[i].y) == 0;
        ScanFlat(s, width, height, i + 1, x0, w, visited + clipped, waste + clipped * (0 - s[i].y));
      }
    }
  }

  lemma {:induction false} ScanRises(s: Sky, i: nat, x0: int, w: int, minY: int, visited: int, waste: int)
    ensures Scan(s, i, x0, w, minY, visited, waste).0 >= minY
    decreases |s| - i
  {
    if i + 1 < |s| && s[i].x < x0 + w {
      if s[i].y > minY {
        ScanRises(s, i + 1, x0, w, s[i].y, visited + s[i + 1].x - (if s[i].x < x0 then x0 else s[i].x),
          waste + visited * (s[i].y - minY));
      } else {
        var under := s[i + 1].x - s[i].x;
        var clipped := if under + visited > w then w - visited else under;
        ScanRises(s, i + 1, x0, w, minY, visited + clipped, waste + clipped * (minY - s[i].y));
      }
    }
  }

  lemma {:induction false} FlatArea(s: Sky, width: int, height: int, x: int, w: nat)
    requires Over(s, width, height) && 0 <= x && x + w <= width && Top(s, x, w) == 0
    ensures Area(s, x, w, 0) == 0
    decreases w
  {
    if w > 0 {
      TopSplit(s, x + 1, w - 1, 0);
      LocateHolds(s, x);
      FlatArea(s, width, height, x + 1, w - 1);
    }
  }

  /** The window scan returns the highest point of the window.  Its waste is never less than the area
      below that height, and it is that area when the window starts at a point or inside a segment
      above height 0, or when nothing is in it. */
  lemma WindowScan(s: Sky, width: int, height: int, x: int, w: nat)
    requires Over(s, width, height) && 0 <= x && x + w <= width && w > 0
    ensures var i := Locate(s, x); var (top, waste) := Scan(s, i, x, w, 0, 0, 0);
      && top == Top(s, x, w) && waste >= Area(s, x, w, top)
      && (s[i].x == x || s[i].y > 0 || top == 0 ==> waste == Area(s, x, w, top))
  {
    hide Scan, Top, Area;
    LocateHolds(s, x);
    var i := Locate(s, x);
    NothingSeen(s, x);
    ScanTop(s, width, height, i, x, w, x, 0, 0, 0);
    ScanWaste(s, width, height, i, x, w, x, 0, 0, 0);
    ScanFlat(s, width, height, i, x, w, 0, 0);
    if Top(s, x, w) == 0 { FlatArea(s, width, height, x, w); }
  }

  lemma NothingSeen(s: Sky, x: int)
    requires s != []
    ensures Top(s, x, 0) == 0 && Area(s, x, 0, 0) == 0
  {}

  /** Inside a segment at height 0 the waste can be too large: here 10 instead of 5. */
  lemma WasteOvercounts()
    ensures var s := [Pt(0, 0), Pt(2, 5), Pt(4, SENTINEL_Y)];
      Over(s, 4, 5) && Top(s, 1, 2) == 5 && Waste(s, 1, 2) == 10 && Area(s, 1, 2, 5) == 5
  {
    var s := [Pt(0, 0), Pt(2, 5), Pt(4, SENTINEL_Y)];
    LocateIs(s, 1, 0);
    LocateIs(s, 2, 1);
    assert Scan(s, 2, 1, 2, 5, 4, 10) == (5, 10);
    assert Scan(s, 1, 1, 2, 0, 2, 0) == (5, 10);
    assert Top(s, 3, 0) == 0 && Top(s, 2, 1) == 5;
    assert Area(s, 3, 0, 5) == 0 && Area(s, 2, 1, 5) == 0;
  }

  // ---------------------------------------------------------------- placing a rectangle

  /** The point the outline resumes from: the first from `k` on whose successor lies beyond `end`. */
  function Resume(s: Sky, k: nat, end: int): (m: nat)
    requires k < |s|
    ensures k <= m < |s| && (m > k ==> s[m].x <= end) && (m + 1 < |s| ==> s[m + 1].x > end)
    decreases |s| - k
  {
    if k + 1 < |s| && s[k + 1].x <= end then Resume(s, k + 1, end) else k
  }

  /** How many points stay to the left of a rectangle placed at `x`. */
  function Kept(s: Sky, x: int): nat
    requires s != []
  {
    var i := Locate(s, x);
    if s[i].x < x then i + 1 else i
  }

  /** The outline after a rectangle with its upper edge at `top` went in over `[x, x + w)`. */
  function Splice(s: Sky, x: int, w: nat, top: int): Sky
    requires s != [] && Kept(s, x) < |s|
  {
    var k := Kept(s, x);
    var m := Resume(s, k, x + w);
    s[..k] + [Pt(x, top), Pt(Max(s[m].x, x + w), s[m].y)] + s[m + 1..]
  }

  lemma KeptBounds(s: Sky, width: int, height: int, x: int)
    requires Over(s, width, height) && 0 <= x < width
    ensures var k := Kept(s, x);
      && k + 1 <= |s| && x <= s[k].x
      && (forall i | 0 <= i < k :: s[i].x < x)
      && (x < s[k].x ==> k > 0 && k == Locate(s, x) + 1)
      && (x == s[k].x ==> k == Locate(s, x) && k + 1 < |s|)
  {
    LocateHolds(s, x);
  }

  lemma SpliceKeeps(s: Sky, width: int, height: int, x: int, w: nat, top: int)
    requires Over(s, width, height) && 0 <= x && x + w <= width && w > 0 && 0 <= top <= height
    ensures Kept(s, x) < |s| && Over(Splice(s, x, w, top), width, height)
  {
    hide Locate, Resume, Kept, Sorted;
    KeptBounds(s, width, height, x);
    var s' := Splice(s, x, w, top);
    forall i | 0 <= i < |s'| - 1 ensures s'[i].x < s'[i + 1].x && 0 <= s'[i].y <= height {
      SpliceAscends(s, width, height, x, w, top, i);
    }
    Ascending(s');
  }

  lemma SpliceAscends(s: Sky, width: int, height: int, x: int, w: nat, top: int, i: nat)
    requires Over(s, width, height) && 0 <= x && x + w <= width && w > 0 && 0 <= top <= height
    requires Kept(s, x) < |s| && i < |Splice(s, x, w, top)| - 1
    ensures var s' := Splice(s, x, w, top); s'[i].x < s'[i + 1].x && 0 <= s'[i].y <= height
  {
    hide Locate, Resume, Kept;
    KeptBounds(s, width, height, x);
    var k := Kept(s, x);
    var m := Resume(s, k, x + w);
    if i >= k + 2 { assert Splice(s, x, w, top)[i] == s[i - k - 1 + m]; }
  }

  lemma Ascending(s: Sky)
    requires forall i | 0 <= i < |s| - 1 :: s[i].x < s[i + 1].x
    ensures Sorted(s)
  {
    forall i, j | 0 <= i < j < |s| ensures s[i].x < s[j].x { AscendingTo(s, i, j); }
  }

  lemma {:induction false} AscendingTo(s: Sky, i: nat, j: nat)
    requires forall i | 0 <= i < |s| - 1 :: s[i].x < s[i + 1].x
    requires i < j < |s|
    ensures s[i].x < s[j].x
    decreases j
  {
    if i < j - 1 { AscendingTo(s, i, j - 1); }
  }

  lemma HeightLeft(s: Sky, x: int, w: nat, top: int, p: int)
    requires Sorted(s) && s != [] && Kept(s, x) < |s| && s[0].x <= p < x <= s[Kept(s, x)].x
    requires Sorted(Splice(s, x, w, top))
    ensures HeightAt(Splice(s, x, w, top), p) == HeightAt(s, p)
  {
    var k, j := Kept(s, x), Locate(s, p);
    LocateHolds(s, p);
    LocateSide(s, p, k);
    LocateIs(Splice(s, x, w, top), p, j);
  }

  lemma HeightOver(s: Sky, x: int, w: nat, top: int, p: int)
    requires Sorted(s) && s != [] && Kept(s, x) < |s| && Sorted(Splice(s, x, w, top))
    requires x <= p < Splice(s, x, w, top)[Kept(s, x) + 1].x
    ensures HeightAt(Splice(s, x, w, top), p) == top
  {
    LocateIs(Splice(s, x, w, top), p, Kept(s, x));
  }

  lemma HeightRight(s: Sky, x: int, w: nat, top: int, p: int)
    requires Sorted(s) && s != [] && Kept(s, x) < |s| && Sorted(Splice(s, x, w, top))
    requires Splice(s, x, w, top)[Kept(s, x) + 1].x <= p
    ensures HeightAt(Splice(s, x, w, top), p) == HeightAt(s, p)
    ensures Locate(s, p) >= Kept(s, x)
  {
    var k, j, s' := Kept(s, x), Locate(s, p), Splice(s, x, w, top);
    var m := Resume(s, k, x + w);
    assert s[m].x <= p && s[0].x <= s[m].x;
    LocateSide(s, p, m);
    RightIndex(s, x, w, top, p, j);
    SpliceRight(s, x, w, top, j);
    LocateIs(s', p, k + 1 + j - m);
  }

  /** The outline is at the rectangle's upper edge over the rectangle and unchanged elsewhere, except
      that the rest of a segment whose inside the rectangle starts in is raised with it. */
  lemma SpliceHeights(s: Sky, width: int, height: int, x: int, w: nat, top: int, p: int)
    requires Over(s, width, height) && 0 <= x && x + w <= width && w > 0 && 0 <= top <= height
    requires 0 <= p < width && Kept(s, x) < |s|
    ensures HeightAt(Splice(s, x, w, top), p) ==
      if x <= p < x + w then top
      else if p >= x + w && Locate(s, p) == Locate(s, x) && s[Locate(s, x)].x < x then top
      else HeightAt(s, p)
  {
    KeptBounds(s, width, height, x);
    SpliceKeeps(s, width, height, x, w, top);
    var k := Kept(s, x);
    if p < x {
      HeightLeft(s, x, w, top, p);
    } else if p < Splice(s, x, w, top)[k + 1].x {
      HeightOver(s, x, w, top, p);
      if p >= x + w { LocateIs(s, p, k - 1); }
    } else {
      HeightRight(s, x, w, top, p);
    }
  }

  lemma RightIndex(s: Sky, x: int, w: nat, top: int, p: int, j: nat)
    requires Sorted(s) && s != [] && Kept(s, x) < |s| && s[0].x <= p && j == Locate(s, p)
    requires var k := Kept(s, x); j >= Resume(s, k, x + w) && Splice(s, x, w, top)[k + 1].x <= p
    ensures var k := Kept(s, x); var i := k + 1 + j - Resume(s, k, x + w); var s' := Splice(s, x, w, top);
      i < |s'| && s'[i].x <= p && (i + 1 < |s'| ==> p < s'[i + 1].x)
  {
    LocateHolds(s, p);
    SpliceRight(s, x, w, top, j);
  }

  /** To the right of the rectangle the old points follow in their old order. */
  lemma SpliceRight(s: Sky, x: int, w: nat, top: int, j: nat)
    requires Sorted(s) && s != [] && Kept(s, x) < |s| && j < |s|
    requires j >= Resume(s, Kept(s, x), x + w)
    ensures var k := Kept(s, x); var m := Resume(s, k, x + w); var s' := Splice(s, x, w, top);
      && |s'| == |s| + k + 1 - m
      && s'[k + 1 + j - m].y == s[j].y
      && (j > m ==> s'[k + 1 + j - m] == s[j])
      && (j + 1 < |s| ==> s'[k + 2 + j - m] == s[j + 1])
  {}

  // ---------------------------------------------------------------- what has been placed

  datatype Box = Box(x: int, y: int, w: int, h: int)

  predicate Inside(b: Box, width: int, height: int) {
    0 <= b.x && b.x + b.w <= width && 0 <= b.y && b.y + b.h <= height
  }

  predicate Disjoint(a: Box, b: Box) {
    a.x + a.w <= b.x || b.x + b.w <= a.x || a.y + a.h <= b.y || b.y + b.h <= a.y
  }

  ghost predicate Beneath(b: Box, s: Sky)
    requires s != []
  {
    forall p | b.x <= p < b.x + b.w :: b.y + b.h <= HeightAt(s, p)
  }

  /** Everything placed is inside the target, below the skyline, and apart from everything else. */
  ghost predicate Packing(placed: set<Box>, s: Sky, width: int, height: int) {
    && Over(s, width, height)
    && (forall b | b in placed :: b.w > 0 && b.h > 0 && Inside(b, width, height) && Beneath(b, s))
    && (forall a, b | a in placed && b in placed && a != b :: Disjoint(a, b))
  }

  /** A rectangle put on top of the skyline over a window at least as wide as itself. */
  predicate Fits(s: Sky, width: int, height: int, b: Box, w: nat) {
    && s != [] && 0 < b.w <= w && 0 < b.h && 0 <= b.x && b.x + w <= width
    && b.y == Top(s, b.x, w) && b.y + b.h <= height
  }

  lemma PlacedApart(placed: set<Box>, s: Sky, width: int, height: int, b: Box, w: nat, a: Box)
    requires Packing(placed, s, width, height) && Fits(s, width, height, b, w) && a in placed
    ensures Disjoint(a, b)
  {
    if a.x + a.w > b.x && b.x + b.w > a.x {
      var p := Max(a.x, b.x);
      TopBounds(s, b.x, w, p);
    }
  }

  lemma PlacingKeeps(placed: set<Box>, s: Sky, width: int, height: int, b: Box, w: nat)
    requires Packing(placed, s, width, height) && Fits(s, width, height, b, w)
    ensures Kept(s, b.x) < |s|
    ensures Packing(placed + {b}, Splice(s, b.x, b.w, b.y + b.h), width, height)
    ensures b !in placed
    ensures forall a | a in placed :: Disjoint(a, b)
  {
    hide Sorted, Splice, Locate, Kept, Top;
    TopSplit(s, b.x, w, 0);
    SpliceKeeps(s, width, height, b.x, b.w, b.y + b.h);
    var s' := Splice(s, b.x, b.w, b.y + b.h);
    forall a | a in placed ensures Disjoint(a, b) { PlacedApart(placed, s, width, height, b, w, a); }
    forall a, p | a in placed + {b} && a.x <= p < a.x + a.w ensures a.y + a.h <= HeightAt(s', p) {
      SpliceHeights(s, width, height, b.x, b.w, b.y + b.h, p);
      if b.x <= p < b.x + w { TopBounds(s, b.x, w, p); }
      TopBounds(s, b.x, w, b.x);
    }
  }
}
