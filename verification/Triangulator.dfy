/** Ear clipping on a ring of nodes in place, for whatever the geometric tests answer. */
module Triangulator {
  import opened Ring

  datatype Triangle = Triangle(a: int, b: int, c: int)

  // ---------------------------------------------------------------- values

  predicate SameButKinds(a: seq<Node>, b: seq<Node>) {
    |a| == |b| && forall i | 0 <= i < |a| :: b[i] == a[i].(kind := b[i].kind)
  }

  /** Every node knows its own index, and its point. */
  predicate Numbered(nodes: seq<Node>, points: seq<Point>) {
    |nodes| == |points| && forall i | 0 <= i < |nodes| :: nodes[i].index == i && nodes[i].pos == points[i]
  }

  /** A span holds different nodes, all of one kind. */
  predicate Marked(nodes: seq<Node>, xs: seq<int>, kind: Kind) {
    Distinct(xs) && forall k | 0 <= k < |xs| :: 0 <= xs[k] < |nodes| && nodes[xs[k]].kind == kind
  }

  predicate Within(xs: seq<int>, ring: seq<int>) {
    forall x | x in xs :: x in ring
  }

  lemma LinksStay(a: seq<Node>, b: seq<Node>, ring: seq<int>, points: seq<Point>)
    requires SameButKinds(a, b) && Linked(a, ring) && Numbered(a, points)
    ensures Linked(b, ring) && Numbered(b, points)
  {}

  /** A span never outgrows its storage: there are only as many different nodes as slots. */
  lemma {:induction false} SpanFits(xs: seq<int>, n: nat)
    requires Distinct(xs) && Indices(xs, n)
    ensures |xs| <= n
  {
    if n > 0 {
      if n - 1 in xs {
        var i :| 0 <= i < |xs| && xs[i] == n - 1;
        StillDistinct(xs, i);
        forall k | 0 <= k < |xs| && k != i ensures xs[k] < n - 1 { DistinctAt(xs, k, i); }
        SpanFits(Without(xs, i), n - 1);
      } else {
        SpanFits(xs, n - 1);
      }
    }
  }

  /** One more node of a kind it did not have before. */
  lemma PushMarks(nodes: seq<Node>, xs: seq<int>, kind: Kind, x: int)
    requires Marked(nodes, xs, kind) && 0 <= x < |nodes| && nodes[x].kind != kind
    ensures |xs| < |nodes| && Marked(nodes[x := nodes[x].(kind := kind)], xs + [x], kind)
  {
    assert Distinct(xs + [x]);
    SpanFits(xs + [x], |nodes|);
  }

  /** Another kind for a node that the span does not hold. */
  lemma OtherMarks(nodes: seq<Node>, xs: seq<int>, kind: Kind, x: int, k: Kind)
    requires Marked(nodes, xs, kind) && 0 <= x < |nodes| && (nodes[x].kind != kind || x !in xs)
    ensures Marked(nodes[x := nodes[x].(kind := k)], xs, kind)
  {}

  /** The span without `x`; the last node takes its place. */
  predicate Erased(xs: seq<int>, x: int, xs': seq<int>) {
    if x in xs then exists i :: 0 <= i < |xs| && xs[i] == x && xs' == xs[i := xs[|xs| - 1]][..|xs| - 1]
    else xs' == xs
  }

  lemma ErasedMarks(nodes: seq<Node>, xs: seq<int>, kind: Kind, x: int, xs': seq<int>)
    requires Marked(nodes, xs, kind) && Erased(xs, x, xs')
    ensures Marked(nodes, xs', kind) && x !in xs' && Within(xs', xs)
    ensures Distinct(xs') && forall y | y in xs && y != x :: y in xs'
  {
    if x in xs {
      var i :| 0 <= i < |xs| && xs[i] == x && xs' == xs[i := xs[|xs| - 1]][..|xs| - 1];
      forall k | 0 <= k < |xs'| ensures xs'[k] in xs && xs'[k] != x {
        DistinctAt(xs, if k == i then |xs| - 1 else k, i);
      }
      forall y | y in xs && y != x ensures y in xs' {
        var k :| 0 <= k < |xs| && xs[k] == y;
        assert xs'[if k == |xs| - 1 then i else k] == y;
      }
    }
  }

  // ---------------------------------------------------------------- turning the ring round

  /** Where node `j` leads when the first `k` nodes are linked the other way, as a ring of their own,
      and the rest as before. */
  function FlippedNext(ring: seq<int>, k: nat, j: nat): int
    requires 1 <= k <= |ring| && j < |ring|
  {
    if j >= k then Succ(ring, j) else if j > 0 then ring[j - 1] else ring[k - 1]
  }

  function FlippedPrev(ring: seq<int>, k: nat, j: nat): int
    requires j < k <= |ring|
  {
    if j < k - 1 then ring[j + 1] else ring[0]
  }

  predicate HalfFlipped(nodes: seq<Node>, ring: seq<int>, k: nat) {
    && 1 <= k <= |ring| && Distinct(ring) && Indices(ring, |nodes|)
    && (forall j {:trigger nodes[ring[j]]} | 0 <= j < |ring| :: nodes[ring[j]].next == FlippedNext(ring, k, j))
    && (forall j {:trigger nodes[ring[j]]} | 0 <= j < k :: nodes[ring[j]].prev == FlippedPrev(ring, k, j))
  }

  lemma HalfFlippedAt(nodes: seq<Node>, ring: seq<int>, k: nat, j: nat)
    requires HalfFlipped(nodes, ring, k) && j < |ring|
    ensures Distinct(ring) && 0 <= ring[j] < |nodes| && nodes[ring[j]].next == FlippedNext(ring, k, j)
    ensures j < k ==> nodes[ring[j]].prev == FlippedPrev(ring, k, j)
  {}

  function FlipOne(nodes: seq<Node>, first: int, prev: int, current: int): (r: seq<Node>)
    requires 0 <= first < |nodes| && 0 <= prev < |nodes| && 0 <= current < |nodes|
    ensures |r| == |nodes|
  {
    var a := nodes[current := nodes[current].(next := prev)];
    var b := a[prev := a[prev].(prev := current)];
    var c := b[first := b[first].(next := current)];
    c[current := c[current].(prev := first)]
  }

  lemma FlipStep(nodes: seq<Node>, ring: seq<int>, k: nat)
    requires HalfFlipped(nodes, ring, k) && k < |ring|
    ensures 0 <= ring[0] < |nodes| && 0 <= ring[k - 1] < |nodes| && 0 <= ring[k] < |nodes|
    ensures HalfFlipped(FlipOne(nodes, ring[0], ring[k - 1], ring[k]), ring, k + 1)
  {
    hide FlippedNext, FlippedPrev, FlipOne, Distinct;
    forall j: nat | j < |ring|
      ensures FlipOne(nodes, ring[0], ring[k - 1], ring[k])[ring[j]].next == FlippedNext(ring, k + 1, j)
      ensures j < k + 1 ==> FlipOne(nodes, ring[0], ring[k - 1], ring[k])[ring[j]].prev == FlippedPrev(ring, k + 1, j)
    {
      FlipStepAt(nodes, ring, k, j);
    }
  }

  lemma FlipStepAt(nodes: seq<Node>, ring: seq<int>, k: nat, j: nat)
    requires HalfFlipped(nodes, ring, k) && 1 <= k < |ring| && j < |ring|
    ensures 0 <= ring[0] < |nodes| && 0 <= ring[k - 1] < |nodes| && 0 <= ring[k] < |nodes| && 0 <= ring[j] < |nodes|
    ensures var s := FlipOne(nodes, ring[0], ring[k - 1], ring[k]);
      && s[ring[j]].next == FlippedNext(ring, k + 1, j)
      && (j < k + 1 ==> s[ring[j]].prev == FlippedPrev(ring, k + 1, j))
  {
    hide HalfFlipped, Distinct;
    HalfFlippedAt(nodes, ring, k, 0);
    HalfFlippedAt(nodes, ring, k, k - 1);
    HalfFlippedAt(nodes, ring, k, k);
    HalfFlippedAt(nodes, ring, k, j);
    DistinctAt(ring, j, k);
    DistinctAt(ring, j, 0);
    DistinctAt(ring, j, k - 1);
    DistinctAt(ring, k, 0);
    DistinctAt(ring, k, k - 1);
  }

  lemma FlipStarts(nodes: seq<Node>, ring: seq<int>)
    requires Linked(nodes, ring)
    ensures 0 <= ring[0] < |nodes|
    ensures HalfFlipped(nodes[ring[0] := nodes[ring[0]].(next := ring[0], prev := ring[0])], ring, 1)
  {
    forall j | 1 <= j < |ring| ensures ring[j] != ring[0] { DistinctAt(ring, j, 0); }
  }

  lemma FlipEnds(nodes: seq<Node>, ring: seq<int>)
    requires HalfFlipped(nodes, ring, |ring|)
    ensures Linked(nodes, Reversed(ring))
  {
    var r, m := Reversed(ring), |ring|;
    forall i, k | 0 <= i < k < m ensures r[i] != r[k] { DistinctAt(ring, m - 1 - i, m - 1 - k); }
    forall k | 0 <= k < m
      ensures 0 <= r[k] < |nodes| && nodes[r[k]].next == Succ(r, k) && nodes[r[k]].prev == Pred(r, k)
    {
      var j := m - 1 - k;
      assert r[k] == ring[j] && r[0] == ring[m - 1] && r[m - 1] == ring[0];
      assert nodes[ring[j]].prev == if j < m - 1 then ring[j + 1] else ring[0];
      assert k + 1 < m ==> r[k + 1] == ring[j - 1];
      assert k > 0 ==> r[k - 1] == ring[j + 1];
      assert nodes[ring[j]].next == if j > 0 then ring[j - 1] else ring[m - 1];
      assert Succ(r, k) == if k + 1 < m then r[k + 1] else r[0];
      assert Pred(r, k) == if k > 0 then r[k - 1] else r[m - 1];
    }
  }

  // ---------------------------------------------------------------- the polygon

  /** A polygon, and the two geometric tests; nothing is assumed about their answers. */
  datatype Polygon = Polygon(
    points: seq<Point>, clockwise: (Point, Point, Point) -> bool, contains: (Point, Point, Point, Point) -> bool)
  {
    /** The turn at a corner of the ring `r`. */
    predicate Turns(r: seq<int>, k: nat)
      requires Indices(r, |points|) && k < |r|
    {
      clockwise(points[Pred(r, k)], points[r[k]], points[Succ(r, k)])
    }

    /** No reflex node other than the corners themselves is inside the triangle. */
    predicate EarTest(i0: int, i1: int, i2: int, rs: seq<int>)
      requires 0 <= i0 < |points| && 0 <= i1 < |points| && 0 <= i2 < |points| && Indices(rs, |points|)
    {
      forall k | 0 <= k < |rs| ::
        rs[k] != i0 && rs[k] != i1 && rs[k] != i2 ==> !contains(points[i0], points[i1], points[i2], points[rs[k]])
    }

    predicate EarAt(r: seq<int>, k: nat, rs: seq<int>)
      requires Indices(r, |points|) && Indices(rs, |points|) && k < |r|
    {
      EarTest(Pred(r, k), r[k], Succ(r, k), rs)
    }

    /** What the tests make of a corner. */
    function KindAt(r: seq<int>, k: nat, rs: seq<int>): Kind
      requires Indices(r, |points|) && Indices(rs, |points|) && k < |r|
    {
      if !Turns(r, k) then Reflex else if EarAt(r, k, rs) then Ear else Convex
    }

    /** Those of the first `n` corners of a ring that turn the wrong way. */
    function ReflexesOf(r: seq<int>, n: nat): (rs: seq<int>)
      requires Indices(r, |points|) && n <= |r|
      ensures Indices(rs, |points|)
    {
      if n == 0 then [] else ReflexesOf(r, n - 1) + if Turns(r, n - 1) then [] else [r[n - 1]]
    }

    /** Those that turn the right way and have none of `rs` inside. */
    function EarsOf(r: seq<int>, n: nat, rs: seq<int>): (es: seq<int>)
      requires Indices(r, |points|) && Indices(rs, |points|) && n <= |r|
      ensures forall k | 0 <= k < n && Turns(r, k) && EarAt(r, k, rs) :: r[k] in es
    {
      if n == 0 then []
      else EarsOf(r, n - 1, rs) + if Turns(r, n - 1) && EarAt(r, n - 1, rs) then [r[n - 1]] else []
    }

    /** The ears of a ring that is looked at afresh; its last corner is not looked at. */
    function Ears(r: seq<int>): seq<int>
      requires Indices(r, |points|) && r != []
    {
      EarsOf(r, |r| - 1, ReflexesOf(r, |r| - 1))
    }
  }

  /** The ears on the ring, but for one, are on their span. */
  predicate Listed(nodes: seq<Node>, ring: seq<int>, ears: seq<int>, except: int) {
    && Indices(ring, |nodes|)
    && forall k | 0 <= k < |ring| && ring[k] != except && nodes[ring[k]].kind == Ear :: ring[k] in ears
  }

  /** They turn the right way between the neighbours they have, but for some still to be looked at. */
  predicate Turned(p: Polygon, nodes: seq<Node>, ring: seq<int>, except: set<int>) {
    && Indices(ring, |nodes|) && Indices(ring, |p.points|)
    && forall k: nat | k < |ring| && ring[k] !in except && nodes[ring[k]].kind == Ear :: p.Turns(ring, k)
  }

  /** Taking a node out of the ring: only its neighbours have to be looked at again. */
  lemma CornerGone(p: Polygon, a: seq<Node>, b: seq<Node>, r: seq<int>, j: nat, ears: seq<int>)
    requires Distinct(r) && |r| >= 3 && j < |r| && |b| == |a| && forall i | 0 <= i < |a| :: SameButLinks(b[i], a[i])
    requires Listed(a, r, ears, r[j]) && Turned(p, a, r, {})
    ensures Listed(b, Without(r, j), ears, -1) && Turned(p, b, Without(r, j), {Pred(r, j), Succ(r, j)})
  {
    hide Polygon.Turns, Pred, Succ;
    var r' := Without(r, j);
    forall k: nat | k < |r'| && b[r'[k]].kind == Ear
      ensures r'[k] in ears && (r'[k] != Pred(r, j) && r'[k] != Succ(r, j) ==> p.Turns(r', k))
    {
      var i := if k < j then k else k + 1;
      DistinctAt(r, i, j);
      if r[i] != Pred(r, j) && r[i] != Succ(r, j) { TurnStays(p, r, j, i); }
    }
  }

  /** How a triangle comes off a ring: it is a corner of the ring, or of the ring turned round, with its
      neighbours.  On a ring that has been turned round the last of its ears is taken, or, if it has
      none, the first corner; that is the only triangle that need not turn the right way. */
  ghost predicate CutOff(p: Polygon, ring: seq<int>, flipped: bool, forced: bool, t: Triangle, j: nat,
      ring': seq<int>) {
    var r := if flipped then Reversed(ring) else ring;
    && Indices(r, |p.points|) && j < |r|
    && t == Triangle(Pred(r, j), r[j], Succ(r, j)) && ring' == Without(r, j)
    && (forced <==> flipped && p.Ears(r) == [])
    && (flipped ==> t.b == if forced then r[0] else p.Ears(r)[|p.Ears(r)| - 1])
    && (!forced ==> p.Turns(r, j))
  }

  /** Away from the corner that goes, the turns stay the same. */
  lemma TurnStays(p: Polygon, r: seq<int>, j: nat, a: nat)
    requires Indices(r, |p.points|) && Distinct(r) && |r| >= 3 && j < |r| && a < |r| && a != j
    requires r[a] != Pred(r, j) && r[a] != Succ(r, j)
    ensures var k := if a < j then a else a - 1;
      && Indices(Without(r, j), |p.points|) && k < |Without(r, j)| && Without(r, j)[k] == r[a]
      && p.Turns(Without(r, j), k) == p.Turns(r, a)
  {}

  // ---------------------------------------------------------------- the triangulator

  class Triangulator {
    /** The two geometric tests; nothing is assumed about their answers. */
    const clockwise: (Point, Point, Point) -> bool
    const contains: (Point, Point, Point, Point) -> bool
    const points: seq<Point>
    const nodes: array<Node>
    var first: int
    var trianglesLeft: int
    var ears: seq<int>
    var reflexes: seq<int>
    ghost var ring: seq<int>

    /** The nodes left form a ring of two more than there are triangles left. */
    ghost predicate Ringed()
      reads this, nodes
    {
      && Numbered(nodes[..], points) && Linked(nodes[..], ring)
      && first == ring[0] && |ring| == trianglesLeft + 2 && trianglesLeft >= 0
    }

    /** The spans hold different nodes of their kind, and the ears are all on the ring. */
    ghost predicate Spanned()
      reads this, nodes
    {
      Marked(nodes[..], ears, Ear) && Within(ears, ring) && Marked(nodes[..], reflexes, Reflex)
    }

    ghost function Poly(): Polygon { Polygon(points, clockwise, contains) }

    ghost predicate InStep()
      reads this, nodes
    {
      Ringed() && Spanned()
    }

    ghost predicate Valid()
      reads this, nodes
    {
      InStep() && Listed(nodes[..], ring, ears, -1) && Turned(Poly(), nodes[..], ring, {})
    }

    constructor (points: seq<Point>, clockwise: (Point, Point, Point) -> bool,
        contains: (Point, Point, Point, Point) -> bool)
      requires |points| >= 3
      ensures Valid() && fresh(nodes) && this.points == points && Poly() == Polygon(points, clockwise, contains)
      ensures ring == seq(|points|, i => i)
      ensures reflexes == Poly().ReflexesOf(ring, |ring| - 1) && ears == Poly().Ears(ring)
    {
      hide Linked, Numbered, Marked, Polygon.EarTest, Polygon.Turns, Polygon.ReflexesOf, Polygon.EarsOf;
      this.points, this.clockwise, this.contains := points, clockwise, contains;
      nodes := new Node[|points|](_ => Node(Convex, 0, Point(0.0, 0.0), 0, 0));
      trianglesLeft, first, ears, reflexes := |points| - 2, 0, [], [];
      ring := seq(|points|, i => i);
      new;
      BuildNodes();
      BuildReflexes();
      BuildEars();
      LookedAt();
    }

    /** With all but the last node looked at, and that one no ear, every ear is listed and turns. */
    lemma LookedAt()
      requires InStep() && Indices(ring, |points|) && Indices(reflexes, |points|)
      requires ears == Poly().EarsOf(ring, |ring| - 1, reflexes) && nodes[ring[|ring| - 1]].kind != Ear
      requires forall k | 0 <= k <= trianglesLeft :: nodes[ring[k]].kind == Poly().KindAt(ring, k, reflexes)
      ensures Valid()
    {
      hide Linked, Marked, Polygon.EarTest, Polygon.Turns;
    }

    method BuildNodes()
      requires nodes.Length == |points| >= 3 && trianglesLeft == |points| - 2 && first == 0
      requires ring == seq(|points|, i => i)
      modifies nodes
      ensures Ringed() && forall i | 0 <= i < nodes.Length :: nodes[i].kind == Convex
    {
      var n := |points|;
      for i := 0 to n
        invariant forall j | 0 <= j < i :: nodes[j] == Node(Convex, j, points[j], j + 1, j - 1)
      {
        nodes[i] := Node(Convex, i, points[i], i + 1, i - 1);
      }
      nodes[0] := nodes[0].(prev := n - 1);
      nodes[n - 1] := nodes[n - 1].(next := 0);
    }

    method SetNode(i: int, node: Node)
      requires 0 <= i < nodes.Length
      modifies nodes
      ensures nodes[..] == old(nodes[..])[i := node]
    {
      nodes[i] := node;
    }

    /** Gives node `x` of the ring a kind. */
    method SetKind(x: int, kind: Kind)
      requires Ringed() && 0 <= x < nodes.Length
      modifies nodes
      ensures Ringed() && nodes[..] == old(nodes[..])[x := old(nodes[x]).(kind := kind)]
    {
      hide Linked, Numbered;
      SetNode(x, nodes[x].(kind := kind));
      LinksStay(old(nodes[..]), nodes[..], ring, points);
    }

    lemma RingSize()
      requires Valid()
      ensures |ring| == trianglesLeft + 2 && trianglesLeft >= 0
    {}

    lemma NoSpans()
      requires Ringed() && ears == [] && reflexes == []
      ensures InStep()
    {}

    lemma InRange()
      requires InStep()
      ensures |points| == nodes.Length && Indices(ring, |points|) && Indices(reflexes, |points|)
      ensures Indices(ears, |points|)
    {}

    /** Marks the corners that turn the wrong way.  All but one of the ring's nodes are looked at here;
        the one before the first is not. */
    method BuildReflexes()
      requires Ringed() && ears == [] && reflexes == []
      requires forall k | 0 <= k <= trianglesLeft :: nodes[ring[k]].kind == Convex
      modifies nodes, this`reflexes
      ensures InStep() && Indices(ring, |points|)
      ensures forall k | 0 <= k <= trianglesLeft ::
        nodes[ring[k]].kind == if Poly().Turns(ring, k) then Convex else Reflex
      ensures reflexes == Poly().ReflexesOf(ring, |ring| - 1)
      ensures nodes[ring[trianglesLeft + 1]].kind == old(nodes[ring[trianglesLeft + 1]].kind)
    {
      hide Numbered, Polygon.Turns, Linked, Marked;
      var n1 := first;
      ghost var k := 0;
      NoSpans();
      InRange();
      for i := trianglesLeft + 1 downto 0
        invariant k == trianglesLeft + 1 - i && n1 == ring[k] && InStep() && Indices(ring, |points|) && ears == []
        invariant forall j | k <= j <= trianglesLeft :: nodes[ring[j]].kind == Convex
        invariant forall j | 0 <= j < k :: nodes[ring[j]].kind == if Poly().Turns(ring, j) then Convex else Reflex
        invariant reflexes == Poly().ReflexesOf(ring, k)
        invariant nodes[ring[trianglesLeft + 1]].kind == old(nodes[ring[trianglesLeft + 1]].kind)
      {
        OthersOnRing(k);
        n1 := MarkReflex(n1, k);
        k := k + 1;
      }
    }

    /** The turn at one node; steps on to the next. */
    method MarkReflex(n1: int, ghost k: nat) returns (next: int)
      requires InStep() && Indices(ring, |points|) && k + 1 < |ring| && n1 == ring[k] && nodes[n1].kind == Convex
      requires ears == []
      modifies nodes, this`reflexes
      ensures InStep() && next == ring[k + 1]
      ensures nodes[n1].kind == if Poly().Turns(ring, k) then Convex else Reflex
      ensures reflexes == old(reflexes) + if Poly().Turns(ring, k) then [] else [n1]
      ensures forall i | 0 <= i < nodes.Length && i != n1 :: nodes[i] == old(nodes[i])
    {
      hide Numbered, Polygon.Turns, Linked, Marked;
      TurnOf(k);
      var node := nodes[n1];
      if !clockwise(nodes[node.prev].pos, node.pos, nodes[node.next].pos) {
        PushReflex(n1);
      }
      next := nodes[n1].next;
    }

    lemma OthersOnRing(k: nat)
      requires Ringed() && k < |ring|
      ensures forall j | 0 <= j < |ring| && j != k :: ring[j] != ring[k]
    {
      forall j | 0 <= j < |ring| && j != k ensures ring[j] != ring[k] { DistinctAt(ring, j, k); }
    }

    lemma TurnOf(k: nat)
      requires InStep() && k < |ring|
      ensures Indices(ring, |points|) && 0 <= ring[k] < nodes.Length
      ensures var node := nodes[ring[k]];
        && 0 <= node.prev < nodes.Length && 0 <= node.next < nodes.Length
        && (clockwise(nodes[node.prev].pos, node.pos, nodes[node.next].pos) <==> Poly().Turns(ring, k))
        && node.next == Succ(ring, k) && node.prev == Pred(ring, k) && node.index == ring[k]
            && nodes[node.prev].index == Pred(ring, k) && nodes[node.next].index == Succ(ring, k)
        && node.pos == points[ring[k]] && nodes[node.prev].pos == points[Pred(ring, k)]
            && nodes[node.next].pos == points[Succ(ring, k)]
    {
      LinkedAt(nodes[..], ring, k);
    }

    method PushReflex(x: int)
      requires InStep() && 0 <= x < nodes.Length && nodes[x].kind != Reflex && x !in ears
      modifies nodes, this`reflexes
      ensures InStep() && nodes[..] == old(nodes[..])[x := old(nodes[x]).(kind := Reflex)]
      ensures reflexes == old(reflexes) + [x]
    {
      hide Linked, Numbered, Marked;
      PushMarks(nodes[..], reflexes, Reflex, x);
      OtherMarks(nodes[..], ears, Ear, x, Reflex);
      SetKind(x, Reflex);
      assert |reflexes| < nodes.Length;
      reflexes := reflexes + [x];
    }

    method PushEar(x: int)
      requires InStep() && 0 <= x < nodes.Length && nodes[x].kind != Ear && x in ring && x !in reflexes
      modifies nodes, this`ears
      ensures InStep() && nodes[..] == old(nodes[..])[x := old(nodes[x]).(kind := Ear)]
      ensures ears == old(ears) + [x]
    {
      hide Linked, Numbered, Marked;
      PushMarks(nodes[..], ears, Ear, x);
      OtherMarks(nodes[..], reflexes, Reflex, x, Ear);
      SetKind(x, Ear);
      assert |ears| < nodes.Length;
      ears := ears + [x];
    }

    /** Marks the ears among the convex corners, again looking at all but one. */
    method BuildEars()
      requires InStep() && Indices(ring, |points|) && Indices(reflexes, |points|) && ears == []
      requires forall k | 0 <= k <= trianglesLeft ::
        nodes[ring[k]].kind == if Poly().Turns(ring, k) then Convex else Reflex
      modifies nodes, this`ears
      ensures InStep() && ears == Poly().EarsOf(ring, |ring| - 1, reflexes)
      ensures forall k | 0 <= k <= trianglesLeft ::
        nodes[ring[k]].kind == Poly().KindAt(ring, k, reflexes)
      ensures nodes[ring[trianglesLeft + 1]].kind == old(nodes[ring[trianglesLeft + 1]].kind)
    {
      hide Numbered, Linked, Marked, Polygon.EarTest, Polygon.Turns;
      var n1 := first;
      ghost var k := 0;
      InRange();
      for i := trianglesLeft + 1 downto 0
        invariant k == trianglesLeft + 1 - i && n1 == ring[k] && InStep()
        invariant forall j | k <= j <= trianglesLeft ::
          nodes[ring[j]].kind == if Poly().Turns(ring, j) then Convex else Reflex
        invariant forall j | 0 <= j < k ::
          nodes[ring[j]].kind == Poly().KindAt(ring, j, reflexes)
        invariant ears == Poly().EarsOf(ring, k, reflexes)
        invariant nodes[ring[trianglesLeft + 1]].kind == old(nodes[ring[trianglesLeft + 1]].kind)
      {
        OthersOnRing(k);
        n1 := MarkEar(n1, k);
        k := k + 1;
      }
    }

    method MarkEar(n1: int, ghost k: nat) returns (next: int)
      requires InStep() && Indices(ring, |points|) && Indices(reflexes, |points|) && k + 1 < |ring| && n1 == ring[k]
      modifies nodes, this`ears
      ensures InStep() && next == ring[k + 1]
      ensures nodes[n1].kind ==
        if old(nodes[n1].kind) == Convex && Poly().EarAt(ring, k, reflexes) then Ear else old(nodes[n1].kind)
      ensures ears == old(ears)
        + if old(nodes[n1].kind) == Convex && Poly().EarAt(ring, k, reflexes) then [n1] else []
      ensures forall i | 0 <= i < nodes.Length && i != n1 :: nodes[i] == old(nodes[i])
    {
      hide Numbered, Polygon.EarTest, Linked, Marked, Polygon.Turns;
      TurnOf(k);
      NotMarked(n1);
      var node := nodes[n1];
      if node.kind == Convex {
        var before, after := nodes[node.prev], nodes[node.next];
        var ear := IsEar(before.index, node.index, after.index, before.pos, node.pos, after.pos);
        if ear {
          PushEar(n1);
        }
      }
      next := nodes[n1].next;
    }

    method IsEar(i0: int, i1: int, i2: int, v0: Point, v1: Point, v2: Point) returns (ear: bool)
      requires Marked(nodes[..], reflexes, Reflex) && Numbered(nodes[..], points)
      requires 0 <= i0 < |points| && 0 <= i1 < |points| && 0 <= i2 < |points| && v0 == points[i0]
      requires v1 == points[i1] && v2 == points[i2]
      ensures Indices(reflexes, |points|) && (ear <==> Poly().EarTest(i0, i1, i2, reflexes))
    {
      for p := 0 to |reflexes|
        invariant Indices(reflexes, |points|) && Poly().EarTest(i0, i1, i2, reflexes[..p])
      {
        var reflex := nodes[reflexes[p]];
        assert reflex.index == reflexes[p] && reflexes[..p + 1][p] == reflexes[p];
        if reflex.index != i0 && reflex.index != i1 && reflex.index != i2 {
          if contains(v0, v1, v2, reflex.pos) {
            return false;
          }
        }
      }
      assert reflexes[..|reflexes|] == reflexes;
      return true;
    }

    // -------------------------------------------------------------- one triangle

    /** The span without `x`: the last node takes its place. */
    method Erase(xs: seq<int>, x: int) returns (r: seq<int>)
      requires Numbered(nodes[..], points) && Indices(xs, nodes.Length)
      ensures Erased(xs, x, r)
    {
      var i := |xs| - 1;
      while i >= 0
        invariant -1 <= i < |xs| && x !in xs[i + 1..]
      {
        if nodes[xs[i]].index == x {
          return xs[i := xs[|xs| - 1]][..|xs| - 1];
        }
        i := i - 1;
      }
      return xs;
    }

    /** Classifies a node anew after one of its neighbours has gone. */
    method ReclassifyNode(n1: int, ghost k: nat, ghost stale: set<int>)
      requires InStep() && k < |ring| && n1 == ring[k]
      requires Listed(nodes[..], ring, ears, -1) && Turned(Poly(), nodes[..], ring, stale)
      modifies nodes, this`ears, this`reflexes
      ensures InStep() && Indices(ring, |points|) && Indices(old(reflexes), |points|)
      ensures Listed(nodes[..], ring, ears, -1) && Turned(Poly(), nodes[..], ring, stale - {n1})
      ensures forall y | y != n1 :: (y in ears <==> y in old(ears)) && (y in reflexes <==> y in old(reflexes))
      ensures n1 in ears <==> nodes[n1].kind == Ear
      ensures if nodes[n1].kind == old(nodes[n1].kind) then n1 in reflexes <==> n1 in old(reflexes)
        else n1 in reflexes <==> nodes[n1].kind == Reflex
      ensures nodes[n1].kind == Poly().KindAt(ring, k, old(reflexes))
      ensures forall i | 0 <= i < nodes.Length && i != n1 :: nodes[i] == old(nodes[i])
    {
      hide Numbered, Polygon.EarTest, Polygon.Turns, Linked, Marked;
      InRange();
      TurnOf(k);
      var node := nodes[n1];
      var kind := Convex;
      if !clockwise(nodes[node.prev].pos, node.pos, nodes[node.next].pos) {
        kind := Reflex;
      } else {
        var before, after := nodes[node.prev], nodes[node.next];
        var ear := IsEar(before.index, node.index, after.index, before.pos, node.pos, after.pos);
        if ear {
          kind := Ear;
        }
      }
      OthersOnRing(k);
      NotMarked(n1);
      if kind == node.kind {
        return;
      }
      Retype(n1, kind);
    }

    /** Moves node `x` from the span of its old kind to that of the new one. */
    method Retype(x: int, kind: Kind)
      requires InStep() && 0 <= x < nodes.Length && x in ring && nodes[x].kind != kind
      modifies nodes, this`ears, this`reflexes
      ensures InStep() && nodes[x].kind == kind
      ensures forall y | y != x :: (y in ears <==> y in old(ears)) && (y in reflexes <==> y in old(reflexes))
      ensures (x in ears <==> kind == Ear) && (x in reflexes <==> kind == Reflex)
      ensures forall i | 0 <= i < nodes.Length && i != x :: nodes[i] == old(nodes[i])
    {
      hide Linked, Numbered, Marked;
      InRange();
      NotMarked(x);
      if nodes[x].kind == Reflex {
        ghost var was := reflexes;
        reflexes := Erase(reflexes, nodes[x].index);
        ErasedMarks(nodes[..], was, Reflex, x, reflexes);
      } else if nodes[x].kind == Ear {
        ghost var was := ears;
        ears := Erase(ears, nodes[x].index);
        ErasedMarks(nodes[..], was, Ear, x, ears);
      }
      if kind == Reflex {
        PushReflex(x);
      } else if kind == Ear {
        PushEar(x);
      } else {
        OtherMarks(nodes[..], ears, Ear, x, kind);
        OtherMarks(nodes[..], reflexes, Reflex, x, kind);
        SetKind(x, kind);
      }
    }

    lemma NotMarked(x: int)
      requires InStep() && 0 <= x < nodes.Length
      ensures nodes[x].index == x
      ensures nodes[x].kind != Reflex ==> x !in reflexes
      ensures nodes[x].kind != Ear ==> x !in ears
    {}

    /** The next triangle.  When no ear is left the ring is turned round and looked at afresh, and if
        there is still none the first corner is taken. */
    method GetNextTriangle() returns (t: Triangle, ghost flipped: bool, ghost forced: bool, ghost j: nat)
      requires Valid() && trianglesLeft > 0
      modifies this, nodes
      ensures Valid() && trianglesLeft == old(trianglesLeft) - 1
      ensures flipped <==> old(ears) == []
      ensures !flipped ==> t.b == old(ears)[|old(ears)| - 1]
      ensures CutOff(Poly(), old(ring), flipped, forced, t, j, ring)
    {
      hide Linked, Numbered, Marked, Polygon.EarTest, Polygon.Turns, Polygon.EarsOf, Polygon.ReflexesOf, Reversed,
        Without;
      flipped := |ears| == 0;
      forced := false;
      if |ears| == 0 {
        TurnRound();
        forced := |ears| == 0;
      }
      var ear;
      ear, j := TakeEar();
      ghost var between;
      t, between := Clip(ear, j);
    }

    /** Turns the ring round and classifies its corners afresh. */
    method TurnRound()
      requires Valid() && ears == []
      modifies this, nodes
      ensures Valid() && trianglesLeft == old(trianglesLeft) && ring == Reversed(old(ring))
      ensures reflexes == Poly().ReflexesOf(ring, |ring| - 1) && ears == Poly().Ears(ring)
      ensures forall k | 0 <= k <= trianglesLeft ::
        nodes[ring[k]].kind == Poly().KindAt(ring, k, reflexes)
    {
      hide Linked, Numbered, Marked, Polygon.EarAt, Polygon.Turns, Polygon.EarsOf, Polygon.ReflexesOf, Polygon.KindAt,
        Listed, Turned;
      NoEars();
      FlipNodeList();
      ResetKinds();
      reflexes := [];
      BuildReflexes();
      BuildEars();
      LookedAt();
    }

    lemma NoEars()
      requires Valid() && ears == []
      ensures forall k | 0 <= k < |ring| :: 0 <= ring[k] < nodes.Length && nodes[ring[k]].kind != Ear
    {}

    method ResetKinds()
      requires Ringed()
      modifies nodes
      ensures Ringed() && forall k | 0 <= k <= trianglesLeft :: nodes[ring[k]].kind == Convex
      ensures forall i | 0 <= i < nodes.Length :: nodes[i].kind == Convex || nodes[i].kind == old(nodes[i].kind)
    {
      hide Linked, Numbered;
      var node := first;
      ghost var k := 0;
      LinkedAt(nodes[..], ring, 0);
      for i := trianglesLeft + 1 downto 0
        invariant k == trianglesLeft + 1 - i && node == ring[k] && Ringed() && 0 <= node < nodes.Length
        invariant forall m | 0 <= m < k :: 0 <= ring[m] < nodes.Length && nodes[ring[m]].kind == Convex
        invariant forall i | 0 <= i < nodes.Length :: nodes[i].kind == Convex || nodes[i].kind == old(nodes[i].kind)
      {
        LinkedAt(nodes[..], ring, k);
        LinkedAt(nodes[..], ring, k + 1);
        SetKind(node, Convex);
        node := nodes[node].next;
        k := k + 1;
      }
    }

    /** Takes the last ear off its span, or the first node if there is none. */
    method TakeEar() returns (ear: int, ghost j: nat)
      requires Valid()
      modifies this`ears
      ensures InStep() && ear !in ears && j < |ring| && ear == ring[j]
      ensures Listed(nodes[..], ring, ears, ear) && Turned(Poly(), nodes[..], ring, {})
      ensures old(ears) != [] ==> Poly().Turns(ring, j)
      ensures ear == if old(ears) == [] then first else old(ears)[|old(ears)| - 1]
    {
      hide Linked, Numbered;
      if |ears| == 0 {
        ears := [first];
      }
      ear := ears[|ears| - 1];
      assert ear in ears && ear in ring;
      assert forall k | 0 <= k < |ears| - 1 :: ears[k] != ear;
      ears := ears[..|ears| - 1];
      j :| 0 <= j < |ring| && ring[j] == ear;
    }

    /** Cuts the ear off and classifies its neighbours anew, each between the neighbours it has then: the
        one before it against the reflex nodes `reflexes`, the one after it against those there are when the
        first has been looked at.  The count goes down here already; nothing in between looks at it. */
    method Clip(ear: int, ghost j: nat) returns (t: Triangle, ghost between: seq<int>)
      requires InStep() && trianglesLeft > 0 && ear !in ears && j < |ring| && ear == ring[j]
      requires Listed(nodes[..], ring, ears, ear) && Turned(Poly(), nodes[..], ring, {})
      modifies this, nodes
      ensures Valid() && trianglesLeft == old(trianglesLeft) - 1
      ensures t == Triangle(Pred(old(ring), j), old(ring)[j], Succ(old(ring), j)) && ring == Without(old(ring), j)
      ensures Indices(ring, |points|) && Indices(old(reflexes), |points|) && Indices(between, |points|)
      ensures var k := if j > 0 then j - 1 else |ring| - 1;
        ring[k] == t.a && nodes[t.a].kind == Poly().KindAt(ring, k, old(reflexes))
      ensures var k := if j < |ring| then j else 0;
        ring[k] == t.c && nodes[t.c].kind == Poly().KindAt(ring, k, between)
      ensures forall y | y != t.a :: y in between <==> y in old(reflexes)
      ensures forall y | y != t.c :: y in between <==> y in reflexes
      ensures forall y | y != t.a && y != t.c :: y in ears <==> y in old(ears)
    {
      hide Linked, Numbered, Marked, Polygon.EarTest, Polygon.Turns;
      TurnOf(j);
      var prev, next := nodes[ear].prev, nodes[ear].next;
      t := Triangle(nodes[prev].index, nodes[ear].index, nodes[next].index);
      Unlink(ear, j);
      ghost var stale := {prev, next};
      ghost var kp, kn := if j > 0 then j - 1 else |ring| - 1, if j < |ring| then j else 0;
      assert prev == ring[kp] && next == ring[kn];
      ReclassifyNode(prev, kp, stale);
      between := reflexes;
      OthersOnRing(kp);
      ReclassifyNode(next, kn, stale - {prev});
      assert stale - {prev} - {next} == {};
    }

    method Unlink(ear: int, ghost j: nat)
      requires InStep() && trianglesLeft > 0 && ear !in ears && j < |ring| && ear == ring[j]
      requires Listed(nodes[..], ring, ears, ear) && Turned(Poly(), nodes[..], ring, {})
      modifies this`first, this`trianglesLeft, this`ring, nodes
      ensures InStep() && trianglesLeft == old(trianglesLeft) - 1 && ring == Without(old(ring), j)
      ensures Listed(nodes[..], ring, ears, -1)
      ensures Turned(Poly(), nodes[..], ring, {Pred(old(ring), j), Succ(old(ring), j)})
      ensures forall i | 0 <= i < nodes.Length :: SameButLinks(nodes[i], old(nodes[i]))
    {
      hide Linked, Numbered, Marked, Listed, Turned;
      UnlinkedLinks(nodes[..], ring, j);
      LinkedAt(nodes[..], ring, j);
      var next, prev := nodes[ear].next, nodes[ear].prev;
      SetNode(next, nodes[next].(prev := prev));
      SetNode(prev, nodes[prev].(next := next));
      assert nodes[..] == Unlinked(old(nodes[..]), ear);
      LinksOnly(old(nodes[..]), nodes[..], points);
      MarksStay(old(nodes[..]), nodes[..], ears, Ear);
      MarksStay(old(nodes[..]), nodes[..], reflexes, Reflex);
      if ear == first {
        first := nodes[ear].next;
      }
      DistinctOf(old(nodes[..]), ring);
      DistinctAt(ring, j, 0);
      CornerGone(Poly(), old(nodes[..]), nodes[..], ring, j, ears);
      ring := Without(ring, j);
      trianglesLeft := trianglesLeft - 1;
    }

    /** Turns the ring round, in place. */
    method FlipNodeList()
      requires Ringed()
      modifies nodes, this`first, this`ring
      ensures Ringed() && ring == Reversed(old(ring))
      ensures forall i | 0 <= i < nodes.Length :: nodes[i].kind == old(nodes[i].kind)
    {
      hide Linked, HalfFlipped, Numbered;
      var prev := FlipLinks();
      FlipEnds(nodes[..], ring);
      LinksOnly(old(nodes[..]), nodes[..], points);
      assert Reversed(ring)[0] == ring[|ring| - 1];
      first := prev;
      ring := Reversed(ring);
    }

    method FlipLinks() returns (prev: int)
      requires Ringed()
      modifies nodes
      ensures HalfFlipped(nodes[..], ring, |ring|) && prev == ring[|ring| - 1]
      ensures forall i | 0 <= i < nodes.Length :: SameButLinks(nodes[i], old(nodes[i]))
    {
      hide Linked, HalfFlipped, Numbered;
      ghost var k := 1;
      LinkedAt(nodes[..], ring, 0);
      LinkedAt(nodes[..], ring, 1);
      DistinctOf(nodes[..], ring);
      prev := first;
      var current := nodes[first].next;
      FlipStarts(nodes[..], ring);
      SetNode(prev, nodes[prev].(next := prev, prev := prev));
      while current != first
        invariant 1 <= k <= |ring| && prev == ring[k - 1] && current == (if k < |ring| then ring[k] else ring[0])
        invariant HalfFlipped(nodes[..], ring, k)
        invariant forall i | 0 <= i < nodes.Length :: SameButLinks(nodes[i], old(nodes[i]))
        decreases |ring| - k
      {
        var temp := FlipNode(prev, current, k);
        prev := current;
        current := temp;
        k := k + 1;
      }
      DistinctAt(ring, if k < |ring| then k else 0, 0);
    }

    /** Links one more node the other way; returns the one after it. */
    method FlipNode(prev: int, current: int, ghost k: nat) returns (temp: int)
      requires HalfFlipped(nodes[..], ring, k) && k < |ring| && first == ring[0] && prev == ring[k - 1]
      requires current == ring[k]
      modifies nodes
      ensures HalfFlipped(nodes[..], ring, k + 1) && temp == Succ(ring, k)
      ensures forall i | 0 <= i < nodes.Length :: SameButLinks(nodes[i], old(nodes[i]))
    {
      hide HalfFlipped;
      FlipStep(nodes[..], ring, k);
      HalfFlippedAt(nodes[..], ring, k, k);
      temp := nodes[current].next;
      SetNode(current, nodes[current].(next := prev));
      SetNode(prev, nodes[prev].(prev := current));
      SetNode(first, nodes[first].(next := current));
      SetNode(current, nodes[current].(prev := first));
    }
  }

  predicate SameButLinks(a: Node, b: Node) {
    a == b.(next := a.next, prev := a.prev)
  }

  lemma LinksOnly(a: seq<Node>, b: seq<Node>, points: seq<Point>)
    requires |a| == |b| && Numbered(a, points) && forall i | 0 <= i < |a| :: SameButLinks(b[i], a[i])
    ensures Numbered(b, points)
  {}

  lemma MarksStay(a: seq<Node>, b: seq<Node>, xs: seq<int>, kind: Kind)
    requires |a| == |b| && Marked(a, xs, kind) && forall i | 0 <= i < |a| :: SameButLinks(b[i], a[i])
    ensures Marked(b, xs, kind)
  {}

  // ---------------------------------------------------------------- a whole polygon

  predicate Proper(t: Triangle, n: int) {
    && 0 <= t.a < n && 0 <= t.b < n && 0 <= t.c < n
    && t.a != t.b && t.b != t.c && t.c != t.a
  }

  /** Which way round the ring is after some of the steps have turned it. */
  function Sign(flips: seq<bool>): (r: real)
    ensures r == 1.0 || r == -1.0
  {
    if flips == [] then 1.0
    else if flips[|flips| - 1] then -Sign(flips[..|flips| - 1]) else Sign(flips[..|flips| - 1])
  }

  /** Twice the signed areas of the triangles, each counted the way the ring was when it was cut. */
  function SignedSum(points: seq<Point>, ts: seq<Triangle>, flips: seq<bool>): real
    requires |flips| == |ts| && forall k | 0 <= k < |ts| :: Proper(ts[k], |points|)
  {
    if ts == [] then 0.0
    else SignedSum(points, ts[..|ts| - 1], flips[..|ts| - 1]) + Weighted(points, ts[|ts| - 1], Sign(flips))
  }

  function Weighted(points: seq<Point>, t: Triangle, sign: real): real
    requires Proper(t, |points|)
  {
    sign * TriArea(points[t.a], points[t.b], points[t.c])
  }

  function Scaled(sign: real, area: real): real { sign * area }

  function AllOf(n: nat): (r: seq<int>)
    ensures Indices(r, n) && |r| == n
  {
    seq(n, i => i)
  }

  /** What has been cut off and what is left make up the polygon; and no corner is cut off twice. */
  ghost predicate Accounted(points: seq<Point>, ts: seq<Triangle>, flips: seq<bool>, ring: seq<int>) {
    && |points| >= 3 && |flips| == |ts| && |ring| == |points| - |ts| && |ring| >= 2
    && Distinct(ring) && Indices(ring, |points|)
    && (forall k | 0 <= k < |ts| :: Proper(ts[k], |points|) && ts[k].b !in ring)
    && (forall i, k | 0 <= i < k < |ts| :: ts[i].b != ts[k].b)
    && RingArea(points, AllOf(|points|)) == SignedSum(points, ts, flips) + Scaled(Sign(flips), RingArea(points, ring))
  }

  lemma AccountedFor(points: seq<Point>, ts: seq<Triangle>, flips: seq<bool>, ring: seq<int>)
    requires Accounted(points, ts, flips, ring)
    ensures |ts| + |ring| == |points| && forall k | 0 <= k < |ts| :: Proper(ts[k], |points|)
  {}

  lemma CutAccounted(p: Polygon, ts: seq<Triangle>, flips: seq<bool>, ring: seq<int>, flipped: bool, forced: bool,
      j: nat, t: Triangle, ring': seq<int>)
    requires Accounted(p.points, ts, flips, ring) && |ring| >= 3 && CutOff(p, ring, flipped, forced, t, j, ring')
    ensures Accounted(p.points, ts + [t], flips + [flipped], ring')
  {
    hide Polygon.Ears, Polygon.Turns, RingArea, TriArea, SignedSum, Sign, Reversed, Pred, Succ, Scaled, Weighted;
    var points, r := p.points, if flipped then Reversed(ring) else ring;
    TurnedRing(ring, |points|, flipped);
    CornerProper(r, |points|, j);
    CutAreas(points, ts, flips, ring, flipped, j, t);
  }

  lemma CutAreas(points: seq<Point>, ts: seq<Triangle>, flips: seq<bool>, ring: seq<int>, flipped: bool, j: nat,
      t: Triangle)
    requires |flips| == |ts| && (forall k | 0 <= k < |ts| :: Proper(ts[k], |points|)) && Proper(t, |points|)
    requires Indices(ring, |points|) && |ring| >= 3 && j < |ring|
    requires var r := if flipped then Reversed(ring) else ring; t == Triangle(Pred(r, j), r[j], Succ(r, j))
    ensures var r, flips' := if flipped then Reversed(ring) else ring, flips + [flipped];
      && Indices(Without(r, j), |points|)
      && SignedSum(points, ts, flips) + Scaled(Sign(flips), RingArea(points, ring))
           == SignedSum(points, ts + [t], flips') + Scaled(Sign(flips'), RingArea(points, Without(r, j)))
  {
    hide RingArea, TriArea, SignedSum, Sign, Reversed, Pred, Succ, Without, Weighted, Scaled;
    CutCorner(points, ring, Sign(flips), flipped, j, t);
    SumSnoc(points, ts, flips, t, flipped);
    SignSnoc(flips, flipped);
  }

  lemma CutCorner(points: seq<Point>, ring: seq<int>, sign: real, flipped: bool, j: nat, t: Triangle)
    requires Indices(ring, |points|) && |ring| >= 3 && j < |ring| && (sign == 1.0 || sign == -1.0)
    requires var r := if flipped then Reversed(ring) else ring; t == Triangle(Pred(r, j), r[j], Succ(r, j))
    requires Proper(t, |points|)
    ensures var r := if flipped then Reversed(ring) else ring; var s := if flipped then -sign else sign;
      && Indices(Without(r, j), |points|)
      && Scaled(sign, RingArea(points, ring)) == Weighted(points, t, s) + Scaled(s, RingArea(points, Without(r, j)))
  {
    hide RingArea, TriArea, Reversed, Pred, Succ, Without;
    CutArea(points, ring, sign, flipped, j);
  }

  lemma SignSnoc(flips: seq<bool>, flipped: bool)
    ensures Sign(flips + [flipped]) == if flipped then -Sign(flips) else Sign(flips)
  {
    assert (flips + [flipped])[..|flips|] == flips;
  }

  lemma CutArea(points: seq<Point>, ring: seq<int>, sign: real, flipped: bool, j: nat)
    requires Indices(ring, |points|) && |ring| >= 3 && j < |ring| && (sign == 1.0 || sign == -1.0)
    ensures var r := if flipped then Reversed(ring) else ring; var s := if flipped then -sign else sign;
      && Indices(r, |points|) && Indices(Without(r, j), |points|)
      && sign * RingArea(points, ring) ==
           s * TriArea(points[Pred(r, j)], points[r[j]], points[Succ(r, j)]) + s * RingArea(points, Without(r, j))
  {
    hide RingArea, TriArea;
    if flipped { AreaReversed(points, ring); }
    CornerArea(points, if flipped then Reversed(ring) else ring, j);
  }

  lemma SumSnoc(points: seq<Point>, ts: seq<Triangle>, flips: seq<bool>, t: Triangle, flipped: bool)
    requires |flips| == |ts| && (forall k | 0 <= k < |ts| :: Proper(ts[k], |points|)) && Proper(t, |points|)
    ensures SignedSum(points, ts + [t], flips + [flipped]) ==
      SignedSum(points, ts, flips) + Weighted(points, t, Sign(flips + [flipped]))
  {
    hide Sign, Weighted, Proper;
    assert (ts + [t])[..|ts|] == ts && (flips + [flipped])[..|ts|] == flips;
  }

  lemma TurnedRing(ring: seq<int>, n: int, flipped: bool)
    requires Distinct(ring) && Indices(ring, n)
    ensures var r := if flipped then Reversed(ring) else ring;
      Distinct(r) && Indices(r, n) && Within(r, ring)
  {
    var r, m := Reversed(ring), |ring|;
    forall i, k | 0 <= i < k < m ensures r[i] != r[k] { DistinctAt(ring, m - 1 - i, m - 1 - k); }
  }

  lemma CornerProper(r: seq<int>, n: int, j: nat)
    requires Distinct(r) && Indices(r, n) && j < |r| && |r| >= 3
    ensures Proper(Triangle(Pred(r, j), r[j], Succ(r, j)), n)
    ensures Distinct(Without(r, j)) && Indices(Without(r, j), n) && r[j] !in Without(r, j) && Within(Without(r, j), r)
  {
    StillDistinct(r, j);
    var jp, jn := if j > 0 then j - 1 else |r| - 1, if j + 1 < |r| then j + 1 else 0;
    DistinctAt(r, jp, j);
    DistinctAt(r, jn, j);
    DistinctAt(r, jp, jn);
    forall k | 0 <= k < |r| && k != j ensures r[k] != r[j] { DistinctAt(r, k, j); }
  }

  ghost predicate CutFrom(p: Polygon, ring: seq<int>, flipped: bool, forced: bool, t: Triangle, ring': seq<int>) {
    exists j :: CutOff(p, ring, flipped, forced, t, j, ring')
  }

  /** The rings a polygon is cut down through: from all its points, one triangle comes off at a time. */
  ghost predicate Clipped(p: Polygon, ts: seq<Triangle>, flips: seq<bool>, forced: seq<bool>, rings: seq<seq<int>>) {
    && |rings| == |ts| + 1 && |flips| == |forced| == |ts| && rings[0] == AllOf(|p.points|)
    && forall k | 0 <= k < |ts| :: CutFrom(p, rings[k], flips[k], forced[k], ts[k], rings[k + 1])
  }

  lemma OneMoreClipped(p: Polygon, ts: seq<Triangle>, flips: seq<bool>, forced: seq<bool>, rings: seq<seq<int>>,
      flipped: bool, force: bool, t: Triangle, j: nat, ring: seq<int>)
    requires Clipped(p, ts, flips, forced, rings) && CutOff(p, rings[|ts|], flipped, force, t, j, ring)
    ensures Clipped(p, ts + [t], flips + [flipped], forced + [force], rings + [ring])
  {
    hide CutOff;
    var ts', flips', forced', rings' := ts + [t], flips + [flipped], forced + [force], rings + [ring];
    assert CutFrom(p, rings[|ts|], flipped, force, t, ring);
    forall k | 0 <= k < |ts'| ensures CutFrom(p, rings'[k], flips'[k], forced'[k], ts'[k], rings'[k + 1]) {
      if k < |ts| { assert CutFrom(p, rings[k], flips[k], forced[k], ts[k], rings[k + 1]); }
    }
  }

  /** All triangles but the forced ones turn the right way. */
  lemma ClippedTurn(p: Polygon, ts: seq<Triangle>, flips: seq<bool>, forced: seq<bool>, rings: seq<seq<int>>)
    requires Clipped(p, ts, flips, forced, rings) && forall k | 0 <= k < |ts| :: Proper(ts[k], |p.points|)
    ensures forall k | 0 <= k < |ts| && !forced[k] ::
      Proper(ts[k], |p.points|) && p.clockwise(p.points[ts[k].a], p.points[ts[k].b], p.points[ts[k].c])
  {
    forall k | 0 <= k < |ts| && !forced[k]
      ensures Proper(ts[k], |p.points|) && p.clockwise(p.points[ts[k].a], p.points[ts[k].b], p.points[ts[k].c])
    {
      assert CutFrom(p, rings[k], flips[k], forced[k], ts[k], rings[k + 1]);
    }
  }

  /** Whatever the geometric tests answer: a polygon of n points gives n - 2 triangles with three
      different corners each, cut off n - 2 different corners, and their signed areas add up to
      that of the polygon.  All turn the right way, but those forced when even the ring turned round
      has no ear. */
  method Triangulate(points: seq<Point>, clockwise: (Point, Point, Point) -> bool,
      contains: (Point, Point, Point, Point) -> bool)
    returns (ts: seq<Triangle>, ghost flips: seq<bool>, ghost forced: seq<bool>, ghost rings: seq<seq<int>>)
    requires |points| >= 3
    ensures |ts| == |points| - 2 == |flips|
    ensures forall k | 0 <= k < |ts| :: Proper(ts[k], |points|)
    ensures forall i, k | 0 <= i < k < |ts| :: ts[i].b != ts[k].b
    ensures SignedSum(points, ts, flips) == RingArea(points, AllOf(|points|))
    ensures Clipped(Polygon(points, clockwise, contains), ts, flips, forced, rings)
    ensures forall k | 0 <= k < |ts| && !forced[k] :: clockwise(points[ts[k].a], points[ts[k].b], points[ts[k].c])
  {
    hide Accounted, Proper, Triangulator.Valid, Reversed, Without, Clipped, CutOff, Polygon.Ears;
    var triangulator := new Triangulator(points, clockwise, contains);
    ghost var p := Polygon(points, clockwise, contains);
    ts, flips, forced, rings := [], [], [], [triangulator.ring];
    NothingCut(p, triangulator.ring);
    while triangulator.trianglesLeft > 0
      invariant triangulator.Valid() && fresh(triangulator) && fresh(triangulator.nodes)
      invariant triangulator.points == points && triangulator.Poly() == p
      invariant Accounted(points, ts, flips, triangulator.ring)
      invariant |rings| == |ts| + 1 && rings[|ts|] == triangulator.ring && Clipped(p, ts, flips, forced, rings)
      decreases triangulator.trianglesLeft
    {
      ghost var ring := triangulator.ring;
      triangulator.RingSize();
      AccountedFor(points, ts, flips, ring);
      var t, flipped, force, j := triangulator.GetNextTriangle();
      CutAccounted(p, ts, flips, ring, flipped, force, j, t, triangulator.ring);
      OneMoreClipped(p, ts, flips, forced, rings, flipped, force, t, j, triangulator.ring);
      ts := ts + [t];
      flips, forced, rings := flips + [flipped], forced + [force], rings + [triangulator.ring];
    }
    triangulator.RingSize();
    AllCut(points, ts, flips, triangulator.ring);
    ClippedTurn(p, ts, flips, forced, rings);
  }

  /** A triangulation as clipping gives it. */
  ghost predicate Triangulation(p: Polygon, ts: seq<Triangle>) {
    && |p.points| >= 3 && |ts| == |p.points| - 2
    && (forall k | 0 <= k < |ts| :: Proper(ts[k], |p.points|))
    && (forall i, k | 0 <= i < k < |ts| :: ts[i].b != ts[k].b)
    && exists flips, forced, rings ::
      && Clipped(p, ts, flips, forced, rings)
      && SignedSum(p.points, ts, flips) == RingArea(p.points, AllOf(|p.points|))
  }

  lemma ClippedAll(p: Polygon, ts: seq<Triangle>, flips: seq<bool>, forced: seq<bool>, rings: seq<seq<int>>,
      ring: seq<int>)
    requires Clipped(p, ts, flips, forced, rings) && Accounted(p.points, ts, flips, ring) && |ring| == 2
    ensures Triangulation(p, ts)
  {
    hide RingArea, SignedSum;
    AllCut(p.points, ts, flips, ring);
  }

  lemma AllCut(points: seq<Point>, ts: seq<Triangle>, flips: seq<bool>, ring: seq<int>)
    requires Accounted(points, ts, flips, ring) && |ring| == 2
    ensures |ts| == |points| - 2 == |flips|
    ensures forall k | 0 <= k < |ts| :: Proper(ts[k], |points|)
    ensures forall i, k | 0 <= i < k < |ts| :: ts[i].b != ts[k].b
    ensures SignedSum(points, ts, flips) == RingArea(points, AllOf(|points|))
  {
    hide RingArea, SignedSum;
    TwoCornersNoArea(points, ring);
  }

  lemma NothingCut(p: Polygon, ring: seq<int>)
    requires |p.points| >= 3 && ring == seq(|p.points|, i => i)
    ensures Accounted(p.points, [], [], ring) && Clipped(p, [], [], [], [ring])
  {}
}
