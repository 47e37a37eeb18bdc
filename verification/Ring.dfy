/** A ring of nodes in an array, linked both ways by index, on values: taking a node out, turning the
    ring round, and the area of the polygon it stands for. */
module Ring {

  datatype Point = Point(x: real, y: real)

  datatype Kind = Convex | Ear | Reflex

  datatype Node = Node(kind: Kind, index: int, pos: Point, next: int, prev: int)

  function Succ(ring: seq<int>, k: nat): int
    requires k < |ring|
  {
    if k + 1 < |ring| then ring[k + 1] else ring[0]
  }

  function Pred(ring: seq<int>, k: nat): int
    requires k < |ring|
  {
    if k > 0 then ring[k - 1] else ring[|ring| - 1]
  }

  predicate Distinct(xs: seq<int>) {
    forall i, j | 0 <= i < j < |xs| :: xs[i] != xs[j]
  }

  /** The nodes in `ring` are linked in that order, round and round, in both directions. */
  predicate Linked(nodes: seq<Node>, ring: seq<int>) {
    && ring != [] && Distinct(ring)
    && forall k | 0 <= k < |ring| ::
      && 0 <= ring[k] < |nodes|
      && nodes[ring[k]].next == Succ(ring, k) && nodes[ring[k]].prev == Pred(ring, k)
  }

  function Without(ring: seq<int>, j: nat): seq<int>
    requires j < |ring|
  {
    ring[..j] + ring[j + 1..]
  }

  function Reversed(ring: seq<int>): (r: seq<int>)
    ensures |r| == |ring|
  {
    seq(|ring|, k requires 0 <= k < |ring| => ring[|ring| - 1 - k])
  }

  function Unlinked(nodes: seq<Node>, e: int): seq<Node>
    requires 0 <= e < |nodes| && 0 <= nodes[e].next < |nodes| && 0 <= nodes[e].prev < |nodes|
  {
    var n, p := nodes[e].next, nodes[e].prev;
    var once := nodes[n := nodes[n].(prev := p)];
    once[p := once[p].(next := n)]
  }

  lemma DistinctAt(xs: seq<int>, i: nat, k: nat)
    requires Distinct(xs) && i < |xs| && k < |xs|
    ensures xs[i] == xs[k] <==> i == k
  {}

  lemma LinkedAt(nodes: seq<Node>, ring: seq<int>, k: nat)
    requires Linked(nodes, ring) && k < |ring|
    ensures 0 <= ring[k] < |nodes| && nodes[ring[k]].next == Succ(ring, k) && nodes[ring[k]].prev == Pred(ring, k)
    ensures 0 <= Succ(ring, k) < |nodes| && 0 <= Pred(ring, k) < |nodes|
  {}

  /** Unlinking a node leaves a ring of the others, in their old order. */
  lemma UnlinkedLinks(nodes: seq<Node>, ring: seq<int>, j: nat)
    requires Linked(nodes, ring) && j < |ring| && |ring| >= 3
    ensures 0 <= ring[j] < |nodes| && 0 <= nodes[ring[j]].next < |nodes| && 0 <= nodes[ring[j]].prev < |nodes|
    ensures Linked(Unlinked(nodes, ring[j]), Without(ring, j))
  {
    LinkedAt(nodes, ring, j);
    var r, s := Without(ring, j), Unlinked(nodes, ring[j]);
    assert Distinct(r) by { StillDistinct(ring, j); }
    forall k | 0 <= k < |r|
      ensures 0 <= r[k] < |s| && s[r[k]].next == Succ(r, k) && s[r[k]].prev == Pred(r, k)
    {
      UnlinkedNext(nodes, ring, j, if k < j then k else k + 1);
      UnlinkedPrev(nodes, ring, j, if k < j then k else k + 1);
    }
  }

  lemma StillDistinct(ring: seq<int>, j: nat)
    requires Distinct(ring) && j < |ring|
    ensures Distinct(Without(ring, j))
  {
    var r := Without(ring, j);
    forall i, k | 0 <= i < k < |r| ensures r[i] != r[k] {
      DistinctAt(ring, if i < j then i else i + 1, if k < j then k else k + 1);
    }
  }

  lemma UnlinkedNext(nodes: seq<Node>, ring: seq<int>, j: nat, a: nat)
    requires Linked(nodes, ring) && j < |ring| && |ring| >= 3 && a < |ring| && a != j
    requires 0 <= ring[j] < |nodes| && 0 <= nodes[ring[j]].next < |nodes| && 0 <= nodes[ring[j]].prev < |nodes|
    ensures var s, r, k := Unlinked(nodes, ring[j]), Without(ring, j), if a < j then a else a - 1;
      r[k] == ring[a] && 0 <= ring[a] < |nodes| && s[ring[a]].next == Succ(r, k)
  {
    hide Linked, Distinct;
    LinkedAt(nodes, ring, j);
    LinkedAt(nodes, ring, a);
    DistinctOf(nodes, ring);
    DistinctAt(ring, a, if j > 0 then j - 1 else |ring| - 1);
  }

  lemma UnlinkedPrev(nodes: seq<Node>, ring: seq<int>, j: nat, a: nat)
    requires Linked(nodes, ring) && j < |ring| && |ring| >= 3 && a < |ring| && a != j
    requires 0 <= ring[j] < |nodes| && 0 <= nodes[ring[j]].next < |nodes| && 0 <= nodes[ring[j]].prev < |nodes|
    ensures var s, r, k := Unlinked(nodes, ring[j]), Without(ring, j), if a < j then a else a - 1;
      r[k] == ring[a] && 0 <= ring[a] < |nodes| && s[ring[a]].prev == Pred(r, k)
  {
    hide Linked, Distinct;
    LinkedAt(nodes, ring, j);
    LinkedAt(nodes, ring, a);
    DistinctOf(nodes, ring);
    DistinctAt(ring, a, if j + 1 < |ring| then j + 1 else 0);
    DistinctAt(ring, if j > 0 then j - 1 else |ring| - 1, if j + 1 < |ring| then j + 1 else 0);
  }

  lemma DistinctOf(nodes: seq<Node>, ring: seq<int>)
    requires Linked(nodes, ring)
    ensures Distinct(ring)
  {}

  // ---------------------------------------------------------------- area

  function Cross(a: Point, b: Point): real { a.x * b.y - a.y * b.x }

  /** Twice the signed area of a triangle. */
  function TriArea(a: Point, b: Point, c: Point): real {
    (b.x - a.x) * (c.y - a.y) - (b.y - a.y) * (c.x - a.x)
  }

  lemma TriAreaIs(a: Point, b: Point, c: Point)
    ensures TriArea(a, b, c) == Cross(a, b) + Cross(b, c) - Cross(a, c)
  {}

  predicate Indices(ring: seq<int>, n: int) {
    forall k | 0 <= k < |ring| :: 0 <= ring[k] < n
  }

  /** The shoelace sum along an open path ... */
  function PathArea(pos: seq<Point>, path: seq<int>): real
    requires Indices(path, |pos|)
  {
    if |path| < 2 then 0.0
    else PathArea(pos, path[..|path| - 1]) + Cross(pos[path[|path| - 2]], pos[path[|path| - 1]])
  }

  /** ... and round a ring: twice the signed area of the polygon. */
  function RingArea(pos: seq<Point>, ring: seq<int>): real
    requires Indices(ring, |pos|) && ring != []
  {
    PathArea(pos, ring) + Cross(pos[ring[|ring| - 1]], pos[ring[0]])
  }

  lemma {:induction false} PathConcat(pos: seq<Point>, a: seq<int>, b: seq<int>)
    requires Indices(a, |pos|) && Indices(b, |pos|) && a != [] && b != []
    ensures Indices(a + b, |pos|)
    ensures PathArea(pos, a + b) == PathArea(pos, a) + Cross(pos[a[|a| - 1]], pos[b[0]]) + PathArea(pos, b)
    decreases |b|
  {
    var front := b[..|b| - 1];
    assert (a + b)[..|a + b| - 1] == a + front;
    if |b| == 1 {
      assert a + front == a;
    } else {
      PathConcat(pos, a, front);
    }
  }

  /** Cutting off a corner takes away exactly the triangle of the corner and its neighbours. */
  lemma CornerArea(pos: seq<Point>, ring: seq<int>, j: nat)
    requires Indices(ring, |pos|) && j < |ring| && |ring| >= 3
    ensures Indices(Without(ring, j), |pos|)
    ensures RingArea(pos, ring) ==
      RingArea(pos, Without(ring, j)) + TriArea(pos[Pred(ring, j)], pos[ring[j]], pos[Succ(ring, j)])
  {
    hide PathArea, TriArea, Cross, RingArea;
    TriAreaIs(pos[Pred(ring, j)], pos[ring[j]], pos[Succ(ring, j)]);
    if j == 0 {
      assert ring == [ring[0]] + ring[1..] && Without(ring, j) == ring[1..];
      CornerOfFirst(pos, ring[0], ring[1..]);
    } else if j == |ring| - 1 {
      assert ring == ring[..j] + [ring[j]] && Without(ring, j) == ring[..j];
      CornerOfLast(pos, ring[..j], ring[j]);
    } else {
      assert ring == ring[..j] + [ring[j]] + ring[j + 1..];
      CornerBetween(pos, ring[..j], ring[j], ring[j + 1..]);
    }
  }

  lemma CornerOfFirst(pos: seq<Point>, c: int, b: seq<int>)
    requires Indices(b, |pos|) && 0 <= c < |pos| && |b| >= 2
    ensures Indices([c] + b, |pos|)
    ensures var p, q := pos[b[|b| - 1]], pos[b[0]];
      RingArea(pos, [c] + b) == RingArea(pos, b) + Cross(p, pos[c]) + Cross(pos[c], q) - Cross(p, q)
  {
    hide Cross, PathArea;
    PathOne(pos, c);
    PathConcat(pos, [c], b);
  }

  lemma CornerOfLast(pos: seq<Point>, a: seq<int>, c: int)
    requires Indices(a, |pos|) && 0 <= c < |pos| && |a| >= 2
    ensures Indices(a + [c], |pos|)
    ensures var p, q := pos[a[|a| - 1]], pos[a[0]];
      RingArea(pos, a + [c]) == RingArea(pos, a) + Cross(p, pos[c]) + Cross(pos[c], q) - Cross(p, q)
  {
    hide Cross, PathArea;
    PathOne(pos, c);
    PathConcat(pos, a, [c]);
  }

  lemma CornerBetween(pos: seq<Point>, a: seq<int>, c: int, b: seq<int>)
    requires Indices(a, |pos|) && Indices(b, |pos|) && 0 <= c < |pos| && a != [] && b != []
    ensures Indices(a + [c] + b, |pos|) && Indices(a + b, |pos|)
    ensures var p, q := pos[a[|a| - 1]], pos[b[0]];
      RingArea(pos, a + [c] + b) == RingArea(pos, a + b) + Cross(p, pos[c]) + Cross(pos[c], q) - Cross(p, q)
  {
    hide Cross, PathArea;
    PathOne(pos, c);
    PathConcat(pos, a, b);
    PathConcat(pos, a, [c]);
    PathConcat(pos, a + [c], b);
  }

  lemma PathOne(pos: seq<Point>, i: int)
    requires 0 <= i < |pos|
    ensures PathArea(pos, [i]) == 0.0
  {}

  lemma CrossTurns(a: Point, b: Point)
    ensures Cross(a, b) == -Cross(b, a) && Cross(a, a) == 0.0
  {}

  lemma {:induction false} PathReversed(pos: seq<Point>, path: seq<int>)
    requires Indices(path, |pos|)
    ensures Indices(Reversed(path), |pos|)
    ensures PathArea(pos, Reversed(path)) == -PathArea(pos, path)
    decreases |path|
  {
    if |path| >= 2 {
      var front := path[..|path| - 1];
      PathReversed(pos, front);
      PathConcat(pos, [path[|path| - 1]], Reversed(front));
      assert Reversed(path) == [path[|path| - 1]] + Reversed(front);
      CrossTurns(pos[path[|path| - 1]], pos[path[|path| - 2]]);
    }
  }

  /** Turning the ring round negates the area. */
  lemma AreaReversed(pos: seq<Point>, ring: seq<int>)
    requires Indices(ring, |pos|) && ring != []
    ensures Indices(Reversed(ring), |pos|) && RingArea(pos, Reversed(ring)) == -RingArea(pos, ring)
  {
    PathReversed(pos, ring);
    CrossTurns(pos[ring[|ring| - 1]], pos[ring[0]]);
  }

  lemma TwoCornersNoArea(pos: seq<Point>, ring: seq<int>)
    requires Indices(ring, |pos|) && |ring| == 2
    ensures RingArea(pos, ring) == 0.0
  {
    assert PathArea(pos, ring[..1]) == 0.0;
    CrossTurns(pos[ring[1]], pos[ring[0]]);
  }
}
