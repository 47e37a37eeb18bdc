/** The skyline rectangle packer, in place on two linked lists of nodes. */
module RectPack {
  import opened Skyline
  import opened SkylineSearch
  import opened PackRun
  import opened PackOrder

  class Node {
    var x: int
    var y: int
    var next: Node?

    constructor (x: int, y: int, next: Node?)
      ensures this.x == x && this.y == y && this.next == next
    {
      this.x, this.y, this.next := x, y, next;
    }
  }

  /** A pointer to the pointer that leads to a node: the list head or the `next` of a node. */
  datatype Link = NoLink | HeadLink | NextOf(node: Node)

  datatype FindResult = FindResult(x: int, y: int, prevLink: Link)

  /** The nodes `ns` linked from `head` on, with `end` after the last. */
  ghost predicate Segment(head: Node?, ns: seq<Node>, end: Node?)
    reads ns
  {
    && head == (if ns == [] then end else ns[0])
    && forall i {:trigger ns[i].next} | 0 <= i < |ns| :: ns[i].next == if i + 1 < |ns| then ns[i + 1] else end
  }

  /** The whole list. */
  ghost predicate Chain(head: Node?, ns: seq<Node>)
    reads ns
  {
    Segment(head, ns, null)
  }

  predicate Distinct(ns: seq<Node>) {
    forall i, j | 0 <= i < j < |ns| :: ns[i] != ns[j]
  }

  predicate Apart(a: seq<Node>, b: seq<Node>) {
    forall i, j | 0 <= i < |a| && 0 <= j < |b| :: a[i] != b[j]
  }

  ghost function Points(ns: seq<Node>): (s: Sky)
    reads ns
    ensures |s| == |ns|
    ensures forall i | 0 <= i < |s| :: s[i] == Pt(ns[i].x, ns[i].y)
  {
    seq(|ns|, i requires 0 <= i < |ns| reads ns => Pt(ns[i].x, ns[i].y))
  }

  class Context {
    var width: int
    var height: int
    var align: int
    var heuristic: Heuristic
    var numNodes: int
    var activeHead: Node?
    var freeHead: Node?
    ghost var active: seq<Node>
    ghost var free: seq<Node>
    ghost var sky: Sky
    ghost var placed: set<Box>

    /** Both lists are proper, share no node, and together hold all the nodes. */
    ghost predicate Lists()
      reads this, active, free
    {
      && Chain(activeHead, active) && Chain(freeHead, free)
      && Distinct(active) && Distinct(free) && Apart(active, free)
      && numNodes > 0 && |active| + |free| == numNodes + 2
    }

    /** What the search needs: the active list is the skyline. */
    ghost predicate Outlined()
      reads this, active
    {
      && Chain(activeHead, active)
      && width > 0 && 0 <= height < SENTINEL_Y
      && sky == Points(active) && Over(sky, width, height)
    }

    ghost predicate Valid()
      reads this, active, free
    {
      && Lists()
      && align > 0 && width > 0 && 0 <= height < SENTINEL_Y
      && sky == Points(active) && Packing(placed, sky, width, height)
    }

    method SetupHeuristic(h: Heuristic)
      requires Valid()
      modifies this`heuristic
      ensures Valid() && heuristic == h
    {
      heuristic := h;
    }

    method SetupAllowOutOfMem(allow: bool)
      requires Valid()
      modifies this`align
      ensures Valid()
      ensures if allow then align == 1 else QuantisedAlign(align, width, numNodes)
    {
      if allow {
        align := 1;
      } else {
        QuantisedExists(width, numNodes);
        align := (width + numNodes - 1) / numNodes;
      }
    }

    /** Starts on an empty target: all the caller's nodes are free, and two nodes of the context's
        own make up the flat skyline. */
    constructor (width: int, height: int, nodes: seq<Node>)
      requires width > 0 && 0 <= height < SENTINEL_Y
      requires nodes != [] && Distinct(nodes)
      modifies nodes
      ensures Valid() && fresh(active) && free == nodes
      ensures this.width == width && this.height == height && numNodes == |nodes|
      ensures QuantisedAlign(align, width, numNodes) && heuristic == BottomLeftHeuristic
      ensures placed == {} && sky == Flat(width)
    {
      hide Packing, Over, Valid;
      this.width, this.height, this.numNodes := width, height, |nodes|;
      this.heuristic := BottomLeftHeuristic;
      QuantisedExists(width, |nodes|);
      this.align := (width + |nodes| - 1) / |nodes|;
      var extra1 := new Node(width, SENTINEL_Y, null);
      var extra0 := new Node(0, 0, extra1);
      this.activeHead, this.active := extra0, [extra0, extra1];
      this.freeHead, this.free := nodes[0], nodes;
      this.placed, this.sky := {}, Flat(width);
      new;
      LinkNodes(nodes);
      StartsFlat(extra0, extra1);
    }

    lemma StartsFlat(extra0: Node, extra1: Node)
      requires width > 0 && 0 <= height < SENTINEL_Y && align > 0 && numNodes == |free| > 0
      requires activeHead == extra0 && active == [extra0, extra1] && extra0.next == extra1 && extra1.next == null
      requires extra0.x == 0 && extra0.y == 0 && extra1.x == width && extra1.y == SENTINEL_Y
      requires Chain(freeHead, free) && Distinct(free) && extra0 !in free && extra1 !in free && extra0 != extra1
      requires placed == {} && sky == Flat(width)
      ensures Valid()
    {
      hide Packing, Over;
      FlatIsPacking(width, height);
      assert Points(active) == Flat(width);
    }

    static method LinkNodes(nodes: seq<Node>)
      requires nodes != [] && Distinct(nodes)
      modifies nodes
      ensures Chain(nodes[0], nodes)
    {
      var i := 0;
      while i < |nodes| - 1
        invariant 0 <= i <= |nodes| - 1
        invariant forall j | 0 <= j < i :: nodes[j].next == nodes[j + 1]
      {
        nodes[i].next := nodes[i + 1];
        i := i + 1;
      }
      nodes[i].next := null;
    }

    /** The highest point of the skyline over `[x0, x0 + w)`, and the waste below it. */
    method FindMinY(first: Node, x0: int, w: int, ghost i: nat, ghost s: Sky) returns (minY: int, waste: int)
      requires Outlined() && s == Points(active) && i < |active| && first == active[i]
      requires i == Locate(s, x0) && 0 <= x0 && 0 < w && x0 + w <= width
      ensures minY == Top(s, x0, w) && waste == Waste(s, x0, w)
      ensures 0 <= minY <= height
    {
      hide Sorted, Top, Waste, Area, Scan, Locate, Points;
      WasteIs(s, i, x0, w);
      ghost var j := i;
      var node, x1 := first, x0 + w;
      minY, waste := 0, 0;
      var visited := 0;
      while node.x < x1
        invariant i <= j < |active| && node == active[j]
        invariant Scan(s, j, x0, w, minY, visited, waste) == Scan(s, i, x0, w, 0, 0, 0)
        decreases |active| - j
      {
        assert s[j] == Pt(node.x, node.y) && j + 1 < |active| && node.next == active[j + 1];
        assert s[j + 1].x == node.next.x;
        ScanCounts(s, j, x0, w, minY, visited, waste);
        if node.y > minY {
          waste := waste + visited * (node.y - minY);
          minY := node.y;
          if node.x < x0 {
            visited := visited + node.next.x - x0;
          } else {
            visited := visited + node.next.x - node.x;
          }
        } else {
          var under := node.next.x - node.x;
          if under + visited > w {
            under := w - visited;
          }
          waste := waste + under * (minY - node.y);
          visited := visited + under;
        }
        node := node.next;
        j := j + 1;
      }
      assert s[j] == Pt(node.x, node.y);
      ScanStops(s, j, x0, w, minY, visited, waste);
      WindowScan(s, width, height, x0, w);
      TopAtMost(s, width, height, x0, w);
    }

    /** The link `prev` leads to node `j`. */
    ghost predicate LeadsTo(prev: Link, j: nat)
      reads this
    {
      j < |active| && prev == if j == 0 then HeadLink else NextOf(active[j - 1])
    }

    /** `best` leads to the node whose segment holds the picked position. */
    ghost predicate LinksPick(best: Link, b: Pick, s: Sky)
      reads this
    {
      b.found == (best != NoLink) && (b.found ==> s != [] && LeadsTo(best, Locate(s, b.x)))
    }

    /** The first loop of the search: left edges at the points. */
    method ScanLeft(w: int, h: int, ghost s: Sky) returns (b: Pick, best: Link)
      requires Outlined() && 0 < w <= width && s == Points(active)
      ensures b == LeftScan(s, width, height, heuristic, w, h, 0, START)
      ensures LinksPick(best, b, s)
    {
      hide LeftStep, Locate, Points;
      ghost var j: nat := 0;
      b, best := START, NoLink;
      var node, prev := activeHead, HeadLink;
      while node.x + w <= width
        invariant j < |active| && node == active[j] && LeadsTo(prev, j)
        invariant LeftScan(s, width, height, heuristic, w, h, j, b)
          == LeftScan(s, width, height, heuristic, w, h, 0, START)
        invariant LinksPick(best, b, s)
        decreases |active| - j
      {
        AtPoint(s, width, height, w, j);
        b, best := TryLeft(node, prev, w, h, b, best, j, s);
        prev := NextOf(node);
        node := node.next;
        j := j + 1;
      }
    }

    /** One candidate of the first loop. */
    method TryLeft(node: Node, prev: Link, w: int, h: int, b0: Pick, best0: Link, ghost j: nat, ghost s: Sky)
      returns (b: Pick, best: Link)
      requires Outlined() && j < |active| && node == active[j] && LeadsTo(prev, j)
      requires s == Points(active) && j == Locate(s, node.x) && 0 <= node.x && 0 < w && node.x + w <= width
      requires LinksPick(best0, b0, s)
      ensures b == LeftStep(s, height, heuristic, w, h, j, b0)
      ensures LinksPick(best, b, s)
    {
      b, best := b0, best0;
      var y, waste := FindMinY(node, node.x, w, j, s);
      if heuristic == BottomLeftHeuristic {
        if y < b.y {
          b, best := Pick(true, node.x, y, b.waste), prev;
        }
      } else {
        if y + h <= height {
          if y < b.y || (y == b.y && waste < b.waste) {
            b, best := Pick(true, node.x, y, waste), prev;
          }
        }
      }
    }

    /** The second loop of the search, for best fit: right edges at the points. */
    method ScanRight(w: int, h: int, b0: Pick, best0: Link, ghost s: Sky) returns (b: Pick, best: Link)
      requires Outlined() && 0 < w <= width && s == Points(active)
      requires LinksPick(best0, b0, s)
      ensures b == RightScan(s, height, w, h, 0, b0)
      ensures LinksPick(best, b, s)
    {
      hide Sorted, Points;
      ghost var j: nat := 0;
      ghost var H := height;
      ghost var goal := RightScan(s, H, w, h, 0, b0);
      b, best := b0, best0;
      var tail, t := FirstAdmissible(w, h, b0, s, goal);
      var node, prev := activeHead, HeadLink;
      while tail != null
        invariant j < |active| && node == active[j] && LeadsTo(prev, j)
        invariant t <= |active| && tail == (if t < |active| then active[t] else null)
        invariant 0 <= node.x && (tail != null ==> node.x + w <= tail.x)
        invariant Outlined() && Points(active) == s && RightScan(s, H, w, h, t, b) == goal
        invariant LinksPick(best, b, s)
        decreases |active| - t
      {
        b, best, node, prev, j := TryRight(tail, w, h, b, best, node, prev, t, j, s, H, goal);
        tail := tail.next;
        t := t + 1;
      }
    }

    /** One candidate of the second loop: finds the node under its left edge and scans from there. */
    method TryRight(tail: Node, w: int, h: int, b0: Pick, best0: Link, node0: Node, prev0: Link, ghost t: nat,
        ghost j0: nat, ghost s: Sky, ghost H: int, ghost goal: Pick)
      returns (b: Pick, best: Link, node: Node, prev: Link, ghost j: nat)
      requires Outlined() && 0 < w <= width && t < |active| && tail == active[t]
      requires j0 < |active| && node0 == active[j0] && LeadsTo(prev0, j0) && 0 <= node0.x && node0.x + w <= tail.x
      requires LinksPick(best0, b0, s) && s == Points(active) && H == height && RightScan(s, H, w, h, t, b0) == goal
      ensures Outlined() && Points(active) == s && RightScan(s, H, w, h, t + 1, b) == goal
      ensures LinksPick(best, b, s)
      ensures j < |active| && node == active[j] && LeadsTo(prev, j)
      ensures 0 <= node.x && (t + 1 < |active| ==> node.x + w <= active[t + 1].x)
    {
      hide RightScan, RightStep, Top, Waste, Locate;
      var xpos := tail.x - w;
      AtRightEdge(s, width, height, w, t);
      RightScanUnfolds(s, height, w, h, t, b0);
      node, prev, j := AdvanceTo(node0, prev0, xpos, j0, s);
      b, best := TryAt(node, prev, xpos, w, h, b0, best0, j, t, s);
    }

    method TryAt(node: Node, prev: Link, xpos: int, w: int, h: int, b0: Pick, best0: Link, ghost j: nat, ghost t: nat,
        ghost s: Sky)
      returns (b: Pick, best: Link)
      requires Outlined() && j < |active| && node == active[j] && LeadsTo(prev, j) && s == Points(active)
      requires j == Locate(s, xpos)
      requires t < |s| && xpos == s[t].x - w && 0 <= xpos && 0 < w && xpos + w <= width
      requires LinksPick(best0, b0, s)
      ensures b == RightStep(s, height, w, h, t, b0)
      ensures LinksPick(best, b, s)
    {
      hide Sorted, Points, Chain, Top, Waste;
      b, best := b0, best0;
      var y, waste := FindMinY(node, xpos, w, j, s);
      if y + h <= height {
        if y <= b.y {
          if y < b.y || waste < b.waste || (waste == b.waste && xpos < b.x) {
            b, best := Pick(true, xpos, y, waste), prev;
          }
        }
      }
    }

    /** The first node with room for the width to its left. */
    method FirstAdmissible(w: int, ghost h: int, ghost b: Pick, ghost s: Sky, ghost goal: Pick)
      returns (tail: Node, ghost t: nat)
      requires Outlined() && 0 < w <= width && s == Points(active) && RightScan(s, height, w, h, 0, b) == goal
      ensures t < |active| && tail == active[t] && tail.x >= w
      ensures RightScan(s, height, w, h, t, b) == goal
    {
      hide Sorted, Points, RightStep;
      tail, t := activeHead, 0;
      while tail.x < w
        invariant t < |active| && tail == active[t]
        invariant RightScan(s, height, w, h, t, b) == goal
        decreases |active| - t
      {
        assert s[t].x == tail.x;
        tail := tail.next;
        t := t + 1;
      }
    }

    /** Moves right from `node0` to the node whose segment holds `xpos`. */
    method AdvanceTo(node0: Node, prev0: Link, xpos: int, ghost j0: nat, ghost s: Sky)
      returns (node: Node, prev: Link, ghost j: nat)
      requires Outlined() && s == Points(active) && j0 < |active| && node0 == active[j0] && LeadsTo(prev0, j0)
      requires node0.x <= xpos < width
      ensures j < |active| && node == active[j] && LeadsTo(prev, j) && j == Locate(s, xpos)
      ensures node.x <= xpos
    {
      hide Sorted, Points, Locate;
      node, prev, j := node0, prev0, j0;
      assert s[j].x == node.x;
      while node.next.x <= xpos
        invariant j + 1 < |active| && node == active[j] && LeadsTo(prev, j) && s[j].x == node.x <= xpos
        decreases |active| - j
      {
        prev := NextOf(node);
        node := node.next;
        j := j + 1;
        assert s[j].x == node.x;
      }
      assert s[j + 1].x == node.next.x;
      LocateIs(s, xpos, j);
    }

    method FindBestPos(w0: int, h: int, ghost s: Sky) returns (r: FindResult)
      requires Outlined() && align > 0 && 0 < w0 && 0 < h && s == Points(active)
      ensures Found(s, width, height, heuristic, Aligned(w0, align), h, r.prevLink != NoLink, r.x, r.y)
      ensures r.prevLink != NoLink ==> s != [] && LeadsTo(r.prevLink, Locate(s, r.x))
    {
      hide Found, Sorted, Points, LinksPick;
      var w := w0 + align - 1;
      w := w - w % align;
      AlignedCovers(w0, align);
      if w > width || h > height {
        NothingFound(s, width, height, heuristic, w, h);
        return FindResult(0, 0, NoLink);
      }
      var b, best := ScanBoth(w, h, s);
      SearchFinds(s, width, height, heuristic, w, h);
      r := FindResult(b.x, b.y, best);
    }

    method ScanBoth(w: int, h: int, ghost s: Sky) returns (b: Pick, best: Link)
      requires Outlined() && 0 < w <= width && s == Points(active)
      ensures b == Search(s, width, height, heuristic, w, h)
      ensures LinksPick(best, b, s)
    {
      b, best := ScanLeft(w, h, s);
      if heuristic == BestFitHeuristic {
        b, best := ScanRight(w, h, b, best, s);
      }
    }

    /** The active list while it is being spliced: the nodes `A[..k]` still hang on the head and end
        in the new node, the nodes from `A[j]` on are linked from `cur`, the rest have been freed. */
    ghost predicate Opened(A: seq<Node>, F: seq<Node>, s: Sky, k: nat, j: nat, node: Node, p: Pt, cur: Node)
      reads this, A, free, node
    {
      && k <= j < |A| && Distinct(A) && node !in A && node !in free && Points(A) == s
      && Pt(node.x, node.y) == p
      && Segment(activeHead, A[..k], node) && LinkedFrom(cur, A, j)
      && Chain(freeHead, free) && Distinct(free) && ApartFrom(A, j, free)
      && (forall i | 0 <= i < k :: A[i] !in free)
      && |free| == |F| + j - k && forall n | n in free :: n in A || n in F
    }

    lemma OpenedAt(A: seq<Node>, F: seq<Node>, s: Sky, k: nat, j: nat, node: Node, p: Pt, cur: Node)
      requires Opened(A, F, s, k, j, node, p, cur)
      ensures j < |A| == |s| && cur == A[j]
      ensures cur.next == null <==> j + 1 == |s|
      ensures cur.next != null ==> cur.next.x == s[j + 1].x
    {
      NextPoint(cur, A, s, j);
    }

    /** Takes the first free node for a new point. */
    method TakeFree(x: int, y: int, ghost s: Sky) returns (node: Node)
      requires Lists() && free != [] && s == Points(active)
      modifies this`freeHead, this`free, free[0]
      ensures node == old(free)[0] && node.x == x && node.y == y
      ensures free == old(free)[1..] && Chain(freeHead, free) && node !in free && node !in active
      ensures Chain(activeHead, active) && Points(active) == s
      ensures Distinct(active) && Distinct(free) && Apart(active, free)
    {
      node := freeHead;
      node.x := x;
      node.y := y;
      freeHead := node.next;
      free := free[1..];
    }

    /** The links from the head on end in the new node after `k` nodes, those of the rest are as before. */
    lemma OpensAt(A: seq<Node>, F: seq<Node>, s: Sky, k: nat, node: Node, p: Pt, cur: Node)
      requires k < |A| && Distinct(A) && Points(A) == s && cur == A[k] && activeHead == if k == 0 then node else A[0]
      requires forall i {:trigger A[i].next} | 0 <= i < |A| ::
        A[i].next == if i + 1 == k then node else if i + 1 < |A| then A[i + 1] else null
      requires node !in A && node !in F && Pt(node.x, node.y) == p
      requires F == free && Chain(freeHead, F) && Distinct(F) && Apart(A, F)
      ensures Opened(A, F, s, k, k, node, p, cur)
    {
      hide Points;
    }

    /** Hooks the new node in behind the nodes left of `x`; `cur` is the first node after them. */
    method HookIn(node: Node, link: Link, x: int, ghost k: nat, ghost kk: nat, ghost s: Sky, ghost p: Pt)
      returns (cur: Node)
      requires Chain(activeHead, active) && Distinct(active) && s == Points(active) && node !in active && node !in free
      requires Pt(node.x, node.y) == p && Chain(freeHead, free) && Distinct(free) && Apart(active, free)
      requires LeadsTo(link, k) && kk == (if s[k].x < x then k + 1 else k) && kk < |active|
      modifies this`activeHead, active
      ensures Opened(active, free, s, kk, kk, node, p, cur)
    {
      hide Opened, Sorted;
      assert link.NextOf? ==> link.node.next == active[k - 1].next;
      var first := if link.HeadLink? then activeHead else link.node.next;
      assert first == active[k];
      if first.x < x {
        cur := first.next;
        first.next := node;
      } else {
        cur := first;
        if link.HeadLink? {
          activeHead := node;
        } else {
          link.node.next := node;
        }
      }
      OpensAt(active, free, s, kk, node, p, cur);
    }

    /** The splice with one more node freed, from its links. */
    lemma FreedAt(A: seq<Node>, F: seq<Node>, s: Sky, k: nat, j: nat, node: Node, p: Pt, next: Node, rest: seq<Node>)
      requires k <= j && j + 1 < |A| && Distinct(A) && node !in A && Points(A) == s && Pt(node.x, node.y) == p
      requires Segment(activeHead, A[..k], node) && LinkedFrom(next, A, j + 1)
      requires free == [A[j]] + rest && freeHead == A[j] && Chain(A[j].next, rest) && Distinct(rest)
      requires ApartFrom(A, j, rest) && (forall i | 0 <= i < k :: A[i] !in rest) && node !in rest
      requires |rest| == |F| + j - k && forall n | n in rest :: n in A || n in F
      ensures Opened(A, F, s, k, j + 1, node, p, next)
    {
      hide Points;
    }

    /** Moves the current node to the front of the free list and steps to the next. */
    method FreeOne(cur: Node, ghost A: seq<Node>, ghost F: seq<Node>, ghost s: Sky, ghost k: nat, ghost j: nat,
        ghost node: Node, ghost p: Pt)
      returns (next: Node)
      requires Opened(A, F, s, k, j, node, p, cur) && j + 1 < |A|
      modifies this`freeHead, this`free, cur`next
      ensures Opened(A, F, s, k, j + 1, node, p, next)
    {
      ghost var rest := free;
      next := cur.next;
      cur.next := freeHead;
      freeHead := cur;
      free := [cur] + free;
      FreedAt(A, F, s, k, j, node, p, next, rest);
    }

    /** Moves nodes to the free list until the next one lies beyond `end`. */
    method FreeCovered(cur0: Node, end: int, ghost A: seq<Node>, ghost F: seq<Node>, ghost s: Sky, ghost k: nat,
        ghost node: Node, ghost p: Pt)
      returns (cur: Node, ghost j: nat)
      requires Opened(A, F, s, k, k, node, p, cur0)
      modifies this`freeHead, this`free, A`next
      ensures j == Resume(s, k, end) && Opened(A, F, s, k, j, node, p, cur) && cur in A
    {
      hide Opened, Points, Segment, Chain;
      cur, j := cur0, k;
      OpenedAt(A, F, s, k, j, node, p, cur);
      while cur.next != null && cur.next.x <= end
        invariant j < |A| == |s| && cur == A[j]
        invariant Opened(A, F, s, k, j, node, p, cur) && Resume(s, j, end) == Resume(s, k, end)
        invariant cur.next == null <==> j + 1 == |s|
        invariant cur.next != null ==> cur.next.x == s[j + 1].x
        decreases |A| - j
      {
        cur := FreeOne(cur, A, F, s, k, j, node, p);
        j := j + 1;
        OpenedAt(A, F, s, k, j, node, p, cur);
      }
    }

    /** Joins the new node to the first node that stays, which then starts no earlier than `end`. */
    method Stitch(node: Node, cur: Node, end: int, ghost A: seq<Node>, ghost F: seq<Node>, ghost s: Sky, ghost k: nat,
        ghost j: nat, ghost p: Pt)
      requires Opened(A, F, s, k, j, node, p, cur) && numNodes > 0 && |A| + |F| + 1 == numNodes + 2
      modifies this`active, node`next, cur`x
      ensures active == A[..k] + [node] + A[j..] && Lists()
      ensures Points(active) == s[..k] + [p, Pt(Max(s[j].x, end), s[j].y)] + s[j + 1..]
      ensures forall n | n in free :: n in A || n in F
    {
      node.next := cur;
      if cur.x < end {
        cur.x := end;
      }
      active := A[..k] + [node] + A[j..];
      assert Chain(freeHead, free) && Segment(activeHead, A[..k], node) && LinkedFrom(cur, A, j);
      Joined(activeHead, A, k, j, node, cur);
      JoinedPoints(A, k, j, node, s, end);
      StillDistinct(A, k, j, node, free);
    }

    /** Frees the covered nodes and closes the list behind them. */
    method Close(node: Node, cur0: Node, end: int, ghost A: seq<Node>, ghost F: seq<Node>, ghost s: Sky, ghost k: nat,
        ghost p: Pt)
      requires Opened(A, F, s, k, k, node, p, cur0) && numNodes > 0 && |A| + |F| + 1 == numNodes + 2
      modifies this`freeHead, this`free, this`active, A, node
      ensures Lists() && Points(active) == Closed(s, k, p, end)
      ensures forall n | n in active :: n in A || n == node
      ensures forall n | n in free :: n in A || n in F
    {
      hide Opened, Resume, Sorted, Chain, Distinct, Apart;
      var cur;
      ghost var j;
      cur, j := FreeCovered(cur0, end, A, F, s, k, node, p);
      Stitch(node, cur, end, A, F, s, k, j, p);
    }

    /** Puts the point `p` into the active list and moves the nodes covered up to `end` to the free list. */
    method InsertNode(p: Pt, end: int, link: Link, ghost k: nat, ghost kk: nat, ghost s: Sky, ghost s': Sky)
      requires Lists() && free != [] && s == Points(active)
      requires LeadsTo(link, k) && kk == (if s[k].x < p.x then k + 1 else k) && kk < |s| && s' == Closed(s, kk, p, end)
      modifies this`activeHead, this`freeHead, this`active, this`free, this`sky, active, free[0]
      ensures Lists() && Points(active) == s' == sky
      ensures forall n | n in active :: n in old(active) || n in old(free)
      ensures forall n | n in free :: n in old(active) || n in old(free)
    {
      hide Opened, Resume, Sorted, Points, Chain, Closed, Distinct, Apart;
      ghost var A, F := active, free;
      var node := TakeFree(p.x, p.y, s);
      var cur := HookIn(node, link, p.x, k, kk, s, p);
      Close(node, cur, end, A, F[1..], s, kk, p);
      sky := s';
    }

    /** Places one rectangle, or reports NoLink.  It is refused exactly when no node is free or it fits
        nowhere above the skyline over the window of its aligned width. */
    method PackRectangle(w: int, h: int, ghost s: Sky) returns (r: FindResult)
      requires Valid() && 0 < w && 0 < h && s == sky
      modifies this`activeHead, this`freeHead, this`active, this`free, this`sky, this`placed, active, free
      ensures Valid()
      ensures Answer(s, old(|free|), width, height, align, heuristic, w, h, r.prevLink != NoLink, r.x, r.y)
      ensures r.prevLink == NoLink ==> active == old(active) && free == old(free) && placed == old(placed) && sky == s
      ensures r.prevLink != NoLink ==> Grown(s, sky, old(placed), placed, Box(r.x, r.y, w, h))
      ensures forall n | n in active :: n in old(active) || n in old(free)
      ensures forall n | n in free :: n in old(active) || n in old(free)
    {
      hide Valid, Lists, Outlined, Points, Answer, Packing, Grown;
      ghost var P := placed;
      ValidParts();
      r := Decide(w, h, s, P);
      if r.prevLink != NoLink {
        Place(Pt(r.x, r.y + h), r.x + w, r.prevLink, s, Splice(s, r.x, w, r.y + h), P + {Box(r.x, r.y, w, h)});
      }
    }

    /** Finds the position and decides whether to use it. */
    method Decide(w: int, h: int, ghost s: Sky, ghost P: set<Box>) returns (r: FindResult)
      requires Outlined() && align > 0 && (freeHead == null <==> free == []) && s == Points(active)
      requires Packing(P, s, width, height)
      requires 0 < w && 0 < h
      ensures Answer(s, |free|, width, height, align, heuristic, w, h, r.prevLink != NoLink, r.x, r.y)
      ensures r.prevLink != NoLink ==>
        && free != [] && s != [] && LeadsTo(r.prevLink, Locate(s, r.x))
        && Ready(P, s, width, height, Box(r.x, r.y, w, h))
    {
      hide Answer, Found, Ready, Packing, Points, Sorted, Chain, Distinct, Apart;
      AlignedCovers(w, align);
      r := FindBestPos(w, h, s);
      ghost var found := r.prevLink != NoLink;
      if r.prevLink == NoLink || r.y + h > height || freeHead == null {
        r := r.(prevLink := NoLink);
      } else {
        FoundFits(s, width, height, heuristic, Aligned(w, align), Box(r.x, r.y, w, h));
        GetsReady(P, s, width, height, Box(r.x, r.y, w, h), Aligned(w, align));
      }
      Decided(s, |free|, width, height, align, heuristic, w, h, found, r.prevLink != NoLink, r.x, r.y);
    }

    /** The successful end of placing a rectangle. */
    method Place(p: Pt, end: int, link: Link, ghost s: Sky, ghost s': Sky, ghost P': set<Box>)
      requires Lists() && free != [] && s == Points(active) && align > 0 && width > 0 && 0 <= height < SENTINEL_Y
      requires s != [] && LeadsTo(link, Locate(s, p.x)) && Kept(s, p.x) < |s|
      requires s' == Closed(s, Kept(s, p.x), p, end) && Packing(P', s', width, height)
      modifies this`activeHead, this`freeHead, this`active, this`free, this`sky, this`placed, active, free
      ensures Valid() && sky == s' && placed == P'
      ensures forall n | n in active :: n in old(active) || n in old(free)
      ensures forall n | n in free :: n in old(active) || n in old(free)
    {
      hide Points, Packing, Closed, Locate, Sorted;
      InsertNode(p, end, link, Locate(s, p.x), Kept(s, p.x), s, s');
      placed := P';
    }

    // -------------------------------------------------------------- the caller's array

    ghost function Params(): Target
      reads this
    {
      Target(width, height, align, heuristic, numNodes)
    }

    /** Packs the caller's rectangles; the array keeps its order, the ids and the sizes.  The result
        says whether all were packed. */
    method PackRects(rects: array<Rect>)
      returns (all: bool, ghost order: seq<nat>, ghost place: seq<nat>, ghost skies: seq<Sky>)
      requires Valid() && forall i | 0 <= i < rects.Length :: rects[i].w >= 0 && rects[i].h >= 0
      modifies this`activeHead, this`freeHead, this`active, this`free, this`sky, this`placed, active, free, rects
      ensures Valid()
      ensures Outcome(Params(), old(rects[..]), rects[..], order, place, skies)
      ensures forall i, j | 0 <= i < j < rects.Length ::
        || old(rects[..])[order[i]].h > old(rects[..])[order[j]].h
        || (old(rects[..])[order[i]].h == old(rects[..])[order[j]].h
            && old(rects[..])[order[i]].w >= old(rects[..])[order[j]].w)
      ensures skies[0] == old(sky) && skies[rects.Length] == sky
      ensures placed == old(placed) + Boxes(rects[..])
      ensures all <==> forall i | 0 <= i < rects.Length :: rects[i].wasPacked == 1
      ensures forall n | n in active :: n in old(active) || n in old(free)
      ensures forall n | n in free :: n in old(active) || n in old(free)
    {
      hide Valid, Run, TallestFirst, PositionsAscend, IsPermutation, Arranged, MovedOnly, Marked, Outcome, Boxes,
        Refused;
      ghost var before, t := rects[..], Params();
      Mark(rects);
      order := Sort(rects, ByHeight);
      ghost var sorted := rects[..];
      SortedSizes(before, order);
      skies := PackAll(rects, t);
      ghost var mid := rects[..];
      place := Sort(rects, ByOriginal);
      all := SetFlags(rects);
      OutcomeHolds(t, before, order, mid, place, rects[..], skies);
      TallestPacked(t, before, rects[..], order, place, skies);
    }

    /** Lets every rectangle carry its position in the flag. */
    static method Mark(rects: array<Rect>)
      modifies rects
      ensures rects[..] == Marked(old(rects[..]))
    {
      for i := 0 to rects.Length
        invariant forall j | 0 <= j < rects.Length ::
          rects[j] == if j < i then old(rects[j]).(wasPacked := j) else old(rects[j])
      {
        rects[i] := rects[i].(wasPacked := i);
      }
    }

    /** The flags the caller sees. */
    static method SetFlags(rects: array<Rect>) returns (all: bool)
      modifies rects
      ensures FlagsSet(old(rects[..]), rects[..])
      ensures all <==> forall i | 0 <= i < rects.Length :: rects[i].wasPacked == 1
    {
      all := true;
      for i := 0 to rects.Length
        invariant forall j | 0 <= j < rects.Length ::
          rects[j] == old(rects[j]).(wasPacked :=
            if j >= i then old(rects[j]).wasPacked else if Refused(old(rects[j])) then 0 else 1)
        invariant all <==> forall j | 0 <= j < i :: rects[j].wasPacked == 1
      {
        var packed := !(rects[i].x == MAXVAL && rects[i].y == MAXVAL);
        rects[i] := rects[i].(wasPacked := if packed then 1 else 0);
        if !packed {
          all := false;
        }
      }
    }

    /** The loop over the sorted rectangles. */
    method PackAll(rects: array<Rect>, ghost t: Target) returns (ghost skies: seq<Sky>)
      requires Valid() && t == Params() && forall i | 0 <= i < rects.Length :: rects[i].w >= 0 && rects[i].h >= 0
      modifies this`activeHead, this`freeHead, this`active, this`free, this`sky, this`placed, active, free, rects
      ensures Valid() && MovedOnly(old(rects[..]), rects[..]) && Run(t, skies, rects[..])
      ensures skies[0] == old(sky) && skies[rects.Length] == sky
      ensures placed == old(placed) + Boxes(rects[..])
      ensures forall n | n in active :: n in old(active) || n in old(free)
      ensures forall n | n in free :: n in old(active) || n in old(free)
    {
      hide Valid, Step, Boxes;
      skies := [sky];
      NoBoxes(placed);
      for i := 0 to rects.Length
        invariant Valid() && t == Params()
        invariant forall j | i <= j < rects.Length :: rects[j] == old(rects[j])
        invariant forall j | 0 <= j < i :: rects[j] == old(rects[j]).(x := rects[j].x, y := rects[j].y)
        invariant Run(t, skies, rects[..i]) && skies[0] == old(sky) && skies[i] == sky
        invariant placed == old(placed) + Boxes(rects[..i])
        invariant forall n | n in active :: n in old(active) || n in old(free)
        invariant forall n | n in free :: n in old(active) || n in old(free)
      {
        ghost var done, P := rects[..i], placed;
        assert forall k | 0 <= k < |active| :: active[k] in old(active) || active[k] in old(free);
        assert forall k | 0 <= k < |free| :: free[k] in old(active) || free[k] in old(free);
        var r := PackOne(rects[i], sky, P, t);
        rects[i] := r;
        assert rects[..i + 1] == done + [r];
        OneMore(t, skies, done, r, sky, old(placed), P, placed);
        skies := skies + [sky];
      }
      assert rects[..rects.Length] == rects[..];
    }

    /** One rectangle of the loop: an empty one needs no space, a refused one gets the marker. */
    method PackOne(r0: Rect, ghost s: Sky, ghost P: set<Box>, ghost t: Target) returns (r: Rect)
      requires Valid() && s == sky && P == placed && t == Params() && r0.w >= 0 && r0.h >= 0
      modifies this`activeHead, this`freeHead, this`active, this`free, this`sky, this`placed, active, free
      ensures Valid() && Step(t, s, r, sky)
      ensures r == r0.(x := r.x, y := r.y)
      ensures placed == if Occupies(r) then P + {BoxOf(r)} else P
      ensures forall n | n in active :: n in old(active) || n in old(free)
      ensures forall n | n in free :: n in old(active) || n in old(free)
    {
      hide Valid, Answer;
      if r0.w == 0 || r0.h == 0 {
        return r0.(x := 0, y := 0);
      }
      FreeCount();
      var found := PackRectangle(r0.w, r0.h, s);
      if found.prevLink != NoLink {
        AnswerLow(s, FreeNodes(t, s), t, r0.w, r0.h, found.x, found.y);
        r := r0.(x := found.x, y := found.y);
      } else {
        r := r0.(x := MAXVAL, y := MAXVAL);
        AnswerAnywhere(s, FreeNodes(t, s), t, r0.w, r0.h, found.x, found.y, MAXVAL, MAXVAL);
      }
    }

    lemma ValidParts()
      requires Valid()
      ensures Outlined() && Lists() && (freeHead == null <==> free == [])
      ensures sky == Points(active) && Packing(placed, sky, width, height)
      ensures align > 0 && width > 0 && 0 <= height < SENTINEL_Y
    {}

    lemma FreeCount()
      requires Valid()
      ensures |free| == FreeNodes(Params(), sky) && align > 0 && height < SENTINEL_Y
    {}
  }

  lemma WasteIs(s: Sky, i: nat, x0: int, w: int)
    requires s != [] && i == Locate(s, x0)
    ensures Waste(s, x0, w) == Scan(s, i, x0, w, 0, 0, 0).1
  {}

  lemma StillDistinct(A: seq<Node>, k: nat, j: nat, node: Node, free: seq<Node>)
    requires k <= j < |A| && Distinct(A) && node !in A && node !in free
    requires ApartFrom(A, j, free) && forall i | 0 <= i < k :: A[i] !in free
    ensures var ns := A[..k] + [node] + A[j..]; Distinct(ns) && Apart(ns, free)
  {
    var ns := A[..k] + [node] + A[j..];
    forall i | 0 <= i < |ns| ensures ns[i] == if i < k then A[i] else if i == k then node else A[j + i - k - 1] {}
  }

  /** The two stretches of old nodes with the new node between them form the new active list. */
  lemma Joined(head: Node?, A: seq<Node>, k: nat, j: nat, node: Node, cur: Node)
    requires k <= j && j < |A| && Segment(head, A[..k], node) && LinkedFrom(cur, A, j) && node.next == cur
    ensures Chain(head, A[..k] + [node] + A[j..])
  {
    var ns := A[..k] + [node] + A[j..];
    forall i {:trigger ns[i].next} | 0 <= i < |ns|
      ensures ns[i].next == if i + 1 < |ns| then ns[i + 1] else null
    {
      if i < k {
        assert ns[i] == A[..k][i];
      } else if i > k {
        assert ns[i] == A[j + i - k - 1];
      }
    }
  }

  lemma JoinedPoints(A: seq<Node>, k: nat, j: nat, node: Node, s: Sky, end: int)
    requires k <= j < |A| == |s|
    requires forall i | 0 <= i < |A| && i != j :: A[i].x == s[i].x && A[i].y == s[i].y
    requires A[j].x == Max(s[j].x, end) && A[j].y == s[j].y
    ensures Points(A[..k] + [node] + A[j..]) == s[..k] + [Pt(node.x, node.y), Pt(Max(s[j].x, end), s[j].y)] + s[j + 1..]
  {}

  lemma NextPoint(cur: Node, A: seq<Node>, s: Sky, j: nat)
    requires LinkedFrom(cur, A, j) && Points(A) == s
    ensures cur.next == null <==> j + 1 == |s|
    ensures cur.next != null ==> cur.next.x == s[j + 1].x
  {}

  /** The nodes of `A` from index `j` on are linked, starting at `cur`, to the end. */
  ghost predicate LinkedFrom(cur: Node, A: seq<Node>, j: nat)
    reads A
  {
    && j < |A| && cur == A[j]
    && forall i {:trigger A[i].next} | j <= i < |A| :: A[i].next == if i + 1 < |A| then A[i + 1] else null
  }

  predicate ApartFrom(A: seq<Node>, j: nat, b: seq<Node>) {
    forall i, k | j <= i < |A| && 0 <= k < |b| :: A[i] != b[k]
  }
}
