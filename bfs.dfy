/**
 * The breadth-first strategy: the node vector serves as a queue from which
 * nothing is removed. Each iteration expands the first node not yet
 * explored, every edge weighs 1, and a child whose board an unexplored node
 * already holds overwrites that node's distance instead of being queued.
 *
 * solve_BFS loops while its node vector is non-empty, which it always
 * is; here the loop runs at most `fuel` iterations.
 */
module Bfs {
  import opened Grid
  import opened Nodes

  /** The root as solve_BFS builds it: queued, with the placeholder cost of newNode, which is never recomputed. */
  function RootAsWritten(initial: Board, x: Coord, y: Coord): (n: Node)
    requires initial[Idx(x, y)] == 0
    ensures n.mat == initial && n.parent == None && BlankAt(n) && n.dist == 0
    ensures n.cost == IntMax - 1 && n.visited && !n.explored
  {
    Node(None, false, true, initial, x, y, IntMax - 1, 0, 0)
  }

  /** The root with its misplaced-tile cost computed, as the other two strategies build it. */
  function BfsRoot(initial: Board, x: Coord, y: Coord, goal: Board): (n: Node)
    requires initial[Idx(x, y)] == 0
    ensures n.mat == initial && n.parent == None && BlankAt(n) && n.dist == 0
    ensures n.cost == Cost(initial, goal) && n.visited && !n.explored
  {
    Node(None, false, true, initial, x, y, Cost(initial, goal), 0, 0)
  }

  /** Child c of node p (index m) was made by sliding p's blank; its cost is computed and no tile value is recorded. */
  ghost predicate ChildOf(p: Node, m: nat, c: Node, goal: Board) {
    && c.parent == Some(m)
    && Adjacent(p.x, p.y, c.x, c.y)
    && c.mat == Swap(p.mat, p.x, p.y, c.x, c.y)
    && c.level == 0
    && c.cost == Cost(c.mat, goal)
    && !c.explored
  }

  /** The successor of p in direction d of the tables, one step further than p. */
  function Child(p: Node, m: nat, d: nat, goal: Board): (c: Node)
    requires d < 4 && IsSafe(p.x + Row[d], p.y + Col[d])
    ensures ChildOf(p, m, c, goal) && c.x == p.x + Row[d] && c.y == p.y + Col[d]
    ensures c.dist == p.dist + 1
  {
    DirectionsAreAdjacent(p.x, p.y, d);
    var nx: Coord, ny: Coord := p.x + Row[d], p.y + Col[d];
    var b := Swap(p.mat, p.x, p.y, nx, ny);
    Node(Some(m), false, false, b, nx, ny, Cost(b, goal), 0, p.dist + 1)
  }

  /**
   * Reconcile a child with the queue: the first unexplored node with the
   * same board takes the child's distance, whatever it was; without one the
   * child is queued and marked visited.
   */
  function Enqueue(nodes: seq<Node>, c: Node): (r: seq<Node>)
    ensures |nodes| <= |r| <= |nodes| + 1
  {
    var j := FirstMatch(nodes, c.mat);
    if j < |nodes| then SetDist(nodes, j, c.dist)
    else nodes + [c.(visited := true)]
  }

  /** The overwrite is by the last child, not the least distance; a child without a duplicate is queued as visited. */
  lemma EnqueueFacts(nodes: seq<Node>, c: Node)
    ensures DistOnly(nodes, Enqueue(nodes, c))
    ensures var j := FirstMatch(nodes, c.mat);
      if j < |nodes| then
        |Enqueue(nodes, c)| == |nodes| && Enqueue(nodes, c)[j].dist == c.dist
      else
        Enqueue(nodes, c) == nodes + [c.(visited := true)] && Enqueue(nodes, c)[|nodes|].visited
  {
  }

  /** Process directions d..3 of the expansion of node p, which sits at index m. */
  function Expand(nodes: seq<Node>, p: Node, m: nat, goal: Board, d: nat): (r: seq<Node>)
    requires m < |nodes| && d <= 4
    ensures |nodes| <= |r| <= |nodes| + (4 - d)
    decreases 4 - d
  {
    if d == 4 then nodes
    else Expand(Visit(nodes, p, m, goal, d), p, m, goal, d + 1)
  }

  /** Direction d of the expansion of p: reconcile the child in that direction if its cell is on the board. */
  function Visit(nodes: seq<Node>, p: Node, m: nat, goal: Board, d: nat): (r: seq<Node>)
    requires d < 4
    ensures |nodes| <= |r| <= |nodes| + 1
  {
    if IsSafe(p.x + Row[d], p.y + Col[d]) then Enqueue(nodes, Child(p, m, d, goal)) else nodes
  }

  /** The nodes after |a| in b are queued children of p, made with directions d.. of the tables, in table order. */
  ghost predicate Spawned(a: seq<Node>, b: seq<Node>, p: Node, m: nat, goal: Board, d: nat) {
    && (forall k :: |a| <= k < |b| ==>
          && ChildOf(p, m, b[k], goal) && b[k].visited
          && d <= MoveIndex(p.x, p.y, b[k].x, b[k].y) < 4
          && b[k].x == p.x + Row[MoveIndex(p.x, p.y, b[k].x, b[k].y)]
          && b[k].y == p.y + Col[MoveIndex(p.x, p.y, b[k].x, b[k].y)])
    && (forall k1, k2 :: |a| <= k1 < k2 < |b| ==>
          MoveIndex(p.x, p.y, b[k1].x, b[k1].y) < MoveIndex(p.x, p.y, b[k2].x, b[k2].y))
  }

  /** A child queued in direction d followed by children of later directions are spawned in order. */
  lemma SpawnedAppend(nodes: seq<Node>, c: Node, r: seq<Node>, p: Node, m: nat, goal: Board, d: nat)
    requires d < 4 && ChildOf(p, m, c, goal) && c.x == p.x + Row[d] && c.y == p.y + Col[d]
    requires DistOnly(nodes + [c.(visited := true)], r) && Spawned(nodes + [c.(visited := true)], r, p, m, goal, d + 1)
    ensures Spawned(nodes, r, p, m, goal, d)
  {
    MoveIndexOf(p.x, p.y, d);
    var k := |nodes|;
    assert (nodes + [c.(visited := true)])[k] == c.(visited := true);
    assert DistKept(nodes + [c.(visited := true)], r, k);
    assert ChildOf(p, m, r[k], goal) && r[k].visited;
    assert MoveIndex(p.x, p.y, r[k].x, r[k].y) == d;
  }

  /**
   * An expansion changes only distances of unexplored nodes, and queues
   * children of m, one per direction at most, in the order down, left, up, right.
   */
  lemma {:induction false} ExpandFacts(nodes: seq<Node>, p: Node, m: nat, goal: Board, d: nat)
    requires m < |nodes| && d <= 4
    ensures DistOnly(nodes, Expand(nodes, p, m, goal, d))
    ensures Spawned(nodes, Expand(nodes, p, m, goal, d), p, m, goal, d)
    decreases 4 - d
  {
    if d < 4 {
      var next := Visit(nodes, p, m, goal, d);
      ExpandFacts(next, p, m, goal, d + 1);
      VisitFacts(nodes, p, m, goal, d, Expand(next, p, m, goal, d + 1));
    }
  }

  /** What a visit of direction d adds in front of the later directions' changes. */
  lemma VisitFacts(nodes: seq<Node>, p: Node, m: nat, goal: Board, d: nat, r: seq<Node>)
    requires d < 4
    requires DistOnly(Visit(nodes, p, m, goal, d), r) && Spawned(Visit(nodes, p, m, goal, d), r, p, m, goal, d + 1)
    ensures DistOnly(nodes, r) && Spawned(nodes, r, p, m, goal, d)
  {
    var next := Visit(nodes, p, m, goal, d);
    if IsSafe(p.x + Row[d], p.y + Col[d]) {
      var c := Child(p, m, d, goal);
      EnqueueFacts(nodes, c);
      DistOnlyTrans(nodes, next, r);
      if |next| > |nodes| {
        assert next == nodes + [c.(visited := true)];
        SpawnedAppend(nodes, c, r, p, m, goal, d);
      }
    }
  }

  // ----- selection of the node to expand -----

  /** The first unexplored node from index j on, or |nodes| if there is none. */
  function FirstUnexploredFrom(nodes: seq<Node>, j: nat): (r: nat)
    requires j <= |nodes|
    ensures j <= r <= |nodes|
    ensures r < |nodes| ==> !nodes[r].explored
    decreases |nodes| - j
  {
    if j == |nodes| then j
    else if !nodes[j].explored then j
    else FirstUnexploredFrom(nodes, j + 1)
  }

  /** The scan skips only explored nodes. */
  lemma {:induction false} FirstUnexploredFromSkips(nodes: seq<Node>, j: nat)
    requires j <= |nodes|
    ensures forall k :: j <= k < FirstUnexploredFrom(nodes, j) ==> nodes[k].explored
    decreases |nodes| - j
  {
    if j < |nodes| && nodes[j].explored {
      FirstUnexploredFromSkips(nodes, j + 1);
    }
  }

  /** The first unexplored node in insertion order, or |nodes| if there is none. */
  function FirstUnexplored(nodes: seq<Node>): (r: nat)
    ensures r <= |nodes|
  {
    FirstUnexploredFrom(nodes, 0)
  }

  /** The node solve_BFS expands: the first unexplored one, or the front if every node is explored. */
  function Select(nodes: seq<Node>): (m: nat)
    requires |nodes| > 0
    ensures m < |nodes|
  {
    var f := FirstUnexplored(nodes);
    if f < |nodes| then f else 0
  }

  /** Select picks the first node in insertion order that is unexplored, and the front only when there is none. */
  lemma SelectIsFirstUnexplored(nodes: seq<Node>)
    requires |nodes| > 0
    ensures forall k :: 0 <= k < Select(nodes) ==> nodes[k].explored
    ensures !nodes[Select(nodes)].explored || (Select(nodes) == 0 && forall k :: 0 <= k < |nodes| ==> nodes[k].explored)
  {
    FirstUnexploredFromSkips(nodes, 0);
  }

  /** No unexplored node comes before the first one. */
  lemma FirstUnexploredIsLeast(nodes: seq<Node>, k: nat)
    requires k < |nodes| && !nodes[k].explored
    ensures FirstUnexplored(nodes) <= k
  {
    FirstUnexploredFromSkips(nodes, 0);
  }

  /** The range-for of solve_BFS: start at the front and stop at the first unexplored node. */
  method SelectFirst(pqv: seq<Node>) returns (m: nat)
    requires |pqv| > 0
    ensures m == Select(pqv)
  {
    m := 0;
    var k := 0;
    while k < |pqv|
      invariant k <= |pqv|
      invariant FirstUnexploredFrom(pqv, k) == FirstUnexplored(pqv)
    {
      if !pqv[k].explored {
        m := k;
        break;
      }
      k := k + 1;
    }
  }

  // ----- the search -----

  /** One iteration of the search after the selected node m turned out not to be the goal. */
  function Step(nodes: seq<Node>, m: nat, goal: Board): (r: seq<Node>)
    requires m < |nodes|
    ensures |r| >= |nodes|
  {
    Expand(nodes, nodes[m], m, goal, 0)
  }

  /**
   * The search from a given queue for at most `fuel` iterations: select the
   * first unexplored node, mark it explored, stop if it is the goal,
   * otherwise expand it.
   */
  function Run(nodes: seq<Node>, goal: Board, fuel: nat): Outcome
    requires |nodes| > 0
    decreases fuel
  {
    if fuel == 0 then OutOfFuel
    else
      var m := Select(nodes);
      var marked := MarkExplored(nodes, m);
      if marked[m].cost == 0 then Found(PathTo(marked, m), marked[m].dist)
      else Run(Step(marked, m, goal), goal, fuel - 1)
  }

  /** Node i has its cost computed, records no tile value, and is marked visited. */
  ghost predicate NodeOk(nodes: seq<Node>, i: nat, goal: Board)
    requires i < |nodes|
  {
    nodes[i].cost == Cost(nodes[i].mat, goal) && nodes[i].level == 0 && nodes[i].visited
  }

  /** What every iteration keeps: the arena shape and the per-node facts. */
  ghost predicate Inv(nodes: seq<Node>, root: Board, goal: Board) {
    ArenaOk(nodes, root) && forall i :: 0 <= i < |nodes| ==> NodeOk(nodes, i, goal)
  }

  /**
   * What one iteration on a non-goal selected node m leaves behind: m is
   * explored; every other old node keeps all its fields but the distance,
   * which changes only on unexplored nodes; and at most four queued
   * children of m follow, in the table order down, left, up, right.
   */
  ghost predicate StepOk(nodes: seq<Node>, r: seq<Node>, m: nat, goal: Board)
    requires m < |nodes|
  {
    && |nodes| <= |r| <= |nodes| + 4
    && r[m] == nodes[m].(explored := true)
    && (forall k :: 0 <= k < |nodes| && k != m ==> DistKept(nodes, r, k))
    && Spawned(nodes, r, nodes[m], m, goal, 0)
  }

  /** One iteration has the effect StepOk describes. */
  lemma StepEffect(nodes: seq<Node>, goal: Board, m: nat)
    requires m < |nodes|
    ensures StepOk(nodes, Step(MarkExplored(nodes, m), m, goal), m, goal)
  {
    var marked := MarkExplored(nodes, m);
    var e := Step(marked, m, goal);
    ExpandFacts(marked, marked[m], m, goal, 0);
    assert DistKept(marked, e, m);
    forall k | 0 <= k < |nodes| && k != m ensures DistKept(nodes, e, k) {
      assert DistKept(marked, e, k);
    }
    assert marked[m].x == nodes[m].x && marked[m].y == nodes[m].y && marked[m].mat == nodes[m].mat;
    forall k | |nodes| <= k < |e| ensures ChildOf(nodes[m], m, e[k], goal) {
      assert ChildOf(marked[m], m, e[k], goal);
    }
  }

  /** An iteration with the effect StepOk keeps the invariant. */
  lemma StepKeepsInv(nodes: seq<Node>, r: seq<Node>, root: Board, goal: Board, m: nat)
    requires Inv(nodes, root, goal) && m < |nodes| && StepOk(nodes, r, m, goal)
    ensures Inv(r, root, goal)
  {
    forall k | 0 <= k < |nodes| ensures SameShape(nodes[k], r[k]) {
      if k != m {
        assert DistKept(nodes, r, k);
      }
    }
    forall k | |nodes| <= k < |r|
      ensures r[k].parent == Some(m) && Adjacent(nodes[m].x, nodes[m].y, r[k].x, r[k].y)
      ensures r[k].mat == Swap(nodes[m].mat, nodes[m].x, nodes[m].y, r[k].x, r[k].y)
    {
      assert ChildOf(nodes[m], m, r[k], goal);
    }
    ArenaOkGrow(nodes, r, root, m);
    forall i | 0 <= i < |r| ensures NodeOk(r, i, goal) {
      if i < |nodes| {
        assert NodeOk(nodes, i, goal);
        if i != m {
          assert DistKept(nodes, r, i);
        }
      } else {
        assert ChildOf(nodes[m], m, r[i], goal);
      }
    }
  }

  // ----- breadth-first layering -----

  /** Node k is one step further than its parent, and the parity of its distance follows its blank's colour on the chequerboard. */
  ghost predicate DepthOk(nodes: seq<Node>, k: nat)
    requires k < |nodes|
  {
    && (nodes[k].parent.Some? && nodes[k].parent.value < |nodes| ==>
          nodes[k].dist == nodes[nodes[k].parent.value].dist + 1)
    && (nodes[k].dist + nodes[k].x + nodes[k].y) % 2 == (nodes[0].x + nodes[0].y) % 2
  }

  /** Distances never decrease along the queue. */
  ghost predicate Sorted(nodes: seq<Node>) {
    forall k1, k2 :: 0 <= k1 < k2 < |nodes| ==> nodes[k1].dist <= nodes[k2].dist
  }

  /**
   * The breadth-first discipline: the root is at distance 0, some node is
   * still unexplored, distances are sorted along the queue and exceed the
   * first unexplored node's by at most one, and each is one more than its
   * parent's.
   */
  ghost predicate Layered(nodes: seq<Node>) {
    && |nodes| > 0 && nodes[0].dist == 0
    && FirstUnexplored(nodes) < |nodes|
    && Sorted(nodes)
    && (forall k :: 0 <= k < |nodes| ==> nodes[k].dist <= nodes[FirstUnexplored(nodes)].dist + 1)
    && (forall k :: 0 <= k < |nodes| ==> DepthOk(nodes, k))
  }

  /** The layering while node u is expanded: u and every node before it are explored. */
  ghost predicate Expanding(a: seq<Node>, u: nat, root: Board) {
    && u < |a| && ArenaOk(a, root) && a[0].dist == 0
    && (forall k :: 0 <= k <= u ==> a[k].explored)
    && Sorted(a)
    && (forall k :: 0 <= k < |a| ==> a[k].dist <= a[u].dist + 1)
    && (forall k :: 0 <= k < |a| ==> DepthOk(a, k))
  }

  /** Some node after u is unexplored. */
  ghost predicate Pending(a: seq<Node>, u: nat) {
    exists k :: u < k < |a| && !a[k].explored
  }

  /**
   * With a single blank, a duplicate found while expanding u already has the
   * child's distance: the parity of its distance is fixed by its blank, and
   * sorting leaves room for only one value. So the overwrite changes nothing.
   */
  lemma OverwriteIsNoOp(a: seq<Node>, u: nat, root: Board, goal: Board, d: nat)
    requires UniqueBlank(root) && Expanding(a, u, root) && d < 4 && IsSafe(a[u].x + Row[d], a[u].y + Col[d])
    requires FirstMatch(a, Child(a[u], u, d, goal).mat) < |a|
    ensures Enqueue(a, Child(a[u], u, d, goal)) == a
  {
    var p, c := a[u], Child(a[u], u, d, goal);
    var j := FirstMatch(a, c.mat);
    assert j > u;
    assert LinkOk(a, u);
    SwapMovesBlank(p.mat, p.x, p.y, c.x, c.y);
    DuplicateHasChildBlank(a, root, j, c);
    assert p.dist <= a[j].dist <= p.dist + 1;
    DuplicateDistance(a, u, j, c);
    assert a[j].(dist := c.dist) == a[j];
  }

  /**
   * A node j at the blank position of a neighbour of node u's blank, whose
   * distance is u's or one more, is one more: the parity of the distance
   * follows the blank's colour on the chequerboard.
   */
  lemma DuplicateDistance(a: seq<Node>, u: nat, j: nat, c: Node)
    requires u < |a| && j < |a| && DepthOk(a, u) && DepthOk(a, j)
    requires a[u].dist <= a[j].dist <= a[u].dist + 1
    requires Adjacent(a[u].x, a[u].y, c.x, c.y) && a[j].x == c.x && a[j].y == c.y
    ensures a[j].dist == a[u].dist + 1
  {
    var parity := (a[0].x + a[0].y) % 2;
    ParityPinsDistance(a[u].dist, a[j].dist, a[u].x, a[u].y, c.x, c.y, parity);
  }

  /** With a single blank, a node holding the same board as c has its blank where c has. */
  lemma DuplicateHasChildBlank(a: seq<Node>, root: Board, j: nat, c: Node)
    requires UniqueBlank(root) && ArenaOk(a, root) && j < |a| && a[j].mat == c.mat && BlankAt(c)
    ensures a[j].x == c.x && a[j].y == c.y
  {
    assert LinkOk(a, j);
    ArenaTiles(a, root, j);
    BlankIsUnique(a[j].mat, Idx(a[j].x, a[j].y), Idx(c.x, c.y));
  }

  /** A distance between d and d + 1 whose parity is that of a neighbouring cell's is d + 1. */
  lemma ParityPinsDistance(d: int, e: int, x: int, y: int, nx: int, ny: int, parity: int)
    requires d <= e <= d + 1 && Adjacent(x, y, nx, ny)
    requires (d + x + y) % 2 == parity && (e + nx + ny) % 2 == parity
    ensures e == d + 1
  {
  }

  /** Queuing a child of u keeps the layering, and leaves an unexplored node after u. */
  lemma AppendKeepsLayer(a: seq<Node>, u: nat, root: Board, goal: Board, d: nat)
    requires Expanding(a, u, root) && d < 4 && IsSafe(a[u].x + Row[d], a[u].y + Col[d])
    ensures Expanding(a + [Child(a[u], u, d, goal).(visited := true)], u, root)
    ensures Pending(a + [Child(a[u], u, d, goal).(visited := true)], u)
  {
    var p, c := a[u], Child(a[u], u, d, goal).(visited := true);
    var b := a + [c];
    assert forall k :: 0 <= k < |a| ==> b[k] == a[k];
    ArenaOkGrow(a, b, root, u);
    assert DepthOk(a, u);
    ChildDepthOk(a, u, c);
    forall k | 0 <= k < |b| ensures DepthOk(b, k) {
      if k < |a| {
        assert LinkOk(a, k);
        DepthOkKept(a, b, k);
      }
    }
  }

  /** A child of u queued one step further than u satisfies DepthOk. */
  lemma ChildDepthOk(a: seq<Node>, u: nat, c: Node)
    requires u < |a| && DepthOk(a, u)
    requires c.parent == Some(u) && c.dist == a[u].dist + 1 && Adjacent(a[u].x, a[u].y, c.x, c.y)
    ensures DepthOk(a + [c], |a|)
  {
    var b := a + [c];
    assert b[|a|] == c && b[0] == a[0] && b[u] == a[u];
    StepFlipsColour(a[u].dist, a[u].x, a[u].y, c.x, c.y, (a[0].x + a[0].y) % 2);
  }

  /** The fields the layering reads. */
  predicate SameDepthFields(n: Node, n': Node) {
    n.parent == n'.parent && n.dist == n'.dist && n.x == n'.x && n.y == n'.y
  }

  /** DepthOk of node k carries over to an arena that agrees on the fields it reads. */
  lemma DepthOkKept(a: seq<Node>, b: seq<Node>, k: nat)
    requires k < |a| <= |b| && DepthOk(a, k)
    requires a[k].parent.Some? ==> a[k].parent.value < |a|
    requires forall i :: 0 <= i < |a| ==> SameDepthFields(a[i], b[i])
    ensures DepthOk(b, k)
  {
    assert SameDepthFields(a[0], b[0]) && SameDepthFields(a[k], b[k]);
    if a[k].parent.Some? {
      assert SameDepthFields(a[a[k].parent.value], b[a[k].parent.value]);
    }
  }

  /** One step further and one cell over keeps the parity of distance plus blank coordinates. */
  lemma StepFlipsColour(d: int, x: int, y: int, nx: int, ny: int, parity: int)
    requires Adjacent(x, y, nx, ny) && (d + x + y) % 2 == parity
    ensures (d + 1 + nx + ny) % 2 == parity
  {
  }

  /** A visit while expanding u keeps the layering, and queues or finds an unexplored node when the move is on the board. */
  lemma VisitKeepsLayer(a: seq<Node>, u: nat, root: Board, goal: Board, d: nat)
    requires UniqueBlank(root) && Expanding(a, u, root) && d < 4
    ensures Expanding(Visit(a, a[u], u, goal, d), u, root)
    ensures Visit(a, a[u], u, goal, d)[u] == a[u]
    ensures Pending(a, u) || IsSafe(a[u].x + Row[d], a[u].y + Col[d]) ==> Pending(Visit(a, a[u], u, goal, d), u)
  {
    if IsSafe(a[u].x + Row[d], a[u].y + Col[d]) {
      var c := Child(a[u], u, d, goal);
      var j := FirstMatch(a, c.mat);
      if j < |a| {
        OverwriteIsNoOp(a, u, root, goal, d);
        assert j > u;
      } else {
        AppendKeepsLayer(a, u, root, goal, d);
        var b := a + [c.(visited := true)];
        assert forall k :: 0 <= k < |a| ==> b[k] == a[k];
      }
    }
  }

  /** An expansion of u keeps the layering, and leaves an unexplored node after u if any move was on the board. */
  lemma {:induction false} ExpandKeepsLayer(a: seq<Node>, p: Node, u: nat, root: Board, goal: Board, d: nat)
    requires UniqueBlank(root) && Expanding(a, u, root) && p == a[u] && d <= 4
    ensures Expanding(Expand(a, p, u, goal, d), u, root)
    ensures (Pending(a, u) || exists e :: d <= e < 4 && IsSafe(p.x + Row[e], p.y + Col[e])) ==>
              Pending(Expand(a, p, u, goal, d), u)
    decreases 4 - d
  {
    if d < 4 {
      VisitKeepsLayer(a, u, root, goal, d);
      var next := Visit(a, p, u, goal, d);
      ExpandKeepsLayer(next, p, u, root, goal, d + 1);
      if exists e :: d <= e < 4 && IsSafe(p.x + Row[e], p.y + Col[e]) {
        var e :| d <= e < 4 && IsSafe(p.x + Row[e], p.y + Col[e]);
        assert e == d || (d + 1 <= e < 4 && IsSafe(p.x + Row[e], p.y + Col[e]));
      }
    }
  }

  /** Selecting, marking and expanding the first unexplored node keeps the layering. */
  lemma StepKeepsLayer(nodes: seq<Node>, root: Board, goal: Board)
    requires Inv(nodes, root, goal) && UniqueBlank(root) && Layered(nodes)
    ensures Layered(Step(MarkExplored(nodes, Select(nodes)), Select(nodes), goal))
  {
    var u := Select(nodes);
    assert u == FirstUnexplored(nodes);
    FirstUnexploredFromSkips(nodes, 0);
    var marked := MarkExplored(nodes, u);
    UpdateExtends(nodes, u, nodes[u].(explored := true));
    ArenaOkGrow(nodes, marked, root, u);
    assert forall k :: 0 <= k < |nodes| ==> SameDepthFields(nodes[k], marked[k]);
    forall k | 0 <= k < |marked| ensures DepthOk(marked, k) {
      assert LinkOk(nodes, k) && DepthOk(nodes, k);
      DepthOkKept(nodes, marked, k);
    }
    assert Expanding(marked, u, root);
    var p := marked[u];
    SomeMoveIsSafe(p.x, p.y);
    ExpandKeepsLayer(marked, p, u, root, goal, 0);
    ExpandedIsLayered(Step(marked, u, goal), u, root);
  }

  /** Once u is expanded and some later node is unexplored, the first of those is the new frontier. */
  lemma ExpandedIsLayered(e: seq<Node>, u: nat, root: Board)
    requires Expanding(e, u, root) && Pending(e, u)
    ensures Layered(e)
  {
    var k :| u < k < |e| && !e[k].explored;
    FirstUnexploredIsLeast(e, k);
    var v := FirstUnexplored(e);
    assert u < v;
    assert e[u].dist <= e[v].dist;
  }

  /** In a layered arena a node's distance is its number of moves from the root. */
  lemma {:induction false} DistIsDepth(nodes: seq<Node>, root: Board, i: nat)
    requires ArenaOk(nodes, root) && Layered(nodes) && i < |nodes|
    ensures nodes[i].dist == |PathTo(nodes, i)| - 1
    decreases i
  {
    assert LinkOk(nodes, i) && DepthOk(nodes, i);
    match nodes[i].parent
    case None =>
    case Some(p) => DistIsDepth(nodes, root, p);
  }

  // ----- soundness of the search -----

  /** The invariant of the search: Inv, and with a single blank also the layering. */
  ghost predicate SearchInv(nodes: seq<Node>, root: Board, goal: Board) {
    Inv(nodes, root, goal) && (UniqueBlank(root) ==> Layered(nodes))
  }

  /** A reported answer is sound, and with a single blank its cost is its number of moves. */
  ghost predicate Reported(o: Outcome, root: Board, goal: Board) {
    Sound(o, root, goal) && (UniqueBlank(root) && o.Found? ==> o.cost == |o.path| - 1)
  }

  /** An iteration that selects a zero-cost node answers soundly. */
  lemma RunFound(nodes: seq<Node>, root: Board, goal: Board, fuel: nat)
    requires SearchInv(nodes, root, goal) && fuel > 0 && nodes[Select(nodes)].cost == 0
    ensures Reported(Run(nodes, goal, fuel), root, goal)
  {
    var m := Select(nodes);
    var marked := MarkExplored(nodes, m);
    assert NodeOk(nodes, m, goal);
    UpdateExtends(nodes, m, nodes[m].(explored := true));
    ArenaOkGrow(nodes, marked, root, m);
    PathToSolves(marked, root, goal, m);
    if UniqueBlank(root) {
      DistIsDepth(nodes, root, m);
      PathToFrame(nodes, marked, m);
    }
  }

  /** An iteration that selects a node of non-zero cost continues from a queue satisfying the invariant. */
  lemma RunContinues(nodes: seq<Node>, root: Board, goal: Board, fuel: nat) returns (next: seq<Node>)
    requires SearchInv(nodes, root, goal) && fuel > 0 && nodes[Select(nodes)].cost != 0
    ensures |next| > 0 && SearchInv(next, root, goal)
    ensures Run(nodes, goal, fuel) == Run(next, goal, fuel - 1)
  {
    var m := Select(nodes);
    next := Step(MarkExplored(nodes, m), m, goal);
    StepEffect(nodes, goal, m);
    StepKeepsInv(nodes, next, root, goal, m);
    if UniqueBlank(root) {
      StepKeepsLayer(nodes, root, goal);
    }
  }

  /** Every reported answer is a path of slides from the initial board to a zero-cost board. */
  lemma {:induction false} RunSound(nodes: seq<Node>, root: Board, goal: Board, fuel: nat)
    requires SearchInv(nodes, root, goal)
    ensures Reported(Run(nodes, goal, fuel), root, goal)
    decreases fuel, 1
  {
    if fuel > 0 {
      RunSoundSucc(nodes, root, goal, fuel - 1);
    }
  }

  /** RunSound for a positive number of iterations, written f + 1. */
  lemma {:induction false} RunSoundSucc(nodes: seq<Node>, root: Board, goal: Board, f: nat)
    requires SearchInv(nodes, root, goal)
    ensures Reported(Run(nodes, goal, f + 1), root, goal)
    decreases f + 1, 0
  {
    if nodes[Select(nodes)].cost == 0 {
      RunFound(nodes, root, goal, f + 1);
    } else {
      var next := RunContinues(nodes, root, goal, f + 1);
      RunSound(next, root, goal, f);
    }
  }

  /** The invariant holds of the one-node queue holding the corrected root. */
  lemma RootInv(initial: Board, x: Coord, y: Coord, goal: Board)
    requires initial[Idx(x, y)] == 0
    ensures SearchInv([BfsRoot(initial, x, y, goal)], initial, goal)
  {
    var nodes := [BfsRoot(initial, x, y, goal)];
    assert LinkOk(nodes, 0) && NodeOk(nodes, 0, goal) && DepthOk(nodes, 0);
  }

  /**
   * As written, a start that already solves the puzzle is not reported when
   * its node is selected, as its cost is the placeholder; with the cost
   * computed it is reported at once with cost 0.
   */
  lemma SolvedStartMissed(initial: Board, x: Coord, y: Coord, goal: Board)
    requires initial[Idx(x, y)] == 0 && Cost(initial, goal) == 0
    ensures Run([RootAsWritten(initial, x, y)], goal, 1) == OutOfFuel
    ensures Run([BfsRoot(initial, x, y, goal)], goal, 1) == Found([initial], 0)
  {
    var w := [RootAsWritten(initial, x, y)];
    assert Select(w) == 0;
    var c := [BfsRoot(initial, x, y, goal)];
    assert Select(c) == 0;
    assert PathTo(MarkExplored(c, 0), 0) == [initial];
  }

  // ----- the as-written root on every other start -----

  /** Two nodes agree on every field except possibly the cost. */
  predicate SameButCost(a: Node, b: Node) {
    && a.parent == b.parent && a.explored == b.explored && a.visited == b.visited
    && a.mat == b.mat && a.x == b.x && a.y == b.y && a.level == b.level && a.dist == b.dist
  }

  /** Two queues that differ at most in the cost of their root, which is non-zero in both. */
  ghost predicate RootCostOnly(a: seq<Node>, b: seq<Node>) {
    && |a| == |b| > 0
    && a[0].cost != 0 && b[0].cost != 0
    && SameButCost(a[0], b[0])
    && forall k :: 1 <= k < |a| ==> a[k] == b[k]
  }

  lemma {:induction false} FirstUnexploredFromTwin(a: seq<Node>, b: seq<Node>, j: nat)
    requires RootCostOnly(a, b) && j <= |a|
    ensures FirstUnexploredFrom(a, j) == FirstUnexploredFrom(b, j)
    decreases |a| - j
  {
    if j < |a| {
      assert a[j].explored == b[j].explored;
      FirstUnexploredFromTwin(a, b, j + 1);
    }
  }

  lemma {:induction false} FirstMatchFromTwin(a: seq<Node>, b: seq<Node>, t: Board, j: nat)
    requires RootCostOnly(a, b) && j <= |a|
    ensures FirstMatchFrom(a, t, j) == FirstMatchFrom(b, t, j)
    decreases |a| - j
  {
    if j < |a| {
      assert a[j].mat == b[j].mat && a[j].explored == b[j].explored;
      FirstMatchFromTwin(a, b, t, j + 1);
    }
  }

  /** Reconciling the same child with both queues keeps them apart only in the root's cost. */
  lemma EnqueueTwin(a: seq<Node>, b: seq<Node>, c: Node)
    requires RootCostOnly(a, b)
    ensures RootCostOnly(Enqueue(a, c), Enqueue(b, c))
  {
    FirstMatchFromTwin(a, b, c.mat, 0);
  }

  /** Expanding nodes that differ only in cost, against such queues, does the same to both. */
  lemma {:induction false} ExpandTwin(a: seq<Node>, b: seq<Node>, p: Node, q: Node, m: nat, goal: Board, d: nat)
    requires RootCostOnly(a, b) && SameButCost(p, q) && m < |a| && d <= 4
    ensures RootCostOnly(Expand(a, p, m, goal, d), Expand(b, q, m, goal, d))
    decreases 4 - d
  {
    if d < 4 {
      if IsSafe(p.x + Row[d], p.y + Col[d]) {
        assert Child(p, m, d, goal) == Child(q, m, d, goal);
        EnqueueTwin(a, b, Child(p, m, d, goal));
      }
      ExpandTwin(Visit(a, p, m, goal, d), Visit(b, q, m, goal, d), p, q, m, goal, d + 1);
    }
  }

  /** Marking and expanding the same node of both queues keeps them apart only in the root's cost. */
  lemma StepTwin(a: seq<Node>, b: seq<Node>, m: nat, goal: Board)
    requires RootCostOnly(a, b) && m < |a|
    ensures RootCostOnly(MarkExplored(a, m), MarkExplored(b, m))
    ensures RootCostOnly(Step(MarkExplored(a, m), m, goal), Step(MarkExplored(b, m), m, goal))
  {
    var ma, mb := MarkExplored(a, m), MarkExplored(b, m);
    assert SameButCost(ma[m], mb[m]) by {
      if m == 0 {
        assert SameButCost(a[0], b[0]);
      } else {
        assert a[m] == b[m];
      }
    }
    assert RootCostOnly(ma, mb);
    ExpandTwin(ma, mb, ma[m], mb[m], m, goal, 0);
  }

  /** Queues that differ only in a non-zero root cost give the same search outcome. */
  lemma {:induction false} RunTwin(a: seq<Node>, b: seq<Node>, goal: Board, fuel: nat)
    requires RootCostOnly(a, b)
    ensures Run(a, goal, fuel) == Run(b, goal, fuel)
    decreases fuel
  {
    if fuel > 0 {
      var f: nat := fuel - 1;
      RunHead(a, goal, f);
      RunHead(b, goal, f);
      FirstUnexploredFromTwin(a, b, 0);
      var m := Select(a);
      assert m == Select(b);
      StepTwin(a, b, m, goal);
      var ma, mb := MarkExplored(a, m), MarkExplored(b, m);
      assert ma[m].cost == 0 <==> mb[m].cost == 0 by {
        if m != 0 {
          assert a[m] == b[m];
        }
      }
      if ma[m].cost == 0 {
        assert m != 0;
        assert Extends(ma, mb) by {
          forall k | 0 <= k < |ma| ensures SameShape(ma[k], mb[k]) {
            if k != 0 {
              assert ma[k] == mb[k];
            }
          }
        }
        PathToFrame(ma, mb, m);
        assert ma[m] == mb[m];
      } else {
        RunTwin(Step(ma, m, goal), Step(mb, m, goal), goal, f);
      }
    }
  }

  /**
   * On every start that does not already solve the puzzle, the search from
   * the root as written and from the corrected root have the same outcome.
   */
  lemma AsWrittenAgrees(initial: Board, x: Coord, y: Coord, goal: Board, fuel: nat)
    requires initial[Idx(x, y)] == 0
    ensures Cost(initial, goal) != 0 ==>
              Run([RootAsWritten(initial, x, y)], goal, fuel) == Run([BfsRoot(initial, x, y, goal)], goal, fuel)
  {
    if Cost(initial, goal) != 0 {
      RunTwin([RootAsWritten(initial, x, y)], [BfsRoot(initial, x, y, goal)], goal, fuel);
    }
  }

  // ----- the method -----

  /** The reconciliation of one child with the queue, by the duplicate scan. */
  method Reconcile(pqv: seq<Node>, child: Node) returns (r: seq<Node>)
    ensures r == Enqueue(pqv, child)
  {
    var j := FindDuplicate(pqv, child);
    if j != |pqv| {
      r := pqv[j := pqv[j].(dist := child.dist)];
    } else {
      var queued := child.(visited := true);
      r := pqv + [queued];
    }
  }

  /** A child as solve_BFS builds it: newNode, then its cost, then its distance one step further. */
  method MakeChild(min: Node, m: nat, d: nat, nx: Coord, ny: Coord, final: Board) returns (child: Node)
    requires d < 4 && nx == min.x + Row[d] && ny == min.y + Col[d]
    ensures child == Child(min, m, d, final)
  {
    child := NewNode(min.mat, min.x, min.y, nx, ny, 0, 0, Some(m));
    var cc := CalculateCost(child.mat, final);
    child := child.(cost := cc);
    child := child.(dist := min.dist + 1);
  }

  /** Expanding from direction d is visiting d and expanding from d + 1. */
  lemma ExpandUnfold(nodes: seq<Node>, p: Node, m: nat, goal: Board, d: nat)
    requires m < |nodes| && d < 4
    ensures Expand(nodes, p, m, goal, d) == Expand(Visit(nodes, p, m, goal, d), p, m, goal, d + 1)
  {
  }

  /** A visit reconciles the child in direction d when that cell is on the board, and changes nothing otherwise. */
  lemma VisitCases(nodes: seq<Node>, p: Node, m: nat, goal: Board, d: nat)
    requires d < 4
    ensures Visit(nodes, p, m, goal, d) ==
      if IsSafe(p.x + Row[d], p.y + Col[d]) then Enqueue(nodes, Child(p, m, d, goal)) else nodes
  {
  }

  /** The inner loop over the four directions. */
  method ExpandAll(pqv: seq<Node>, min: Node, m: nat, final: Board) returns (r: seq<Node>)
    requires m < |pqv|
    ensures r == Expand(pqv, min, m, final, 0)
  {
    r := pqv;
    for i := 0 to 4
      invariant m < |r|
      invariant Expand(r, min, m, final, i) == Expand(pqv, min, m, final, 0)
    {
      ExpandUnfold(r, min, m, final, i);
      VisitCases(r, min, m, final, i);
      var nx, ny := min.x + Row[i], min.y + Col[i];
      if IsSafe(nx, ny) {
        var child := MakeChild(min, m, i, nx, ny, final);
        r := Reconcile(r, child);
      }
    }
  }

  /** One unfolding of the search with f + 1 iterations left. */
  lemma RunHead(nodes: seq<Node>, goal: Board, f: nat)
    requires |nodes| > 0
    ensures var m := Select(nodes);
      var marked := MarkExplored(nodes, m);
      Run(nodes, goal, f + 1) ==
        if marked[m].cost == 0 then Found(PathTo(marked, m), marked[m].dist) else Run(Step(marked, m, goal), goal, f)
  {
  }

  /**
   * Breadth-first search from `initial` (blank at (x, y)) towards `final`,
   * for at most `fuel` iterations of the outer loop, with the root's cost
   * computed.
   */
  method SolveBfs(initial: Board, x: Coord, y: Coord, final: Board, fuel: nat) returns (outcome: Outcome)
    requires initial[Idx(x, y)] == 0
    ensures outcome == Run([BfsRoot(initial, x, y, final)], final, fuel)
    ensures outcome.Found? ==> ValidSolution(outcome.path, initial, final)
    ensures outcome.Found? && multiset(initial) == multiset(final) ==> outcome.path[|outcome.path| - 1] == final
    ensures outcome.Found? && UniqueBlank(initial) ==> outcome.cost == |outcome.path| - 1
    ensures Cost(initial, final) != 0 ==> outcome == Run([RootAsWritten(initial, x, y)], final, fuel)
  {
    var root1 := NewNode(initial, x, y, x, y, 0, 0, None);
    root1 := root1.(visited := true);
    var c := CalculateCost(initial, final);
    root1 := root1.(cost := c);
    assert root1.mat == initial;
    assert root1 == BfsRoot(initial, x, y, final);
    RootInv(initial, x, y, final);
    RunSound([root1], initial, final, fuel);
    ghost var o := Run([root1], final, fuel);
    var pqv := [root1];
    var steps := 0;
    while steps < fuel
      invariant steps <= fuel
      invariant |pqv| > 0
      invariant Run(pqv, final, fuel - steps) == o
    {
      ghost var left := fuel - steps - 1;
      RunHead(pqv, final, left);
      var m := SelectFirst(pqv);
      pqv := pqv[m := pqv[m].(explored := true)];
      var min := pqv[m];
      if min.cost == 0 {
        outcome := Found(PathTo(pqv, m), min.dist);
        AsWrittenAgrees(initial, x, y, final, fuel);
        return;
      }
      pqv := ExpandAll(pqv, min, m, final);
      steps := steps + 1;
    }
    outcome := OutOfFuel;
    AsWrittenAgrees(initial, x, y, final, fuel);
  }
}
