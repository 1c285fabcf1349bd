/**
 * The uniform-cost strategy: repeatedly expand the node of least `dist`
 * (a linear scan over every node ever created), weigh each edge by the
 * number on the tile that moved, relax unexplored duplicates downwards, and
 * retire an expanded node by setting its distance to the sentinel.
 *
 * solve_Dijkstra loops while its node vector is non-empty, which it always
 * is; here the loop runs at most `fuel` iterations.
 */
module Dijkstra {
  import opened Grid
  import opened Nodes

  /** Child c of node p (index m) was made by sliding p's blank, and carries the moved tile as its weight. */
  ghost predicate ChildOf(p: Node, m: nat, c: Node, goal: Board) {
    && c.parent == Some(m)
    && Adjacent(p.x, p.y, c.x, c.y)
    && c.mat == Swap(p.mat, p.x, p.y, c.x, c.y)
    && c.level == p.mat[Idx(c.x, c.y)]
    && c.dist <= p.dist + c.level
    && c.cost == Cost(c.mat, goal)
    && !c.explored
  }

  /** The successor of p in direction d of the tables; its distance adds the number on the moved tile. */
  function Child(p: Node, m: nat, d: nat, goal: Board): (c: Node)
    requires d < 4 && IsSafe(p.x + Row[d], p.y + Col[d])
    ensures ChildOf(p, m, c, goal) && c.x == p.x + Row[d] && c.y == p.y + Col[d]
    ensures c.dist == p.dist + c.level
  {
    DirectionsAreAdjacent(p.x, p.y, d);
    var nx: Coord, ny: Coord := p.x + Row[d], p.y + Col[d];
    var b := Swap(p.mat, p.x, p.y, nx, ny);
    Node(Some(m), false, false, b, nx, ny, Cost(b, goal), p.mat[Idx(nx, ny)], p.dist + p.mat[Idx(nx, ny)])
  }

  /**
   * Reconcile a child with the arena: an unexplored node with the same
   * board has its distance lowered if the child's is smaller; without one
   * the child is appended.
   */
  function Relax(nodes: seq<Node>, c: Node): (r: seq<Node>)
    ensures |nodes| <= |r| <= |nodes| + 1
  {
    var j := FirstMatch(nodes, c.mat);
    if j < |nodes| then
      if c.dist < nodes[j].dist then SetDist(nodes, j, c.dist) else nodes
    else
      nodes + [c]
  }

  /** Old nodes keep every field but the distance, which only goes down, and never on an explored node. */
  ghost predicate Lowered(a: seq<Node>, b: seq<Node>) {
    DistOnly(a, b) && forall k :: 0 <= k < |a| ==> b[k].dist <= a[k].dist
  }

  /** Relaxation never raises a distance: a duplicate ends at the smaller of the two; otherwise the child is appended. */
  lemma RelaxFacts(nodes: seq<Node>, c: Node)
    ensures Lowered(nodes, Relax(nodes, c))
    ensures var j := FirstMatch(nodes, c.mat);
      if j < |nodes| then
        |Relax(nodes, c)| == |nodes| && Relax(nodes, c)[j].dist == (if c.dist < nodes[j].dist then c.dist else nodes[j].dist)
      else
        Relax(nodes, c) == nodes + [c]
  {
  }

  /**
   * Process directions d..3 of the expansion of node p, which sits at index m.
   */
  function Expand(nodes: seq<Node>, p: Node, m: nat, goal: Board, d: nat): (r: seq<Node>)
    requires m < |nodes| && d <= 4
    ensures |nodes| <= |r| <= |nodes| + (4 - d)
    decreases 4 - d
  {
    if d == 4 then nodes
    else Expand(Visit(nodes, p, m, goal, d), p, m, goal, d + 1)
  }

  /** Direction d of the expansion of p: reconcile the child in that direction if its cell is on the board. */
  function Visit(nodes: seq<Node>, p: Node, m: nat, goal: Board, d: nat): (r: seq<Node>)
    requires d < 4
    ensures |nodes| <= |r| <= |nodes| + 1
  {
    if IsSafe(p.x + Row[d], p.y + Col[d]) then Relax(nodes, Child(p, m, d, goal)) else nodes
  }

  /** The nodes after |a| in b are children of p, made with directions d.. of the tables, in table order. */
  ghost predicate Spawned(a: seq<Node>, b: seq<Node>, p: Node, m: nat, goal: Board, d: nat) {
    && (forall k :: |a| <= k < |b| ==>
          && ChildOf(p, m, b[k], goal)
          && d <= MoveIndex(p.x, p.y, b[k].x, b[k].y) < 4
          && b[k].x == p.x + Row[MoveIndex(p.x, p.y, b[k].x, b[k].y)]
          && b[k].y == p.y + Col[MoveIndex(p.x, p.y, b[k].x, b[k].y)])
    && (forall k1, k2 :: |a| <= k1 < k2 < |b| ==>
          MoveIndex(p.x, p.y, b[k1].x, b[k1].y) < MoveIndex(p.x, p.y, b[k2].x, b[k2].y))
  }

  lemma LoweredTrans(a: seq<Node>, b: seq<Node>, c: seq<Node>)
    requires Lowered(a, b) && Lowered(b, c)
    ensures Lowered(a, c)
  {
    forall k | 0 <= k < |a| ensures DistKept(a, c, k) {
      assert DistKept(a, b, k) && DistKept(b, c, k);
    }
  }

  /** A child appended in direction d followed by children of later directions are spawned in order. */
  lemma SpawnedAppend(nodes: seq<Node>, c: Node, r: seq<Node>, p: Node, m: nat, goal: Board, d: nat)
    requires d < 4 && ChildOf(p, m, c, goal) && c.x == p.x + Row[d] && c.y == p.y + Col[d]
    requires Lowered(nodes + [c], r) && Spawned(nodes + [c], r, p, m, goal, d + 1)
    ensures Spawned(nodes, r, p, m, goal, d)
  {
    MoveIndexOf(p.x, p.y, d);
    var k := |nodes|;
    assert (nodes + [c])[k] == c;
    assert DistKept(nodes + [c], r, k) && r[k].dist <= c.dist;
    assert ChildOf(p, m, r[k], goal);
    assert MoveIndex(p.x, p.y, r[k].x, r[k].y) == d;
  }

  /**
   * An expansion lowers distances of old unexplored nodes only, and appends
   * children of m, one per direction at most, in the order down, left, up, right.
   */
  lemma {:induction false} ExpandFacts(nodes: seq<Node>, p: Node, m: nat, goal: Board, d: nat)
    requires m < |nodes| && d <= 4
    ensures Lowered(nodes, Expand(nodes, p, m, goal, d))
    ensures Spawned(nodes, Expand(nodes, p, m, goal, d), p, m, goal, d)
    decreases 4 - d
  {
    if d < 4 {
      var next := Visit(nodes, p, m, goal, d);
      ExpandFacts(next, p, m, goal, d + 1);
      VisitFacts(nodes, p, m, goal, d, Expand(next, p, m, goal, d + 1));
    }
  }

  /** What a visit of direction d adds in front of the later directions' changes. */
  lemma VisitFacts(nodes: seq<Node>, p: Node, m: nat, goal: Board, d: nat, r: seq<Node>)
    requires d < 4
    requires Lowered(Visit(nodes, p, m, goal, d), r) && Spawned(Visit(nodes, p, m, goal, d), r, p, m, goal, d + 1)
    ensures Lowered(nodes, r) && Spawned(nodes, r, p, m, goal, d)
  {
    var next := Visit(nodes, p, m, goal, d);
    if IsSafe(p.x + Row[d], p.y + Col[d]) {
      var c := Child(p, m, d, goal);
      RelaxFacts(nodes, c);
      LoweredTrans(nodes, next, r);
      if |next| > |nodes| {
        assert next == nodes + [c];
        SpawnedAppend(nodes, c, r, p, m, goal, d);
      }
    }
  }

  /** The index min_element returns: the first node of least distance. */
  function FirstMin(nodes: seq<Node>): (m: nat)
    requires |nodes| > 0
    ensures m < |nodes|
  {
    if |nodes| == 1 then 0
    else
      var m := FirstMin(nodes[..|nodes| - 1]);
      if NodeComp(nodes[|nodes| - 1], nodes[m]) then |nodes| - 1 else m
  }

  /** FirstMin finds a node of least distance, and no earlier node has that distance. */
  lemma {:induction false} FirstMinIsFirstLeast(nodes: seq<Node>)
    requires |nodes| > 0
    ensures forall k :: 0 <= k < |nodes| ==> nodes[FirstMin(nodes)].dist <= nodes[k].dist
    ensures forall k :: 0 <= k < FirstMin(nodes) ==> nodes[k].dist > nodes[FirstMin(nodes)].dist
  {
    if |nodes| > 1 {
      var pre := nodes[..|nodes| - 1];
      FirstMinIsFirstLeast(pre);
      assert forall k :: 0 <= k < |pre| ==> pre[k] == nodes[k];
    }
  }

  /** The first node of least distance is the only index with both properties. */
  lemma FirstMinUnique(nodes: seq<Node>, m: nat)
    requires m < |nodes|
    requires forall k :: 0 <= k < |nodes| ==> nodes[m].dist <= nodes[k].dist
    requires forall k :: 0 <= k < m ==> nodes[k].dist > nodes[m].dist
    ensures m == FirstMin(nodes)
  {
    FirstMinIsFirstLeast(nodes);
    var f := FirstMin(nodes);
    assert !(f < m) && !(m < f);
  }

  /** The linear scan of min_element with NodeComp. */
  method MinElement(nodes: seq<Node>) returns (m: nat)
    requires |nodes| > 0
    ensures m == FirstMin(nodes)
  {
    m := 0;
    var k := 1;
    while k < |nodes|
      invariant 1 <= k <= |nodes| && m < k
      invariant forall i :: 0 <= i < k ==> nodes[m].dist <= nodes[i].dist
      invariant forall i :: 0 <= i < m ==> nodes[i].dist > nodes[m].dist
    {
      if NodeComp(nodes[k], nodes[m]) {
        m := k;
      }
      k := k + 1;
    }
    FirstMinUnique(nodes, m);
  }

  /** One iteration of the search after the selected node m turned out not to be the goal. */
  function Step(nodes: seq<Node>, m: nat, goal: Board): (r: seq<Node>)
    requires m < |nodes|
    ensures |r| >= |nodes|
  {
    var e := Expand(nodes, nodes[m], m, goal, 0);
    SetDist(e, m, IntMax)
  }

  /**
   * The search from a given arena for at most `fuel` iterations: select the
   * first node of least distance, mark it explored, stop if it is the goal,
   * otherwise expand and retire it.
   */
  function Run(nodes: seq<Node>, goal: Board, fuel: nat): Outcome
    requires |nodes| > 0
    decreases fuel
  {
    if fuel == 0 then OutOfFuel
    else
      var m := FirstMin(nodes);
      var marked := MarkExplored(nodes, m);
      if marked[m].cost == 0 then Found(PathTo(marked, m), marked[m].dist)
      else Run(Step(marked, m, goal), goal, fuel - 1)
  }

  /** What every iteration keeps: the arena shape, the costs, the moved-tile weights, retired explored nodes. */
  ghost predicate Inv(nodes: seq<Node>, root: Board, goal: Board) {
    ArenaOk(nodes, root) && forall i :: 0 <= i < |nodes| ==> NodeOk(nodes, i, goal)
  }

  /** Node i has its cost computed, is retired if explored, and weighs the tile its move displaced. */
  ghost predicate NodeOk(nodes: seq<Node>, i: nat, goal: Board)
    requires i < |nodes|
  {
    && nodes[i].cost == Cost(nodes[i].mat, goal)
    && (nodes[i].explored ==> nodes[i].dist == IntMax)
    && (nodes[i].parent.Some? && nodes[i].parent.value < |nodes| ==>
          nodes[i].level == nodes[nodes[i].parent.value].mat[Idx(nodes[i].x, nodes[i].y)])
  }

  /**
   * What one iteration on a non-goal selected node m leaves behind: m is
   * explored and retired at the sentinel; every other old node keeps all
   * its fields but the distance, which can only go down and never on an
   * explored node; and at most four children of m are appended, in the
   * table order down, left, up, right.
   */
  ghost predicate StepOk(nodes: seq<Node>, r: seq<Node>, m: nat, goal: Board)
    requires m < |nodes|
  {
    && |nodes| <= |r| <= |nodes| + 4
    && r[m] == nodes[m].(explored := true, dist := IntMax)
    && (forall k :: 0 <= k < |nodes| && k != m ==> DistKept(nodes, r, k) && r[k].dist <= nodes[k].dist)
    && Spawned(nodes, r, nodes[m], m, goal, 0)
  }

  /** One iteration has the effect StepOk describes. */
  lemma StepEffect(nodes: seq<Node>, goal: Board, m: nat)
    requires m < |nodes|
    ensures StepOk(nodes, Step(MarkExplored(nodes, m), m, goal), m, goal)
  {
    var marked := MarkExplored(nodes, m);
    var e := Expand(marked, marked[m], m, goal, 0);
    var r := SetDist(e, m, IntMax);
    ExpandFacts(marked, marked[m], m, goal, 0);
    assert DistKept(marked, e, m);
    forall k | 0 <= k < |nodes| && k != m ensures DistKept(nodes, r, k) && r[k].dist <= nodes[k].dist {
      assert DistKept(marked, e, k);
    }
    assert marked[m].x == nodes[m].x && marked[m].y == nodes[m].y && marked[m].mat == nodes[m].mat;
    assert forall k :: |nodes| <= k < |r| ==> r[k] == e[k];
    forall k | |nodes| <= k < |r| ensures ChildOf(nodes[m], m, r[k], goal) {
      assert ChildOf(marked[m], m, e[k], goal);
    }
  }

  /** An iteration with the effect StepOk keeps the invariant. */
  lemma StepKeepsInv(nodes: seq<Node>, r: seq<Node>, root: Board, goal: Board, m: nat)
    requires Inv(nodes, root, goal) && m < |nodes| && StepOk(nodes, r, m, goal)
    ensures Inv(r, root, goal)
  {
    forall k | 0 <= k < |nodes| ensures SameShape(nodes[k], r[k]) && r[k].mat == nodes[k].mat {
      if k != m {
        assert DistKept(nodes, r, k);
      }
    }
    forall k | |nodes| <= k < |r|
      ensures r[k].parent == Some(m) && Adjacent(nodes[m].x, nodes[m].y, r[k].x, r[k].y)
      ensures r[k].mat == Swap(nodes[m].mat, nodes[m].x, nodes[m].y, r[k].x, r[k].y)
    {
      assert ChildOf(nodes[m], m, r[k], goal);
    }
    ArenaOkGrow(nodes, r, root, m);
    forall i | 0 <= i < |r| ensures NodeOk(r, i, goal) {
      if i < |nodes| {
        assert NodeOk(nodes, i, goal) && LinkOk(nodes, i);
        if i != m {
          assert DistKept(nodes, r, i);
        }
        if nodes[i].parent.Some? {
          var p := nodes[i].parent.value;
          assert r[p].mat == nodes[p].mat;
        }
      } else {
        assert ChildOf(nodes[m], m, r[i], goal);
        assert r[m].mat == nodes[m].mat;
      }
    }
  }

  // ----- the reported cost against the printed path -----

  /** The moved-tile weight of a path: the sum, over its steps, of the number on the tile each step moves. */
  function PathWeight(path: seq<Board>): int
    decreases |path|
  {
    if |path| < 2 then 0
    else PathWeight(path[..|path| - 1]) + MovedTile(path[|path| - 2], path[|path| - 1])
  }

  /** Extending a path by one board adds the tile moved in that last step. */
  lemma PathWeightAppend(s: seq<Board>, b: Board)
    requires |s| >= 1
    ensures PathWeight(s + [b]) == PathWeight(s) + MovedTile(s[|s| - 1], b)
  {
    assert (s + [b])[..|s|] == s;
  }

  /** No number on the board is negative. */
  predicate NonNegativeTiles(b: Board) {
    forall k :: 0 <= k < 9 ==> b[k] >= 0
  }

  /** Every unexplored node's distance is at most the moved-tile weight of the path printed for it. */
  ghost predicate Underestimates(nodes: seq<Node>) {
    forall i :: 0 <= i < |nodes| && !nodes[i].explored ==> nodes[i].dist <= PathWeight(PathTo(nodes, i))
  }

  /** Every distance is at least the sentinel, as once the search selects an explored node. */
  ghost predicate Saturated(nodes: seq<Node>) {
    forall i :: 0 <= i < |nodes| ==> nodes[i].dist >= IntMax
  }

  /** From a start with no negative number, the arena underestimates path weights or has saturated. */
  ghost predicate CostInv(nodes: seq<Node>, root: Board) {
    NonNegativeTiles(root) ==> Underestimates(nodes) || Saturated(nodes)
  }

  /** A reported cost is at most the moved-tile weight of the printed path, unless it has reached the sentinel. */
  predicate Priced(o: Outcome) {
    o.Found? ==> o.cost <= PathWeight(o.path) || o.cost >= IntMax
  }

  /** The path printed for a child appended to the arena weighs its parent's path plus the tile it moved. */
  lemma ChildWeight(nodes: seq<Node>, r: seq<Node>, root: Board, goal: Board, m: nat, k: nat)
    requires ArenaOk(nodes, root) && Extends(nodes, r) && m < |nodes| <= k < |r|
    requires ChildOf(nodes[m], m, r[k], goal)
    ensures PathWeight(PathTo(r, k)) == PathWeight(PathTo(nodes, m)) + r[k].level
  {
    assert LinkOk(nodes, m);
    PathToFrame(nodes, r, m);
    assert PathTo(r, k) == PathTo(r, m) + [r[k].mat];
    PathWeightAppend(PathTo(r, m), r[k].mat);
    MovedTileOfSlide(nodes[m].mat, nodes[m].x, nodes[m].y, r[k].x, r[k].y);
  }

  /** With no negative number on p's board, expanding p keeps every distance at or above a floor p is at. */
  lemma {:induction false} ExpandFloor(nodes: seq<Node>, p: Node, m: nat, goal: Board, d: nat, floor: int)
    requires m < |nodes| && d <= 4 && NonNegativeTiles(p.mat) && p.dist >= floor
    requires forall k :: 0 <= k < |nodes| ==> nodes[k].dist >= floor
    ensures forall k :: 0 <= k < |Expand(nodes, p, m, goal, d)| ==> Expand(nodes, p, m, goal, d)[k].dist >= floor
    decreases 4 - d
  {
    if d < 4 {
      var next := Visit(nodes, p, m, goal, d);
      if IsSafe(p.x + Row[d], p.y + Col[d]) {
        var c := Child(p, m, d, goal);
        assert c.dist >= floor;
        assert forall k :: 0 <= k < |next| ==> next[k].dist >= floor;
      }
      ExpandFloor(next, p, m, goal, d + 1, floor);
    }
  }

  /** Every board in an arena grown from a start with no negative number has none either. */
  lemma ArenaNonNegative(nodes: seq<Node>, root: Board, i: nat)
    requires ArenaOk(nodes, root) && i < |nodes| && NonNegativeTiles(root)
    ensures NonNegativeTiles(nodes[i].mat)
  {
    ArenaTiles(nodes, root, i);
    forall k | 0 <= k < 9 ensures nodes[i].mat[k] >= 0 {
      assert nodes[i].mat[k] in multiset(root);
    }
  }

  /**
   * An iteration keeps CostInv: expanding an unexplored node adds the moved
   * tile to both sides and relaxation only lowers distances; reselecting an
   * explored node means every distance is at the sentinel already.
   */
  lemma StepKeepsCostInv(nodes: seq<Node>, root: Board, goal: Board, m: nat)
    requires Inv(nodes, root, goal) && CostInv(nodes, root) && m == FirstMin(nodes)
    ensures CostInv(Step(MarkExplored(nodes, m), m, goal), root)
  {
    if NonNegativeTiles(root) {
      var marked := MarkExplored(nodes, m);
      var r := Step(marked, m, goal);
      assert NodeOk(nodes, m, goal);
      if nodes[m].explored || Saturated(nodes) {
        FirstMinIsFirstLeast(nodes);
        assert Saturated(nodes);
        ArenaNonNegative(nodes, root, m);
        ExpandFloor(marked, marked[m], m, goal, 0, IntMax);
        assert Saturated(r);
      } else {
        StepEffect(nodes, goal, m);
        forall k | 0 <= k < |nodes| ensures SameShape(nodes[k], r[k]) {
          if k != m {
            assert DistKept(nodes, r, k);
          }
        }
        forall i | 0 <= i < |r| && !r[i].explored ensures r[i].dist <= PathWeight(PathTo(r, i)) {
          if i < |nodes| {
            assert DistKept(nodes, r, i);
            PathToFrame(nodes, r, i);
          } else {
            assert ChildOf(nodes[m], m, r[i], goal);
            ChildWeight(nodes, r, root, goal, m, i);
          }
        }
        assert Underestimates(r);
      }
    }
  }

  /** An iteration that selects a zero-cost node answers soundly, at a cost CostInv bounds. */
  lemma RunFound(nodes: seq<Node>, root: Board, goal: Board, fuel: nat)
    requires Inv(nodes, root, goal) && CostInv(nodes, root) && fuel > 0 && nodes[FirstMin(nodes)].cost == 0
    ensures Sound(Run(nodes, goal, fuel), root, goal)
    ensures NonNegativeTiles(root) ==> Priced(Run(nodes, goal, fuel))
  {
    var m := FirstMin(nodes);
    var marked := MarkExplored(nodes, m);
    assert NodeOk(nodes, m, goal);
    UpdateExtends(nodes, m, nodes[m].(explored := true));
    ArenaOkGrow(nodes, marked, root, m);
    PathToSolves(marked, root, goal, m);
    PathToFrame(nodes, marked, m);
  }

  /** An iteration that selects a node of non-zero cost continues from an arena satisfying the invariant. */
  lemma RunContinues(nodes: seq<Node>, root: Board, goal: Board, fuel: nat) returns (next: seq<Node>)
    requires Inv(nodes, root, goal) && CostInv(nodes, root) && fuel > 0 && nodes[FirstMin(nodes)].cost != 0
    ensures |next| > 0 && Inv(next, root, goal) && CostInv(next, root)
    ensures Run(nodes, goal, fuel) == Run(next, goal, fuel - 1)
  {
    var m := FirstMin(nodes);
    next := Step(MarkExplored(nodes, m), m, goal);
    StepEffect(nodes, goal, m);
    StepKeepsInv(nodes, next, root, goal, m);
    StepKeepsCostInv(nodes, root, goal, m);
  }

  /**
   * Every reported answer is a path of slides from the initial board to a
   * zero-cost board; from a start with no negative number, its cost is at
   * most the path's moved-tile weight unless it has reached the sentinel.
   */
  lemma {:induction false} RunSound(nodes: seq<Node>, root: Board, goal: Board, fuel: nat)
    requires Inv(nodes, root, goal) && CostInv(nodes, root)
    ensures Sound(Run(nodes, goal, fuel), root, goal)
    ensures NonNegativeTiles(root) ==> Priced(Run(nodes, goal, fuel))
    decreases fuel, 1
  {
    if fuel > 0 {
      RunSoundSucc(nodes, root, goal, fuel - 1);
    }
  }

  /** RunSound for a positive number of iterations, written f + 1. */
  lemma {:induction false} RunSoundSucc(nodes: seq<Node>, root: Board, goal: Board, f: nat)
    requires Inv(nodes, root, goal) && CostInv(nodes, root)
    ensures Sound(Run(nodes, goal, f + 1), root, goal)
    ensures NonNegativeTiles(root) ==> Priced(Run(nodes, goal, f + 1))
    decreases f + 1, 0
  {
    if nodes[FirstMin(nodes)].cost == 0 {
      RunFound(nodes, root, goal, f + 1);
    } else {
      var next := RunContinues(nodes, root, goal, f + 1);
      RunSound(next, root, goal, f);
    }
  }

  /** The invariants hold of the one-node arena holding the root. */
  lemma RootInv(initial: Board, x: Coord, y: Coord, goal: Board)
    requires initial[Idx(x, y)] == 0
    ensures Inv([Root(initial, x, y, goal)], initial, goal)
    ensures CostInv([Root(initial, x, y, goal)], initial)
  {
    var nodes := [Root(initial, x, y, goal)];
    assert LinkOk(nodes, 0);
  }

  /** A start that already solves the puzzle is reported at once, as a one-board path of cost 0. */
  lemma SolvedStartFound(initial: Board, x: Coord, y: Coord, goal: Board, fuel: nat)
    requires initial[Idx(x, y)] == 0 && Cost(initial, goal) == 0 && fuel > 0
    ensures Run([Root(initial, x, y, goal)], goal, fuel) == Found([initial], 0)
  {
    var nodes := [Root(initial, x, y, goal)];
    assert FirstMin(nodes) == 0;
    assert PathTo(MarkExplored(nodes, 0), 0) == [initial];
  }

  /** The reconciliation of one child with the arena, by the duplicate scan. */
  method Reconcile(pqv: seq<Node>, child: Node) returns (r: seq<Node>)
    ensures r == Relax(pqv, child)
  {
    var j := FindDuplicate(pqv, child);
    if j != |pqv| {
      if child.dist < pqv[j].dist {
        r := pqv[j := pqv[j].(dist := child.dist)];
      } else {
        r := pqv;
      }
    } else {
      r := pqv + [child];
    }
  }

  /** The inner loop over the four directions, building each safe child as solve_Dijkstra does. */
  method ExpandAll(pqv: seq<Node>, min: Node, m: nat, final: Board) returns (r: seq<Node>)
    requires m < |pqv|
    ensures r == Expand(pqv, min, m, final, 0)
  {
    r := pqv;
    for i := 0 to 4
      invariant m < |r|
      invariant Expand(r, min, m, final, i) == Expand(pqv, min, m, final, 0)
    {
      ExpandUnfold(r, min, m, final, i);
      VisitCases(r, min, m, final, i);
      var nx, ny := min.x + Row[i], min.y + Col[i];
      if IsSafe(nx, ny) {
        var child := MakeChild(min, m, i, nx, ny, final);
        r := Reconcile(r, child);
      }
    }
  }

  /** Expanding from direction d is visiting d and expanding from d + 1. */
  lemma ExpandUnfold(nodes: seq<Node>, p: Node, m: nat, goal: Board, d: nat)
    requires m < |nodes| && d < 4
    ensures Expand(nodes, p, m, goal, d) == Expand(Visit(nodes, p, m, goal, d), p, m, goal, d + 1)
  {
  }

  /** A visit reconciles the child in direction d when that cell is on the board, and changes nothing otherwise. */
  lemma VisitCases(nodes: seq<Node>, p: Node, m: nat, goal: Board, d: nat)
    requires d < 4
    ensures Visit(nodes, p, m, goal, d) ==
      if IsSafe(p.x + Row[d], p.y + Col[d]) then Relax(nodes, Child(p, m, d, goal)) else nodes
  {
  }

  /** A child as solve_Dijkstra builds it: newNode, then its cost, then its distance through the moved tile. */
  method MakeChild(min: Node, m: nat, d: nat, nx: Coord, ny: Coord, final: Board) returns (child: Node)
    requires d < 4 && nx == min.x + Row[d] && ny == min.y + Col[d]
    ensures child == Child(min, m, d, final)
  {
    child := NewNode(min.mat, min.x, min.y, nx, ny, min.mat[Idx(nx, ny)], 0, Some(m));
    var cc := CalculateCost(child.mat, final);
    child := child.(cost := cc);
    child := child.(dist := min.dist + child.level);
  }

  /** One unfolding of the search with f + 1 iterations left. */
  lemma RunHead(nodes: seq<Node>, goal: Board, f: nat)
    requires |nodes| > 0
    ensures var m := FirstMin(nodes);
      var marked := MarkExplored(nodes, m);
      Run(nodes, goal, f + 1) ==
        if marked[m].cost == 0 then Found(PathTo(marked, m), marked[m].dist) else Run(Step(marked, m, goal), goal, f)
  {
  }

  /**
   * Uniform-cost search from `initial` (blank at (x, y)) towards `final`,
   * for at most `fuel` iterations of the outer loop.
   */
  method SolveDijkstra(initial: Board, x: Coord, y: Coord, final: Board, fuel: nat) returns (outcome: Outcome)
    requires initial[Idx(x, y)] == 0
    ensures outcome == Run([Root(initial, x, y, final)], final, fuel)
    ensures outcome.Found? ==> ValidSolution(outcome.path, initial, final)
    ensures outcome.Found? && multiset(initial) == multiset(final) ==> outcome.path[|outcome.path| - 1] == final
    ensures outcome.Found? && NonNegativeTiles(initial) ==>
              outcome.cost <= PathWeight(outcome.path) || outcome.cost >= IntMax
  {
    var root1 := NewNode(initial, x, y, x, y, 0, 0, None);
    var c := CalculateCost(initial, final);
    root1 := root1.(cost := c);
    assert root1.mat == initial;
    assert root1 == Root(initial, x, y, final);
    RootInv(initial, x, y, final);
    RunSound([root1], initial, final, fuel);
    ghost var o := Run([root1], final, fuel);
    var pqv := [root1];
    var steps := 0;
    while steps < fuel
      invariant steps <= fuel
      invariant |pqv| > 0
      invariant Run(pqv, final, fuel - steps) == o
    {
      ghost var left := fuel - steps - 1;
      ghost var selected := pqv;
      RunHead(selected, final, left);
      var m := MinElement(pqv);
      pqv := pqv[m := pqv[m].(explored := true)];
      ghost var marked := pqv;
      assert marked == MarkExplored(selected, m);
      var min := pqv[m];
      if min.cost == 0 {
        return Found(PathTo(pqv, m), min.dist);
      }
      pqv := ExpandAll(pqv, min, m, final);
      pqv := pqv[m := pqv[m].(dist := IntMax)];
      assert pqv == Step(marked, m, final);
      steps := steps + 1;
    }
    return OutOfFuel;
  }
}
