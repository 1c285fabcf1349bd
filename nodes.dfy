/**
 * Search nodes of the state-space tree, their construction, comparison,
 * and the reconstruction of the path from the root to a node.
 *
 * Every strategy keeps the nodes it creates in a growing sequence (an
 * arena); a node's parent is the index of its parent in that arena, so
 * the parent always sits before the child.
 */
module Nodes {
  import opened Grid

  datatype Option<T> = None | Some(value: T)

  /** The sentinel "infinite" distance, 2^31 - 1. */
  const IntMax := 2147483647

  /**
   * A node of the search tree. `level` is the number on the tile moved to
   * reach this board, `dist` the path metric (cumulative cost, or depth),
   * `cost` the number of misplaced tiles.
   */
  datatype Node = Node(
    parent: Option<nat>,
    explored: bool,
    visited: bool,
    mat: Board,
    x: Coord,
    y: Coord,
    cost: int,
    level: int,
    dist: int)

  /** The result of a search: the boards from the root to the goal and the reported cost. */
  datatype Outcome = Found(path: seq<Board>, cost: int) | OutOfFuel

  /**
   * A new node whose board is a copy of `mat` with the blank at (x, y)
   * slid to (newX, newY). The cost is left at a placeholder, as the caller
   * computes it.
   */
  function NewNode(mat: Board, x: Coord, y: Coord, newX: Coord, newY: Coord,
                   level: int, dist: int, parent: Option<nat>): (n: Node)
    ensures n.mat[Idx(newX, newY)] == mat[Idx(x, y)] && n.mat[Idx(x, y)] == mat[Idx(newX, newY)]
    ensures forall k :: 0 <= k < 9 && k != Idx(x, y) && k != Idx(newX, newY) ==> n.mat[k] == mat[k]
    ensures multiset(n.mat) == multiset(mat)
    ensures mat[Idx(x, y)] == 0 ==> n.mat[Idx(n.x, n.y)] == 0
    ensures n.x == newX && n.y == newY && n.parent == parent
    ensures n.level == level && n.dist == dist && n.cost == IntMax - 1
    ensures !n.explored && !n.visited
  {
    SwapFacts(mat, x, y, newX, newY);
    Node(parent, false, false, Swap(mat, x, y, newX, newY), newX, newY, IntMax - 1, level, dist)
  }

  /** The root: the initial board, distance 0, misplaced-tile cost computed. */
  function Root(initial: Board, x: Coord, y: Coord, goal: Board): (n: Node)
    requires initial[Idx(x, y)] == 0
    ensures n.mat == initial && n.parent == None && BlankAt(n) && n.dist == 0
    ensures n.cost == Cost(initial, goal) && !n.explored
  {
    Node(None, false, false, initial, x, y, Cost(initial, goal), 0, 0)
  }

  /** The blank of a node sits where its coordinates say. */
  predicate BlankAt(n: Node) {
    n.mat[Idx(n.x, n.y)] == 0
  }

  /** Node equality: a cell-by-cell scan of the two boards that stops at the first difference. */
  method NodeEquals(lhs: Node, rhs: Node) returns (eq: bool)
    ensures eq <==> lhs.mat == rhs.mat
  {
    for i := 0 to N
      invariant forall k :: 0 <= k < 3 * i ==> lhs.mat[k] == rhs.mat[k]
    {
      for j := 0 to N
        invariant forall k :: 0 <= k < 3 * i + j ==> lhs.mat[k] == rhs.mat[k]
      {
        if lhs.mat[Idx(i, j)] != rhs.mat[Idx(i, j)] {
          return false;
        }
      }
    }
    return true;
  }

  /** Two nodes hold the same board: every one of the nine cells matches. */
  function Comp(lhs: Node, rhs: Node): (r: bool)
    ensures r <==> forall i: Coord, j: Coord :: lhs.mat[Idx(i, j)] == rhs.mat[Idx(i, j)]
  {
    if lhs.mat == rhs.mat then true
    else
      var k :| 0 <= k < 9 && lhs.mat[k] != rhs.mat[k];
      assert lhs.mat[Idx(k / 3, k % 3)] != rhs.mat[Idx(k / 3, k % 3)];
      false
  }

  /** Board equality is an equivalence that ignores every field but the board. */
  lemma CompIsBoardEquivalence(a: Node, b: Node, c: Node)
    ensures Comp(a, a)
    ensures Comp(a, b) == Comp(b, a)
    ensures Comp(a, b) && Comp(b, c) ==> Comp(a, c)
    ensures Comp(a, b) <==> Comp(a.(parent := b.parent, explored := b.explored, visited := b.visited,
                                     x := b.x, y := b.y, cost := b.cost, level := b.level, dist := b.dist), b)
  {
  }

  /** The order used to pick the node of least distance. */
  function NodeComp(lhs: Node, rhs: Node): (r: bool)
  {
    lhs.dist < rhs.dist
  }

  /** NodeComp is a strict weak order, as min_element needs. */
  lemma NodeCompIsStrictWeakOrder(a: Node, b: Node, c: Node)
    ensures !NodeComp(a, a)
    ensures NodeComp(a, b) ==> !NodeComp(b, a)
    ensures NodeComp(a, b) && NodeComp(b, c) ==> NodeComp(a, c)
    ensures !NodeComp(a, b) && !NodeComp(b, a) && !NodeComp(b, c) && !NodeComp(c, b) ==>
              !NodeComp(a, c) && !NodeComp(c, a)
  {
  }

  // ----- the arena -----

  /**
   * The boards from the root of the parent chain down to node i. A parent
   * link that does not point to an earlier node ends the chain; in a
   * well-formed arena every link points backwards.
   */
  function PathTo(nodes: seq<Node>, i: nat): (path: seq<Board>)
    requires i < |nodes|
    ensures |path| >= 1 && path[|path| - 1] == nodes[i].mat
    decreases i
  {
    match nodes[i].parent
    case None => [nodes[i].mat]
    case Some(p) => if p < i then PathTo(nodes, p) + [nodes[i].mat] else [nodes[i].mat]
  }

  /** Node i has its blank where its coordinates say, and is the root (index 0) or one slide of its parent's blank. */
  ghost predicate LinkOk(nodes: seq<Node>, i: nat)
    requires i < |nodes|
  {
    && BlankAt(nodes[i])
    && match nodes[i].parent
       case None => i == 0
       case Some(p) =>
         p < i && Adjacent(nodes[p].x, nodes[p].y, nodes[i].x, nodes[i].y) &&
         nodes[i].mat == Swap(nodes[p].mat, nodes[p].x, nodes[p].y, nodes[i].x, nodes[i].y)
  }

  /** The shape every strategy keeps: a tree rooted at index 0 whose edges are single slides. */
  ghost predicate ArenaOk(nodes: seq<Node>, root: Board) {
    && |nodes| > 0
    && nodes[0].mat == root
    && forall i :: 0 <= i < |nodes| ==> LinkOk(nodes, i)
  }

  /** The fields that the arena shape depends on are the same. */
  ghost predicate SameShape(a: Node, b: Node) {
    a.parent == b.parent && a.mat == b.mat && a.x == b.x && a.y == b.y
  }

  /** b keeps every node of a in shape and may have more after them. */
  ghost predicate Extends(a: seq<Node>, b: seq<Node>) {
    |a| <= |b| && forall k :: 0 <= k < |a| ==> SameShape(a[k], b[k])
  }

  /** A path solves the puzzle: it starts at the root, ends at a zero-cost board, one slide per step. */
  ghost predicate ValidSolution(path: seq<Board>, root: Board, goal: Board) {
    && |path| >= 1
    && path[0] == root
    && Cost(path[|path| - 1], goal) == 0
    && forall k :: 0 <= k < |path| - 1 ==> OneMoveApart(path[k], path[k + 1])
  }

  /** A reported answer is a path of slides from the root to a zero-cost board, and ends at the goal when the tiles agree. */
  ghost predicate Sound(o: Outcome, root: Board, goal: Board) {
    o.Found? ==>
      && ValidSolution(o.path, root, goal)
      && (multiset(root) == multiset(goal) ==> o.path[|o.path| - 1] == goal)
  }

  /** Reconstruction only reads parents and boards, so it survives changes to the other fields and appends. */
  lemma {:induction false} PathToFrame(a: seq<Node>, b: seq<Node>, i: nat)
    requires Extends(a, b) && i < |a|
    ensures PathTo(a, i) == PathTo(b, i)
    decreases i
  {
    assert SameShape(a[i], b[i]);
    match a[i].parent
    case None =>
    case Some(p) => if p < i { PathToFrame(a, b, p); }
  }

  /**
   * Changing fields other than the shape, and appending children of node m,
   * keeps the arena well formed.
   */
  lemma ArenaOkGrow(a: seq<Node>, b: seq<Node>, root: Board, m: nat)
    requires ArenaOk(a, root) && Extends(a, b) && m < |a|
    requires forall k :: |a| <= k < |b| ==>
               b[k].parent == Some(m) && Adjacent(a[m].x, a[m].y, b[k].x, b[k].y) &&
               b[k].mat == Swap(a[m].mat, a[m].x, a[m].y, b[k].x, b[k].y)
    ensures ArenaOk(b, root)
  {
    assert SameShape(a[0], b[0]) && SameShape(a[m], b[m]);
    assert LinkOk(a, m);
    forall i | 0 <= i < |b| ensures LinkOk(b, i) {
      if i < |a| {
        assert SameShape(a[i], b[i]) && LinkOk(a, i);
        if a[i].parent.Some? {
          assert SameShape(a[a[i].parent.value], b[a[i].parent.value]);
        }
      }
    }
  }

  /** The arena with node m marked explored. */
  function MarkExplored(nodes: seq<Node>, m: nat): (r: seq<Node>)
    requires m < |nodes|
  {
    nodes[m := nodes[m].(explored := true)]
  }

  /** The arena with the distance of node m set to d. */
  function SetDist(nodes: seq<Node>, m: nat, d: int): (r: seq<Node>)
    requires m < |nodes|
  {
    nodes[m := nodes[m].(dist := d)]
  }

  /** Replacing one node by one of the same shape keeps the arena's shape, in both directions. */
  lemma UpdateExtends(nodes: seq<Node>, m: nat, n: Node)
    requires m < |nodes| && SameShape(nodes[m], n)
    ensures Extends(nodes, nodes[m := n]) && Extends(nodes[m := n], nodes)
  {
  }

  /** Two nodes agree on every field except possibly the distance. */
  predicate SameButDist(a: Node, b: Node) {
    && a.parent == b.parent && a.explored == b.explored && a.visited == b.visited
    && a.mat == b.mat && a.x == b.x && a.y == b.y && a.cost == b.cost && a.level == b.level
  }

  /** Node k of b is node k of a, with the distance changed only if a's node is unexplored. */
  ghost predicate DistKept(a: seq<Node>, b: seq<Node>, k: nat)
    requires k < |a| && k < |b|
  {
    SameButDist(a[k], b[k]) && (a[k].explored ==> b[k].dist == a[k].dist)
  }

  /** b differs from a at most in the distances of unexplored nodes, and may have more nodes after them. */
  ghost predicate DistOnly(a: seq<Node>, b: seq<Node>) {
    |a| <= |b| && forall k :: 0 <= k < |a| ==> DistKept(a, b, k)
  }

  lemma DistOnlyTrans(a: seq<Node>, b: seq<Node>, c: seq<Node>)
    requires DistOnly(a, b) && DistOnly(b, c)
    ensures DistOnly(a, c)
  {
    forall k | 0 <= k < |a| ensures DistKept(a, c, k) {
      assert DistKept(a, b, k) && DistKept(b, c, k);
    }
  }

  /** Every board of a well-formed arena holds the root's tiles. */
  lemma {:induction false} ArenaTiles(nodes: seq<Node>, root: Board, i: nat)
    requires ArenaOk(nodes, root) && i < |nodes|
    ensures multiset(nodes[i].mat) == multiset(root)
    decreases i
  {
    assert LinkOk(nodes, i);
    match nodes[i].parent
    case None =>
    case Some(p) =>
      SwapFacts(nodes[p].mat, nodes[p].x, nodes[p].y, nodes[i].x, nodes[i].y);
      ArenaTiles(nodes, root, p);
  }

  /** Reconstruction yields a solution path: root first, one slide per step, node i last. */
  lemma {:induction false} PathToIsMoves(nodes: seq<Node>, root: Board, i: nat)
    requires ArenaOk(nodes, root) && i < |nodes|
    ensures PathTo(nodes, i)[0] == root
    ensures forall k :: 0 <= k < |PathTo(nodes, i)| - 1 ==> OneMoveApart(PathTo(nodes, i)[k], PathTo(nodes, i)[k + 1])
    decreases i
  {
    assert LinkOk(nodes, i);
    match nodes[i].parent
    case None =>
    case Some(p) =>
      PathToIsMoves(nodes, root, p);
      var n, q := nodes[i], nodes[p];
      assert BlankAt(q);
      assert OneMoveApart(q.mat, n.mat) by {
        assert q.mat[Idx(q.x, q.y)] == 0 && Adjacent(q.x, q.y, n.x, n.y) && n.mat == Swap(q.mat, q.x, q.y, n.x, n.y);
      }
      var pre := PathTo(nodes, p);
      assert PathTo(nodes, i) == pre + [n.mat];
      forall k | 0 <= k < |pre| ensures OneMoveApart((pre + [n.mat])[k], (pre + [n.mat])[k + 1]) {
        if k < |pre| - 1 {
          assert (pre + [n.mat])[k] == pre[k] && (pre + [n.mat])[k + 1] == pre[k + 1];
        } else {
          assert (pre + [n.mat])[k] == q.mat;
        }
      }
  }

  /** The path to a zero-cost node of a well-formed arena solves the puzzle. */
  lemma PathToSolves(nodes: seq<Node>, root: Board, goal: Board, i: nat)
    requires ArenaOk(nodes, root) && i < |nodes| && Cost(nodes[i].mat, goal) == 0
    ensures ValidSolution(PathTo(nodes, i), root, goal)
    ensures multiset(root) == multiset(goal) ==> PathTo(nodes, i)[|PathTo(nodes, i)| - 1] == goal
  {
    PathToIsMoves(nodes, root, i);
    if multiset(root) == multiset(goal) {
      ArenaTiles(nodes, root, i);
      CostZeroIffSolved(nodes[i].mat, goal);
    }
  }

  // ----- the duplicate scan shared by the two arena strategies -----

  /** The first unexplored node from index j on that holds board b, or |nodes| if there is none. */
  function FirstMatchFrom(nodes: seq<Node>, b: Board, j: nat): (r: nat)
    requires j <= |nodes|
    ensures j <= r <= |nodes|
    ensures r < |nodes| ==> nodes[r].mat == b && !nodes[r].explored
    decreases |nodes| - j
  {
    if j == |nodes| then j
    else if nodes[j].mat == b && !nodes[j].explored then j
    else FirstMatchFrom(nodes, b, j + 1)
  }

  /** The scan skips only nodes that are explored or hold another board. */
  lemma {:induction false} FirstMatchFromSkips(nodes: seq<Node>, b: Board, j: nat)
    requires j <= |nodes|
    ensures forall k :: j <= k < FirstMatchFrom(nodes, b, j) ==> nodes[k].mat != b || nodes[k].explored
    decreases |nodes| - j
  {
    if j < |nodes| && !(nodes[j].mat == b && !nodes[j].explored) {
      FirstMatchFromSkips(nodes, b, j + 1);
    }
  }

  /** The first unexplored node holding board b, or |nodes| if there is none. */
  function FirstMatch(nodes: seq<Node>, b: Board): (r: nat)
    ensures r <= |nodes|
    ensures r < |nodes| ==> nodes[r].mat == b && !nodes[r].explored
  {
    FirstMatchFrom(nodes, b, 0)
  }

  /** The linear scan for an unexplored duplicate of `child`, in insertion order. */
  method FindDuplicate(nodes: seq<Node>, child: Node) returns (j: nat)
    ensures j == FirstMatch(nodes, child.mat)
    ensures j < |nodes| ==> nodes[j].mat == child.mat && !nodes[j].explored
    ensures forall k :: 0 <= k < j ==> nodes[k].mat != child.mat || nodes[k].explored
  {
    FirstMatchFromSkips(nodes, child.mat, 0);
    j := 0;
    while j < |nodes|
      invariant j <= |nodes|
      invariant FirstMatchFrom(nodes, child.mat, j) == FirstMatch(nodes, child.mat)
    {
      var same := NodeEquals(child, nodes[j]);
      if same && !nodes[j].explored {
        break;
      }
      j := j + 1;
    }
  }
}
