/**
 * The depth-bounded strategy: a recursive descent from the root that tries
 * the four slides in table order, does not descend to a child whose depth
 * reaches the cutoff, stops descending at a goal, and keeps in one shared
 * slot the goal of least depth reached so far.
 *
 * The recursion stack is a sequence of nodes, root first, in which the
 * parent of each node is the one below it; so the stack is itself an arena
 * and the parent chain of the top is the whole stack.
 */
module Dfs {
  import opened Grid
  import opened Nodes

  /** A child is searched only if its depth is below this bound. */
  const Cutoff := 15

  /** The shared answer slot: the boards of its parent chain (root first), its distance and its board. */
  datatype Answer = Answer(trail: seq<Board>, dist: int, mat: Board)

  /** The boards printed for an answer: its parent chain, then its own board. */
  function Printed(a: Answer): seq<Board> {
    a.trail + [a.mat]
  }

  /** The slot before the search: no parent, the sentinel distance, the initial board. */
  function Empty(initial: Board): Answer {
    Answer([], IntMax, initial)
  }

  /** The node being searched: the top of the recursion stack. */
  function Top(stack: seq<Node>): Node
    requires |stack| > 0
  {
    stack[|stack| - 1]
  }

  /** The child of the top of the stack in direction d: one level deeper, with the top as its parent. */
  function Child(stack: seq<Node>, d: nat, goal: Board): (c: Node)
    requires |stack| > 0 && d < 4 && IsSafe(Top(stack).x + Row[d], Top(stack).y + Col[d])
    ensures c.parent == Some(|stack| - 1) && c.x == Top(stack).x + Row[d] && c.y == Top(stack).y + Col[d]
    ensures Adjacent(Top(stack).x, Top(stack).y, c.x, c.y)
    ensures c.mat == Swap(Top(stack).mat, Top(stack).x, Top(stack).y, c.x, c.y)
    ensures c.cost == Cost(c.mat, goal) && c.dist == Top(stack).dist + 1
  {
    var p := Top(stack);
    DirectionsAreAdjacent(p.x, p.y, d);
    var nx: Coord, ny: Coord := p.x + Row[d], p.y + Col[d];
    var b := Swap(p.mat, p.x, p.y, nx, ny);
    Node(Some(|stack| - 1), false, false, b, nx, ny, Cost(b, goal), 0, p.dist + 1)
  }

  /** What the slot receives from a goal on top of the stack: its parent chain, its distance and its board. */
  function Reached(stack: seq<Node>): Answer
    requires |stack| > 0
  {
    var n := Top(stack);
    var trail := if n.parent.Some? && n.parent.value < |stack| - 1 then PathTo(stack, n.parent.value) else [];
    Answer(trail, n.dist, n.mat)
  }

  /**
   * The goals the search reaches from the top of the stack, in the order it
   * reaches them: the top itself if it is a goal, and otherwise the goals
   * below each searched child, direction by direction.
   */
  function Goals(stack: seq<Node>, goal: Board): seq<Answer>
    requires |stack| > 0
    decreases Cutoff - Top(stack).dist, 5
  {
    if Top(stack).cost == 0 then [Reached(stack)]
    else GoalsFrom(stack, goal, 0)
  }

  /** The goals reached below the children of the top in directions d..3. */
  function GoalsFrom(stack: seq<Node>, goal: Board, d: nat): seq<Answer>
    requires |stack| > 0 && d <= 4
    decreases Cutoff - Top(stack).dist, 4 - d
  {
    if d == 4 then []
    else Below(stack, goal, d) + GoalsFrom(stack, goal, d + 1)
  }

  /** The goals reached below the child in direction d, if that child is on the board and above the cutoff. */
  function Below(stack: seq<Node>, goal: Board, d: nat): seq<Answer>
    requires |stack| > 0 && d < 4
    decreases Cutoff - Top(stack).dist, 0
  {
    var p := Top(stack);
    if IsSafe(p.x + Row[d], p.y + Col[d]) then
      var c := Child(stack, d, goal);
      assert Top(stack + [c]) == c;
      if c.dist < Cutoff then Goals(stack + [c], goal) else []
    else []
  }

  /** The slot after reaching goal g: replaced only by a strictly smaller distance. */
  function Improve(ans: Answer, g: Answer): Answer {
    if ans.dist > g.dist then g else ans
  }

  /** The slot after reaching the goals gs in order. */
  function Best(ans: Answer, gs: seq<Answer>): Answer
    decreases |gs|
  {
    if gs == [] then ans else Best(Improve(ans, gs[0]), gs[1..])
  }

  /** Reaching s and then t is reaching s + t. */
  lemma {:induction false} BestAppend(ans: Answer, s: seq<Answer>, t: seq<Answer>)
    ensures Best(ans, s + t) == Best(Best(ans, s), t)
    decreases |s|
  {
    if s != [] {
      assert (s + t)[0] == s[0] && (s + t)[1..] == s[1..] + t;
      BestAppend(Improve(ans, s[0]), s[1..], t);
    } else {
      assert s + t == t;
    }
  }

  /**
   * The slot never gets worse and ends at the least distance: it is the old
   * slot if no goal is strictly closer, and otherwise a goal of least
   * distance among those reached.
   */
  lemma {:induction false} BestIsLeast(ans: Answer, gs: seq<Answer>)
    ensures Best(ans, gs).dist <= ans.dist
    ensures forall i :: 0 <= i < |gs| ==> Best(ans, gs).dist <= gs[i].dist
    ensures Best(ans, gs) == ans || (Best(ans, gs) in gs && Best(ans, gs).dist < ans.dist)
    ensures (exists i :: 0 <= i < |gs| && gs[i].dist < ans.dist) ==> Best(ans, gs) in gs
    decreases |gs|
  {
    if gs != [] {
      var a := Improve(ans, gs[0]);
      BestIsLeast(a, gs[1..]);
      forall i | 0 <= i < |gs| ensures Best(ans, gs).dist <= gs[i].dist {
        if i > 0 {
          assert gs[i] == gs[1..][i - 1];
        }
      }
    }
  }

  /** The recursive function DFS: `ans` is the slot on entry and `best` the slot on return. */
  method Search(stack: seq<Node>, final: Board, ans: Answer) returns (best: Answer)
    requires |stack| > 0
    ensures best == Best(ans, Goals(stack, final))
    decreases Cutoff - Top(stack).dist
  {
    var min := stack[|stack| - 1];
    best := ans;
    if min.cost == 0 {
      if ans.dist > min.dist {
        var trail := [];
        if min.parent.Some? && min.parent.value < |stack| - 1 {
          trail := PathTo(stack, min.parent.value);
        }
        best := Answer(trail, min.dist, min.mat);
      }
    } else {
      for i := 0 to 4
        invariant Best(best, GoalsFrom(stack, final, i)) == Best(ans, Goals(stack, final))
      {
        BestAppend(best, Below(stack, final, i), GoalsFrom(stack, final, i + 1));
        var nx, ny := min.x + Row[i], min.y + Col[i];
        if IsSafe(nx, ny) {
          var child := MakeChild(stack, i, nx, ny, final);
          if child.dist < Cutoff {
            best := Search(stack + [child], final, best);
          }
        }
      }
    }
  }

  /** A child as DFS builds it: newNode, then its cost, then its depth. */
  method MakeChild(stack: seq<Node>, d: nat, nx: Coord, ny: Coord, final: Board) returns (child: Node)
    requires |stack| > 0 && d < 4 && nx == Top(stack).x + Row[d] && ny == Top(stack).y + Col[d]
    ensures child == Child(stack, d, final)
  {
    var min := stack[|stack| - 1];
    child := NewNode(min.mat, min.x, min.y, nx, ny, 0, 0, Some(|stack| - 1));
    var cc := CalculateCost(child.mat, final);
    child := child.(cost := cc);
    child := child.(dist := min.dist + 1);
  }

  // ----- what the reached goals are -----

  /** Node k of the stack sits at depth k on top of node k - 1, with its cost computed. */
  ghost predicate Layer(stack: seq<Node>, k: nat, goal: Board)
    requires k < |stack|
  {
    && stack[k].parent == (if k == 0 then None else Some(k - 1))
    && stack[k].dist == k
    && stack[k].cost == Cost(stack[k].mat, goal)
  }

  /** The recursion stack from the root: a chain of slides, no higher than the cutoff. */
  ghost predicate StackOk(stack: seq<Node>, root: Board, goal: Board) {
    && ArenaOk(stack, root)
    && |stack| <= Cutoff
    && forall k :: 0 <= k < |stack| ==> Layer(stack, k, goal)
  }

  /** A reached goal as printed: a solution path no longer than the cutoff, whose length is its distance. */
  ghost predicate GoalOk(g: Answer, root: Board, goal: Board) {
    && ValidSolution(Printed(g), root, goal)
    && g.dist == |Printed(g)| - 1
    && |Printed(g)| <= Cutoff
    && (multiset(root) == multiset(goal) ==> g.mat == goal)
  }

  /** On a well-formed stack the path to node k has k + 1 boards. */
  lemma {:induction false} PathToLength(stack: seq<Node>, root: Board, goal: Board, k: nat)
    requires StackOk(stack, root, goal) && k < |stack|
    ensures |PathTo(stack, k)| == k + 1
    decreases k
  {
    assert Layer(stack, k, goal);
    if k > 0 {
      PathToLength(stack, root, goal, k - 1);
    }
  }

  /** A goal on top of a well-formed stack fills the slot with its solution path. */
  lemma ReachedOk(stack: seq<Node>, root: Board, goal: Board)
    requires StackOk(stack, root, goal) && Top(stack).cost == 0
    ensures GoalOk(Reached(stack), root, goal)
  {
    var k := |stack| - 1;
    assert Layer(stack, k, goal);
    PathToSolves(stack, root, goal, k);
    PathToLength(stack, root, goal, k);
    assert Printed(Reached(stack)) == PathTo(stack, k);
  }

  /** Pushing a searched child keeps the stack well formed. */
  lemma PushOk(stack: seq<Node>, root: Board, goal: Board, d: nat)
    requires StackOk(stack, root, goal) && d < 4
    requires IsSafe(Top(stack).x + Row[d], Top(stack).y + Col[d]) && Top(stack).dist + 1 < Cutoff
    ensures StackOk(stack + [Child(stack, d, goal)], root, goal)
  {
    var c := Child(stack, d, goal);
    var s := stack + [c];
    var m := |stack| - 1;
    assert Layer(stack, m, goal);
    assert forall k :: 0 <= k < |stack| ==> s[k] == stack[k];
    ArenaOkGrow(stack, s, root, m);
    forall k | 0 <= k < |s| ensures Layer(s, k, goal) {
      if k < |stack| {
        assert Layer(stack, k, goal);
      }
    }
  }

  /** Every goal the search reaches from a well-formed stack is a solution path within the cutoff. */
  lemma {:induction false} GoalsOk(stack: seq<Node>, root: Board, goal: Board)
    requires StackOk(stack, root, goal)
    ensures forall g :: g in Goals(stack, goal) ==> GoalOk(g, root, goal)
    decreases Cutoff - Top(stack).dist, 5
  {
    if Top(stack).cost == 0 {
      ReachedOk(stack, root, goal);
    } else {
      GoalsFromOk(stack, root, goal, 0);
    }
  }

  /** GoalsOk for the children in directions d..3. */
  lemma {:induction false} GoalsFromOk(stack: seq<Node>, root: Board, goal: Board, d: nat)
    requires StackOk(stack, root, goal) && d <= 4
    ensures forall g :: g in GoalsFrom(stack, goal, d) ==> GoalOk(g, root, goal)
    decreases Cutoff - Top(stack).dist, 4 - d
  {
    if d < 4 {
      BelowOk(stack, root, goal, d);
      GoalsFromOk(stack, root, goal, d + 1);
    }
  }

  /** GoalsOk for the child in direction d. */
  lemma {:induction false} BelowOk(stack: seq<Node>, root: Board, goal: Board, d: nat)
    requires StackOk(stack, root, goal) && d < 4
    ensures forall g :: g in Below(stack, goal, d) ==> GoalOk(g, root, goal)
    decreases Cutoff - Top(stack).dist, 0
  {
    var p := Top(stack);
    if IsSafe(p.x + Row[d], p.y + Col[d]) && p.dist + 1 < Cutoff {
      var c := Child(stack, d, goal);
      PushOk(stack, root, goal, d);
      assert Top(stack + [c]) == c;
      GoalsOk(stack + [c], root, goal);
    }
  }

  /** The stack holding only the root is well formed. */
  lemma RootOk(initial: Board, x: Coord, y: Coord, goal: Board)
    requires initial[Idx(x, y)] == 0
    ensures StackOk([Root(initial, x, y, goal)], initial, goal)
  {
    var s := [Root(initial, x, y, goal)];
    assert LinkOk(s, 0) && Layer(s, 0, goal);
  }

  /** A start that already solves the puzzle is the only goal reached, at distance 0. */
  lemma SolvedStartFound(initial: Board, x: Coord, y: Coord, goal: Board)
    requires initial[Idx(x, y)] == 0 && Cost(initial, goal) == 0
    ensures Goals([Root(initial, x, y, goal)], goal) == [Answer([], 0, initial)]
    ensures Printed(Best(Empty(initial), Goals([Root(initial, x, y, goal)], goal))) == [initial]
  {
  }

  /**
   * The depth-bounded search from `initial` (blank at (x, y)) towards
   * `final`: the printed path and cost. With the sentinel cost no goal was
   * reached and the path is the initial board alone; otherwise the path is
   * a solution of at most 14 moves, its cost is its number of moves, and no
   * reached goal is closer.
   */
  method SolveDfs(initial: Board, x: Coord, y: Coord, final: Board) returns (path: seq<Board>, cost: int)
    requires initial[Idx(x, y)] == 0
    ensures var best := Best(Empty(initial), Goals([Root(initial, x, y, final)], final));
      path == Printed(best) && cost == best.dist
    ensures (cost == IntMax) <==> Goals([Root(initial, x, y, final)], final) == []
    ensures cost == IntMax ==> path == [initial]
    ensures cost != IntMax ==> ValidSolution(path, initial, final) && cost == |path| - 1 && |path| <= Cutoff
    ensures cost != IntMax && multiset(initial) == multiset(final) ==> path[|path| - 1] == final
    ensures forall g :: g in Goals([Root(initial, x, y, final)], final) ==> cost <= g.dist
  {
    var root1 := NewNode(initial, x, y, x, y, 0, 0, None);
    var c := CalculateCost(initial, final);
    root1 := root1.(cost := c);
    var temp := NewNode(initial, x, y, x, y, 0, IntMax, None);
    assert root1.mat == initial && temp.mat == initial;
    assert root1 == Root(initial, x, y, final);
    var best := Search([root1], final, Answer([], temp.dist, temp.mat));
    path, cost := Printed(best), best.dist;
    ghost var gs := Goals([root1], final);
    RootOk(initial, x, y, final);
    GoalsOk([root1], initial, final);
    BestIsLeast(Empty(initial), gs);
    if gs != [] {
      assert GoalOk(gs[0], initial, final);
    }
    if best != Empty(initial) {
      assert GoalOk(best, initial, final);
    }
  }
}
