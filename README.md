# 8-puzzle state-space search, modelled in Dafny

This project models the search core of `8_puzzle_problem.cpp`. That program solves
the 3x3 sliding-tile puzzle with three strategies:

- a Dijkstra-style search, whose edge weight is the number on the moved tile;
- a breadth-first search over an insertion-ordered queue;
- a depth-first search cut off at depth 15.

All three share the search node, the misplaced-tile cost, the two direction
tables, the bounds test and path printing. The Dijkstra-style and breadth-first
searches also share board equality and the linear duplicate scan. The
depth-first search uses neither: it never compares boards.

How the model represents the program:

- A board is nine integers in row-major order. Cell (i, j) is at index 3i + j, and 0 is the blank.
- The program's heap-allocated `Node*` objects become an arena: a growing sequence of `Node` values.
- A node's parent pointer is the index of its parent in that arena.
- `printPath` becomes `Nodes.PathTo`, the sequence of boards from the root to a node.
  - The two loop searches report a `Found(path, cost)` outcome.
  - The depth-first search returns the printed boards and the printed cost.
- The Dijkstra-style and breadth-first outer loops are methods. Each is proved equal to a recursive specification function, `Run`.
- The depth-first search has no loop. It is the recursive method `Dfs.Search`, proved equal to the functions `Goals` (the goals it reaches, in order) and `Best` (the answer slot it leaves).
- What the program promises is proved about those functions:
  - every reported path starts at the initial board;
  - it moves the blank one cell per step;
  - it ends at a zero-cost board, which is the goal whenever the tiles agree;
  - the breadth-first cost is the number of moves, for boards with a single blank;
  - the Dijkstra cost is at most the summed moved tiles of the printed path, for boards with no negative number, unless it has reached `INT_MAX`;
  - the depth-first answer is the least deep goal reached within the cutoff.

Files:

- `grid.dfy`: boards, directions, the cost.
- `nodes.dfy`: nodes, equality, the arena and path reconstruction.
- `dijkstra.dfy`, `bfs.dfy`, `dfs.dfy`: one file per strategy.

## Model

| member | source | states |
|---|---|---|
| Grid.DirectionsAreAdjacent | 8_puzzle_problem.cpp:82-84 | the tables have four entries, and each entry moves from a cell to a neighbour sharing a side |
| Grid.MoveIndexOf | 8_puzzle_problem.cpp:82-84 | the four entries are distinct moves (down, left, up, right): the move of entry d identifies d |
| Grid.IsSafe | 8_puzzle_problem.cpp:99-102 | no contract; its definition is isSafe's test that both coordinates lie in 0..2 |
| Grid.SomeMoveIsSafe | 8_puzzle_problem.cpp:98-102 | from every cell of the board at least one of the four moves stays on the board |
| Grid.SafeMovesBounds | 8_puzzle_problem.cpp:98-102 | every cell has two, three or four moves for which isSafe holds, so an expansion makes 2 to 4 children |
| Grid.Cost | 8_puzzle_problem.cpp:86-96 | the misplaced-tile count never exceeds nine |
| Grid.CostIsCount | 8_puzzle_problem.cpp:86-96 | the cost is the number of cells whose tile is non-blank and differs from the goal's tile there |
| Grid.CalculateCost | 8_puzzle_problem.cpp:88-96 | the nested row/column scan returns exactly that count |
| Grid.CostSelf | 8_puzzle_problem.cpp:88-96 | a board measured against itself has cost 0 |
| Grid.CostWithBlank | 8_puzzle_problem.cpp:88-96 | a board with a blank has at most eight misplaced tiles |
| Grid.CostZeroIffSolved | 8_puzzle_problem.cpp:88-96 | for two boards holding the same tiles, cost 0 holds exactly when the board is the goal, so the `cost == 0` stop tests mean "goal reached" |
| Grid.Swap | 8_puzzle_problem.cpp:68 | the two exchanged cells receive each other's tiles |
| Grid.SwapFacts | 8_puzzle_problem.cpp:66-68 | copying and then swapping leaves the other seven cells alone and keeps the multiset of tiles |
| Grid.SwapTwice | 8_puzzle_problem.cpp:68 | sliding the tile back restores the original board |
| Grid.SwapKeepsPermutation | 8_puzzle_problem.cpp:68 | a board holding 0..8 once each still does after a slide |
| Grid.PermutationHasUniqueBlank | 8_puzzle_problem.cpp:3 | a solvable instance (0..8 once each) has exactly one blank |
| Grid.BlankIsUnique | 8_puzzle_problem.cpp:27-28 | with a single blank, the blank's cell is determined by the board |
| Grid.SwapMovesBlank | 8_puzzle_problem.cpp:68-77 | sliding the blank to (newX, newY) leaves the blank exactly at the node's new coordinates |
| Grid.MovedTile | 8_puzzle_problem.cpp:166 | no contract; the number a board shows where the previous board had a blank |
| Grid.MovedTileOfSlide | 8_puzzle_problem.cpp:166 | for one slide of the blank, that number is the tile at the blank's destination, which is the child's level |
| Nodes.NewNode | 8_puzzle_problem.cpp:59-80 | the new board is the parent board with the two cells swapped and all else kept; parent, level, dist and the new blank coordinates are as passed; cost is the placeholder INT_MAX - 1; both flags are false |
| Nodes.Root | 8_puzzle_problem.cpp:137-138 | the root holds the initial board, has no parent, has distance 0 and its blank at (x, y), and carries the computed misplaced-tile cost |
| Nodes.NodeEquals | 8_puzzle_problem.cpp:36-44 | the cell-by-cell scan with early exit answers true exactly when the two boards are equal |
| Nodes.Comp | 8_puzzle_problem.cpp:116-119 | comp holds exactly when all nine cells (i, j) of the two nodes match |
| Nodes.CompIsBoardEquivalence | 8_puzzle_problem.cpp:116-119 | comp is reflexive, symmetric and transitive, and ignores every field but the board |
| Nodes.NodeComp | 8_puzzle_problem.cpp:122-125 | no contract; its definition is nodecomp's comparison of the two distances |
| Nodes.NodeCompIsStrictWeakOrder | 8_puzzle_problem.cpp:122-125 | nodecomp is irreflexive, asymmetric and transitive, and its incomparability is transitive, as min_element requires |
| Nodes.PathTo | 8_puzzle_problem.cpp:105-113 | the printed sequence is never empty and ends with the node's own board (printed last) |
| Nodes.PathToFrame | 8_puzzle_problem.cpp:105-113 | printing reads only parent links and boards, so it is unchanged by flag and distance updates and by appending nodes |
| Nodes.PathToIsMoves | 8_puzzle_problem.cpp:105-113 | in a well-formed tree the printed sequence starts at the root's board and each board is one blank slide from the one before |
| Nodes.PathToSolves | 8_puzzle_problem.cpp:105-113 | the path printed for a zero-cost node is a solution, and it ends at the goal when root and goal hold the same tiles |
| Nodes.ArenaTiles | 8_puzzle_problem.cpp:66-68 | every node created by copy-and-swap holds the root's tiles |
| Nodes.MarkExplored | 8_puzzle_problem.cpp:148 | no contract; the arena with the selected node's explored flag set (also line 226) |
| Nodes.SetDist | 8_puzzle_problem.cpp:183 | no contract; the arena with one node's distance replaced (also lines 193 and 258) |
| Nodes.ArenaOkGrow | 8_puzzle_problem.cpp:186-189 | appending children of a node whose parent link is that node keeps the created nodes a tree of slides rooted at the first node |
| Nodes.FirstMatch | 8_puzzle_problem.cpp:171-177 | the scan's index is at most the size, and when smaller it marks an unexplored node with the child's board |
| Nodes.FirstMatchFromSkips | 8_puzzle_problem.cpp:171-177 | every node the scan passes is explored or holds a different board |
| Nodes.FindDuplicate | 8_puzzle_problem.cpp:171-177 | the while loop stops at the first unexplored node equal to the child, or at the size if there is none |
| Dijkstra.Child | 8_puzzle_problem.cpp:163-168 | the child is the parent's board with the blank slid in direction d; its cost is computed, its level is the moved tile and its distance is the parent's plus that tile |
| Dijkstra.MakeChild | 8_puzzle_problem.cpp:163-168 | newNode followed by the cost and distance assignments builds exactly that child |
| Dijkstra.Relax | 8_puzzle_problem.cpp:179-189 | reconciling a child adds at most one node |
| Dijkstra.RelaxFacts | 8_puzzle_problem.cpp:179-189 | distances only go down, only on unexplored nodes, and nothing else changes; a duplicate keeps the smaller of the two distances; a child without a duplicate is appended |
| Dijkstra.Reconcile | 8_puzzle_problem.cpp:171-189 | the duplicate scan followed by the relax-or-push branch computes Relax |
| Dijkstra.Visit | 8_puzzle_problem.cpp:161-190 | one pass of the direction loop adds at most one node: the child, reconciled, if its cell is on the board |
| Dijkstra.Expand | 8_puzzle_problem.cpp:159-192 | expanding from direction d adds at most one node per remaining direction |
| Dijkstra.SpawnedAppend | 8_puzzle_problem.cpp:159-189 | a child pushed for direction d, followed by children of later directions, keeps the children in table order |
| Dijkstra.ExpandFacts | 8_puzzle_problem.cpp:159-192 | an expansion only lowers distances of unexplored nodes, and appends children of the expanded node in table order |
| Dijkstra.ExpandAll | 8_puzzle_problem.cpp:159-192 | the loop over the four directions computes Expand from direction 0 |
| Dijkstra.FirstMin | 8_puzzle_problem.cpp:145 | the selected index is in range |
| Dijkstra.FirstMinIsFirstLeast | 8_puzzle_problem.cpp:145 | the selected node has the least distance, and every earlier node has a strictly larger one (min_element returns the first minimum) |
| Dijkstra.FirstMinUnique | 8_puzzle_problem.cpp:145 | an index with both of those properties is the selected one |
| Dijkstra.MinElement | 8_puzzle_problem.cpp:145 | the linear scan with nodecomp returns the first node of least distance |
| Dijkstra.Step | 8_puzzle_problem.cpp:158-193 | an iteration never shrinks the node collection |
| Dijkstra.Run | 8_puzzle_problem.cpp:142-194 | no contract; the specification of the loop: select the first least node, mark it, stop with its path and distance if its cost is 0, otherwise expand and retire it; OutOfFuel once the iterations run out |
| Dijkstra.StepEffect | 8_puzzle_problem.cpp:148-193 | after marking, expanding and setting the distance to INT_MAX, the selected node is explored and retired, other nodes only had their distances lowered, and the new nodes are its children in the table order down, left, up, right |
| Dijkstra.StepKeepsInv | 8_puzzle_problem.cpp:142-194 | such an iteration keeps the invariant: a tree of slides, costs computed, weights equal to the moved tile, explored nodes retired |
| Dijkstra.PathWeight | 8_puzzle_problem.cpp:166-168 | no contract; the sum of the moved tiles along a printed path, the quantity that dist adds up edge by edge |
| Dijkstra.PathWeightAppend | 8_puzzle_problem.cpp:166-168 | a path's moved-tile weight grows by the tile moved in each added step, as dist grows by level |
| Dijkstra.ChildWeight | 8_puzzle_problem.cpp:163-168 | the path printed for an appended child weighs its parent's path plus the child's level |
| Dijkstra.ExpandFloor | 8_puzzle_problem.cpp:159-189 | with no negative tile, expanding a node at or above a distance floor keeps every distance at or above it |
| Dijkstra.ArenaNonNegative | 8_puzzle_problem.cpp:66-68 | boards made by copy-and-swap from a start with no negative number have none either |
| Dijkstra.StepKeepsCostInv | 8_puzzle_problem.cpp:145-193 | from a start with no negative number, an iteration keeps either every unexplored distance at most the weight of its printed path, or every distance at INT_MAX or more |
| Dijkstra.RootInv | 8_puzzle_problem.cpp:137-140 | the collection holding only the root satisfies the invariant and the cost bound |
| Dijkstra.RunFound | 8_puzzle_problem.cpp:150-156 | selecting a zero-cost node reports a sound answer; from a start with no negative number, its cost is at most its path's moved-tile weight or at least INT_MAX |
| Dijkstra.RunContinues | 8_puzzle_problem.cpp:142-194 | selecting any other node continues the loop from a collection that satisfies the invariant and the cost bound |
| Dijkstra.RunSound | 8_puzzle_problem.cpp:142-194 | every reported path starts at the initial board, moves the blank one cell per step, and ends at a zero-cost board, which is the goal whenever the tiles agree; from a start with no negative number, the reported cost is at most the path's moved-tile weight or at least INT_MAX |
| Dijkstra.SolvedStartFound | 8_puzzle_problem.cpp:150-156 | a start that is already solved is reported at once as the one-board path with cost 0 |
| Dijkstra.SolveDijkstra | 8_puzzle_problem.cpp:130-195 | the loop computes the specification Run; its answer is a solution path that ends at the goal whenever the tiles agree; from a start with no negative number, the printed cost is at most the summed moved tiles of the printed path, unless it is INT_MAX or more |
| Bfs.RootAsWritten | 8_puzzle_problem.cpp:207-208 | the root as written is queued and visited, with distance 0 and the placeholder cost INT_MAX - 1 |
| Bfs.BfsRoot | 8_puzzle_problem.cpp:207-208 | the corrected root is the same, but carries the computed misplaced-tile cost |
| Bfs.Child | 8_puzzle_problem.cpp:241-246 | the child is the parent's board with the blank slid in direction d; its cost is computed, its level is 0 and its distance is one more than the parent's |
| Bfs.MakeChild | 8_puzzle_problem.cpp:241-246 | newNode followed by the cost and distance assignments builds exactly that child |
| Bfs.Enqueue | 8_puzzle_problem.cpp:248-264 | reconciling a child adds at most one node |
| Bfs.EnqueueFacts | 8_puzzle_problem.cpp:256-264 | only the distance of an unexplored node may change; a duplicate takes the child's distance unconditionally and the size stays; otherwise the child is appended, marked visited |
| Bfs.Reconcile | 8_puzzle_problem.cpp:248-264 | the duplicate scan followed by the overwrite-or-push branch computes Enqueue |
| Bfs.Visit | 8_puzzle_problem.cpp:239-265 | one pass of the direction loop adds at most one node: the child, reconciled, if its cell is on the board |
| Bfs.Expand | 8_puzzle_problem.cpp:237-267 | expanding from direction d adds at most one node per remaining direction |
| Bfs.SpawnedAppend | 8_puzzle_problem.cpp:237-264 | a child pushed for direction d, followed by children of later directions, keeps the children in table order |
| Bfs.ExpandFacts | 8_puzzle_problem.cpp:237-267 | an expansion changes only distances of unexplored nodes, and appends only children of the expanded node, marked visited, at most one per direction, in the order down, left, up, right |
| Bfs.ExpandAll | 8_puzzle_problem.cpp:237-267 | the loop over the four directions computes Expand from direction 0 |
| Bfs.FirstUnexplored | 8_puzzle_problem.cpp:216-223 | the scan's index is at most the size |
| Bfs.FirstUnexploredIsLeast | 8_puzzle_problem.cpp:216-223 | no unexplored node comes before the one found |
| Bfs.Select | 8_puzzle_problem.cpp:215-223 | the selected index is in range |
| Bfs.SelectIsFirstUnexplored | 8_puzzle_problem.cpp:215-223 | every node before the selected one is explored, and the selected one is unexplored unless every node is explored, in which case it is the front |
| Bfs.SelectFirst | 8_puzzle_problem.cpp:215-223 | the range-for with break computes Select |
| Bfs.Step | 8_puzzle_problem.cpp:236-267 | an iteration never shrinks the queue |
| Bfs.Run | 8_puzzle_problem.cpp:212-269 | no contract; the specification of the loop: select the first unexplored node (or the front), mark it, stop with its path and distance if its cost is 0, otherwise expand it; OutOfFuel once the iterations run out |
| Bfs.StepEffect | 8_puzzle_problem.cpp:226-267 | after marking and expanding, the selected node is explored, other nodes changed at most in distance, and the new nodes are its children in the table order down, left, up, right |
| Bfs.StepKeepsInv | 8_puzzle_problem.cpp:212-269 | such an iteration keeps the queue a tree of slides with costs computed, level 0 and visited set |
| Bfs.OverwriteIsNoOp | 8_puzzle_problem.cpp:256-259 | with a single blank, when a duplicate is found the unconditional distance overwrite writes the distance that node already has |
| Bfs.DuplicateDistance | 8_puzzle_problem.cpp:246-258 | a duplicate whose distance lies between the parent's and the parent's plus one, and whose blank is at the child's cell, is exactly one step further than the parent |
| Bfs.DuplicateHasChildBlank | 8_puzzle_problem.cpp:251 | with a single blank, a queued node equal to the child has its blank at the child's coordinates |
| Bfs.StepKeepsLayer | 8_puzzle_problem.cpp:212-267 | with a single blank, an iteration keeps the layering: the root at distance 0, an unexplored node left, distances sorted along the queue and at most one more than the first unexplored node's, each node one step further than its parent |
| Bfs.ExpandedIsLayered | 8_puzzle_problem.cpp:215-223 | after an expansion that leaves an unexplored node, the first of those is the next frontier and the layering holds |
| Bfs.DistIsDepth | 8_puzzle_problem.cpp:246 | in a layered queue each node's distance equals its number of moves from the root |
| Bfs.RootInv | 8_puzzle_problem.cpp:207-210 | the queue holding only the corrected root satisfies the invariant and the layering |
| Bfs.RunFound | 8_puzzle_problem.cpp:228-234 | selecting a zero-cost node reports a sound answer, whose cost is its number of moves when there is a single blank |
| Bfs.RunContinues | 8_puzzle_problem.cpp:212-269 | selecting any other node continues the loop from a queue satisfying the invariant |
| Bfs.RunSound | 8_puzzle_problem.cpp:212-269 | every reported path starts at the initial board, moves the blank one cell per step, ends at a zero-cost board (the goal when the tiles agree), and with a single blank its reported cost is its number of moves |
| Bfs.SolvedStartMissed | 8_puzzle_problem.cpp:207-234 | as written, an already solved start is not reported when selected (its cost is INT_MAX - 1); with the root cost computed it is reported as the one-board path with cost 0 |
| Bfs.FirstUnexploredFromTwin | 8_puzzle_problem.cpp:216-223 | two queues that differ only in the root's non-zero cost select the same node |
| Bfs.FirstMatchFromTwin | 8_puzzle_problem.cpp:248-254 | such queues find the same duplicate |
| Bfs.EnqueueTwin | 8_puzzle_problem.cpp:248-264 | reconciling a child keeps two such queues differing only in the root's cost |
| Bfs.ExpandTwin | 8_puzzle_problem.cpp:237-267 | so does expanding the same node of both |
| Bfs.StepTwin | 8_puzzle_problem.cpp:226-267 | so does a whole iteration |
| Bfs.RunTwin | 8_puzzle_problem.cpp:212-269 | two such queues give the same outcome for every number of iterations |
| Bfs.AsWrittenAgrees | 8_puzzle_problem.cpp:207-208 | on every start that is not already solved, the root as written and the corrected root give the same outcome |
| Bfs.SolveBfs | 8_puzzle_problem.cpp:200-271 | the loop computes Run from the corrected root, and from the root as written whenever the start is not solved; its answer is a solution path that ends at the goal when the tiles agree, and whose cost is its number of moves when there is a single blank |
| Dfs.Empty | 8_puzzle_problem.cpp:316 | no contract; the slot before the search: no parent, distance INT_MAX, the initial board |
| Dfs.Reached | 8_puzzle_problem.cpp:278-283 | no contract; what the slot copies from a goal: its parent chain, its distance and its board |
| Dfs.Goals | 8_puzzle_problem.cpp:274-307 | no contract; the reference sequence of goals the search reaches: the node itself if its cost is 0, otherwise the goals below its children |
| Dfs.GoalsFrom | 8_puzzle_problem.cpp:289-305 | no contract; the goals below the children in directions d to 3, in that order |
| Dfs.Below | 8_puzzle_problem.cpp:291-303 | no contract; the goals below the child in direction d, if it is on the board and its depth is below 15 |
| Dfs.Improve | 8_puzzle_problem.cpp:278-283 | no contract; the slot takes a goal only when the goal's distance is strictly smaller |
| Dfs.Best | 8_puzzle_problem.cpp:276-285 | no contract; the slot after reaching a sequence of goals in order |
| Dfs.Printed | 8_puzzle_problem.cpp:319 | no contract; the boards printPath(temp) prints for the answer slot (lines 105-113): its copied parent chain, root first, then its own board |
| Dfs.Child | 8_puzzle_problem.cpp:293-298 | the child of the node on top of the recursion is its board with the blank slid in direction d; its parent is that node, its cost is computed and its depth is one more |
| Dfs.MakeChild | 8_puzzle_problem.cpp:293-298 | newNode followed by the cost and depth assignments builds exactly that child |
| Dfs.BestAppend | 8_puzzle_problem.cpp:276-285 | reaching one list of goals and then another leaves the slot as reaching their concatenation does |
| Dfs.BestIsLeast | 8_puzzle_problem.cpp:276-285 | the slot ends no deeper than it started or than any goal reached; it is either unchanged or a goal strictly better than the start; if some goal beats the start, the slot holds a goal |
| Dfs.Search | 8_puzzle_problem.cpp:274-307 | the recursive search leaves in the slot the best of its entry value and every goal reached below the current node, in visiting order |
| Dfs.PathToLength | 8_puzzle_problem.cpp:298 | on the recursion path, the node at depth k has a printed path of k + 1 boards |
| Dfs.ReachedOk | 8_puzzle_problem.cpp:276-285 | a zero-cost node copied into the slot prints as a solution path whose length matches its depth and the cutoff |
| Dfs.PushOk | 8_puzzle_problem.cpp:298-303 | recursing into a child below the cutoff keeps the recursion path a chain of slides at consecutive depths |
| Dfs.GoalsOk | 8_puzzle_problem.cpp:274-307 | every goal reached is a solution path of at most 15 boards whose depth is its number of moves, ending at the goal when the tiles agree |
| Dfs.RootOk | 8_puzzle_problem.cpp:315-317 | the root alone is a well-formed recursion path |
| Dfs.SolvedStartFound | 8_puzzle_problem.cpp:276-285 | a start that is already solved is the only goal reached, and prints as the one-board path |
| Dfs.SolveDfs | 8_puzzle_problem.cpp:312-321 | the printed boards and cost are those of the least deep goal reached; the cost is INT_MAX, with the initial board printed alone, exactly when no goal is reached within the cutoff; otherwise the boards are a solution path of at most 15 boards whose length is the cost plus one, ending at the goal when the tiles agree |

## Left out

- Console output (`printMatrix`, the `cout` lines) is not modelled. Printing is modelled as the sequence of boards `Nodes.PathTo` builds, and each strategy returns that sequence with the printed cost instead.
- `main` is not modelled: reading `1.txt`, the all-zero fallback board, the fixed goal and the hard-coded blank position. The initial board, the goal and the blank coordinates are parameters.
- The blank coordinates passed to each solver are documented as the blank's position. The model requires this (`initial[Idx(x, y)] == 0`) and does not model a wrong position.
- Heap allocation, pointer identity and the leaked nodes are replaced by the index-linked arena: the DFS recursion stack is itself such an arena, and the printed parent chain of the depth-first answer slot is kept as the boards it would print.
- 32-bit `int` overflow is not modelled: distances are unbounded integers, and `INT_MAX` appears only as the sentinel value 2147483647.
- Dijkstra.SolveDijkstra: the loop of solve_Dijkstra runs until a goal is selected and may never stop; the model bounds it by a `fuel` count of iterations and returns `OutOfFuel` when that runs out, so neither termination nor completeness is claimed.
- Bfs.SolveBfs: bounded by `fuel` in the same way, with no termination or completeness claim.
- Dijkstra.SolveDijkstra: the reported cost is proved at most the moved-tile weight of the printed path, not equal to it. Relaxation lowers a duplicate's distance but keeps its parent link, and the model does not decide whether the two can then differ. No claim of shortest weighted path is made.
- Dijkstra.SolveDijkstra: the cost bound is proved only for starts with no negative number. Once every node has distance `INT_MAX` the search reselects explored nodes; a child then gets `INT_MAX` plus its tile, and only a non-negative tile keeps that at the sentinel or above.
- Bfs.SolveBfs: the statement that the cost is the number of moves is proved only for boards with a single blank. With several blanks the duplicate overwrite can move a node to another depth, and the contract then says nothing about the cost.
- Dfs.SolveDfs: optimality is stated against the goals the cutoff-15 search reaches, not against all solutions; the cutoff is not claimed to be enough for every solvable instance.
- Solvability (permutation parity) is not decided anywhere in the program and is not modelled.

## Findings

| source | as written | input that shows it | evidently intended | confidence | as-written member | corrected member |
|---|---|---|---|---|---|---|
| 8_puzzle_problem.cpp:207-208 | The breadth-first root is created by newNode with cost INT_MAX - 1 and is never given its misplaced-tile cost. The `cost == 0` test at line 228 therefore never fires for the root. | Any start that is already the goal, e.g. initial = final = 1 2 3 / 8 0 4 / 7 6 5 with the blank at (1, 1). The root is selected and not reported; the search continues with its children. | Compute the root's cost, as the other two strategies do at lines 138 and 317. A solved start is then reported as the one-board path with cost 0. | not executed | Bfs.SolvedStartMissed (with Bfs.RootAsWritten) | Bfs.BfsRoot, used by Bfs.SolveBfs; Bfs.AsWrittenAgrees proves the correction changes no other start |
