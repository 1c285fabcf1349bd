/**
 * The 3x3 board of the 8-puzzle: cells, the four slide directions, the
 * misplaced-tile cost and the swap that moves the blank.
 *
 * A board is stored row-major: cell (i, j) lives at index 3 * i + j.
 * The blank tile is the value 0.
 */
module Grid {

  /** Side length of the board. */
  const N := 3

  /** A row or column index that lies on the board. */
  type Coord = i: int | 0 <= i < 3

  /** Nine cells, row-major. */
  type Board = b: seq<int> | |b| == 9 witness [0, 0, 0, 0, 0, 0, 0, 0, 0]

  /** Flat index of cell (i, j). */
  function Idx(i: Coord, j: Coord): (k: nat)
    ensures k < 9
    ensures k / 3 == i && k % 3 == j
  {
    3 * i + j
  }

  /** Row offsets of the four moves: down, left, up, right. */
  const Row: seq<int> := [1, 0, -1, 0]

  /** Column offsets of the four moves: down, left, up, right. */
  const Col: seq<int> := [0, -1, 0, 1]

  /** Whether (x, y) is a cell of the board. */
  predicate IsSafe(x: int, y: int) {
    x >= 0 && x < N && y >= 0 && y < N
  }

  /** Two cells share a side. */
  predicate Adjacent(x: int, y: int, nx: int, ny: int) {
    (x == nx && (y - ny == 1 || ny - y == 1)) || (y == ny && (x - nx == 1 || nx - x == 1))
  }

  /** Every move of the direction tables goes to a cell that shares a side. */
  lemma DirectionsAreAdjacent(x: int, y: int, d: nat)
    requires d < 4
    ensures |Row| == |Col| == 4
    ensures Adjacent(x, y, x + Row[d], y + Col[d])
  {
  }

  /** Which entry of the direction tables leads from cell (x, y) to the neighbouring cell (nx, ny). */
  function MoveIndex(x: int, y: int, nx: int, ny: int): int {
    if nx == x + 1 then 0
    else if ny == y - 1 then 1
    else if nx == x - 1 then 2
    else 3
  }

  /** The move of direction d is recognised as direction d. */
  lemma MoveIndexOf(x: int, y: int, d: nat)
    requires d < 4
    ensures MoveIndex(x, y, x + Row[d], y + Col[d]) == d
  {
    assert d == 0 || d == 1 || d == 2 || d == 3;
  }

  /** From every cell at least one move stays on the board (in fact two). */
  lemma SomeMoveIsSafe(x: Coord, y: Coord)
    ensures exists d :: 0 <= d < 4 && IsSafe(x + Row[d], y + Col[d])
  {
    if x < 2 {
      assert IsSafe(x + Row[0], y + Col[0]);
    } else {
      assert IsSafe(x + Row[2], y + Col[2]);
    }
  }

  /** The number of moves from (x, y) that stay on the board. */
  function SafeMoves(x: Coord, y: Coord, d: nat): (c: nat)
    requires d <= 4
    ensures c <= 4 - d
    decreases 4 - d
  {
    if d == 4 then 0
    else (if IsSafe(x + Row[d], y + Col[d]) then 1 else 0) + SafeMoves(x, y, d + 1)
  }

  /** Every cell has two, three or four neighbours. */
  lemma {:induction false} SafeMovesBounds(x: Coord, y: Coord)
    ensures 2 <= SafeMoves(x, y, 0) <= 4
  {
    assert SafeMoves(x, y, 3) == (if y < 2 then 1 else 0);
    assert SafeMoves(x, y, 2) == (if x > 0 then 1 else 0) + (if y < 2 then 1 else 0);
    assert SafeMoves(x, y, 1) == (if y > 0 then 1 else 0) + SafeMoves(x, y, 2);
  }

  // ----- the misplaced-tile cost -----

  /** The number of misplaced non-blank tiles among the first n cells. */
  function Misplaced(b: Board, g: Board, n: nat): (c: nat)
    requires n <= 9
    ensures c <= n
  {
    if n == 0 then 0
    else Misplaced(b, g, n - 1) + (if b[n - 1] != 0 && b[n - 1] != g[n - 1] then 1 else 0)
  }

  /** The cells whose tile is non-blank and differs from the goal's. */
  function MisplacedCells(b: Board, g: Board, n: nat): set<nat>
    requires n <= 9
  {
    set k: nat | k < n && b[k] != 0 && b[k] != g[k]
  }

  /** The number of non-blank tiles of b that are not where g has them. */
  function Cost(b: Board, g: Board): (c: nat)
    ensures c <= 9
  {
    Misplaced(b, g, |b|)
  }

  lemma {:induction false} MisplacedIsCount(b: Board, g: Board, n: nat)
    requires n <= 9
    ensures Misplaced(b, g, n) == |MisplacedCells(b, g, n)|
  {
    if n > 0 {
      MisplacedIsCount(b, g, n - 1);
      if b[n - 1] != 0 && b[n - 1] != g[n - 1] {
        assert MisplacedCells(b, g, n) == MisplacedCells(b, g, n - 1) + {n - 1};
      } else {
        assert MisplacedCells(b, g, n) == MisplacedCells(b, g, n - 1);
      }
    } else {
      assert MisplacedCells(b, g, 0) == {};
    }
  }

  /** The cost is exactly the number of cells holding a misplaced non-blank tile. */
  lemma CostIsCount(b: Board, g: Board)
    ensures Cost(b, g) == |set k: nat | k < 9 && b[k] != 0 && b[k] != g[k]|
  {
    MisplacedIsCount(b, g, 9);
  }

  lemma {:induction false} MisplacedSelf(b: Board, n: nat)
    requires n <= 9
    ensures Misplaced(b, b, n) == 0
  {
    if n > 0 {
      MisplacedSelf(b, n - 1);
    }
  }

  /** A board is never misplaced against itself. */
  lemma CostSelf(b: Board)
    ensures Cost(b, b) == 0
  {
    MisplacedSelf(b, 9);
  }

  lemma {:induction false} MisplacedBelowBlank(b: Board, g: Board, k: nat, n: nat)
    requires k < 9 && b[k] == 0 && n <= 9
    ensures Misplaced(b, g, n) <= (if k < n then n - 1 else n)
  {
    if n > 0 {
      MisplacedBelowBlank(b, g, k, n - 1);
    }
  }

  /** A board with a blank has at most eight misplaced tiles. */
  lemma CostWithBlank(b: Board, g: Board, x: Coord, y: Coord)
    requires b[Idx(x, y)] == 0
    ensures Cost(b, g) <= 8
  {
    MisplacedBelowBlank(b, g, Idx(x, y), 9);
  }

  lemma {:induction false} MisplacedZero(b: Board, g: Board, n: nat)
    requires n <= 9
    ensures Misplaced(b, g, n) == 0 <==> forall k :: 0 <= k < n ==> b[k] == 0 || b[k] == g[k]
  {
    if n > 0 {
      MisplacedZero(b, g, n - 1);
    }
  }

  /** Among the first n cells, g has no more blanks than b when b agrees with g off its blanks. */
  lemma {:induction false} BlanksShrink(b: Board, g: Board, n: nat)
    requires n <= 9
    requires forall k :: 0 <= k < 9 ==> b[k] == 0 || b[k] == g[k]
    ensures multiset(g[..n])[0] <= multiset(b[..n])[0]
    ensures b[..n] != g[..n] ==> multiset(g[..n])[0] < multiset(b[..n])[0]
  {
    if n > 0 {
      BlanksShrink(b, g, n - 1);
      assert b[..n] == b[..n - 1] + [b[n - 1]];
      assert g[..n] == g[..n - 1] + [g[n - 1]];
      if b[..n] != g[..n] && b[..n - 1] == g[..n - 1] {
        assert b[n - 1] != g[n - 1];
      }
    }
  }

  /**
   * For boards holding the same tiles, cost zero means the board is the goal:
   * the blank test in the cost cannot hide a wrong tile.
   */
  lemma CostZeroIffSolved(b: Board, g: Board)
    requires multiset(b) == multiset(g)
    ensures Cost(b, g) == 0 <==> b == g
  {
    if b == g {
      CostSelf(b);
    } else if Cost(b, g) == 0 {
      MisplacedZero(b, g, 9);
      assert b[..9] == b && g[..9] == g;
      BlanksShrink(b, g, 9);
      assert false;
    }
  }

  /** The cost computed the way calculateCost does: a nested scan of the grid. */
  method CalculateCost(initial: Board, final: Board) returns (count: int)
    ensures count == Cost(initial, final)
  {
    count := 0;
    for i := 0 to N
      invariant count == Misplaced(initial, final, 3 * i)
    {
      for j := 0 to N
        invariant count == Misplaced(initial, final, 3 * i + j)
      {
        if initial[Idx(i, j)] != 0 && initial[Idx(i, j)] != final[Idx(i, j)] {
          count := count + 1;
        }
      }
    }
  }

  // ----- moving the blank -----

  /** The board with cells (x, y) and (nx, ny) exchanged. */
  function Swap(b: Board, x: Coord, y: Coord, nx: Coord, ny: Coord): (r: Board)
    ensures r[Idx(x, y)] == b[Idx(nx, ny)] && r[Idx(nx, ny)] == b[Idx(x, y)]
  {
    b[Idx(x, y) := b[Idx(nx, ny)]][Idx(nx, ny) := b[Idx(x, y)]]
  }

  /** A swap leaves every other cell alone and keeps the tiles. */
  lemma SwapFacts(b: Board, x: Coord, y: Coord, nx: Coord, ny: Coord)
    ensures forall k :: 0 <= k < 9 && k != Idx(x, y) && k != Idx(nx, ny) ==> Swap(b, x, y, nx, ny)[k] == b[k]
    ensures multiset(Swap(b, x, y, nx, ny)) == multiset(b)
  {
  }

  /** Sliding back undoes a slide. */
  lemma SwapTwice(b: Board, x: Coord, y: Coord, nx: Coord, ny: Coord)
    ensures Swap(Swap(b, x, y, nx, ny), x, y, nx, ny) == b
  {
    var r := Swap(Swap(b, x, y, nx, ny), x, y, nx, ny);
    SwapFacts(b, x, y, nx, ny);
    SwapFacts(Swap(b, x, y, nx, ny), x, y, nx, ny);
    forall k | 0 <= k < 9 ensures r[k] == b[k] {
    }
  }

  /** The tiles of a solvable position: every value 0..8 exactly once. */
  predicate IsPermutation(b: Board) {
    multiset(b) == multiset{0, 1, 2, 3, 4, 5, 6, 7, 8}
  }

  /** A swap keeps a permutation a permutation. */
  lemma SwapKeepsPermutation(b: Board, x: Coord, y: Coord, nx: Coord, ny: Coord)
    requires IsPermutation(b)
    ensures IsPermutation(Swap(b, x, y, nx, ny))
  {
    SwapFacts(b, x, y, nx, ny);
  }

  /** Exactly one blank among the tiles. */
  predicate UniqueBlank(b: Board) {
    multiset(b)[0] == 1
  }

  /** The numbers 0..8 contain one 0. */
  lemma PermutationHasUniqueBlank(b: Board)
    requires IsPermutation(b)
    ensures UniqueBlank(b)
  {
  }

  lemma {:induction false} TwoIndicesCount(s: seq<int>, p: nat, q: nat, v: int)
    requires p < q < |s| && s[p] == v && s[q] == v
    ensures multiset(s)[v] >= 2
  {
    assert s == s[..p] + [s[p]] + s[p + 1..q] + [s[q]] + s[q + 1..];
  }

  /** With a single blank, the cell holding 0 is determined by the board. */
  lemma BlankIsUnique(b: Board, p: nat, q: nat)
    requires UniqueBlank(b)
    requires p < 9 && q < 9 && b[p] == 0 && b[q] == 0
    ensures p == q
  {
    if p < q {
      TwoIndicesCount(b, p, q, 0);
    } else if q < p {
      TwoIndicesCount(b, q, p, 0);
    }
  }

  /** If the blank is at (x, y), a slide to (nx, ny) leaves it at (nx, ny). */
  lemma SwapMovesBlank(b: Board, x: Coord, y: Coord, nx: Coord, ny: Coord)
    requires b[Idx(x, y)] == 0
    ensures Swap(b, x, y, nx, ny)[Idx(nx, ny)] == 0
  {
  }

  /** Board a becomes board b by one slide of a's blank to a neighbouring cell. */
  predicate OneMoveApart(a: Board, b: Board) {
    exists x: Coord, y: Coord, nx: Coord, ny: Coord ::
      a[Idx(x, y)] == 0 && Adjacent(x, y, nx, ny) && b == Swap(a, x, y, nx, ny)
  }

  // ----- the moved tile -----

  /** The sum of b's numbers over those of the first n cells where a has a blank. */
  function BlankSum(a: Board, b: Board, n: nat): int
    requires n <= 9
  {
    if n == 0 then 0 else BlankSum(a, b, n - 1) + (if a[n - 1] == 0 then b[n - 1] else 0)
  }

  /** The number on the tile that moved from board a to board b: what b holds where a has a blank. */
  function MovedTile(a: Board, b: Board): int {
    BlankSum(a, b, 9)
  }

  lemma {:induction false} BlankSumOfSlide(b: Board, x: Coord, y: Coord, nx: Coord, ny: Coord, n: nat)
    requires n <= 9 && b[Idx(x, y)] == 0 && Idx(x, y) != Idx(nx, ny)
    ensures BlankSum(b, Swap(b, x, y, nx, ny), n) == if Idx(x, y) < n then b[Idx(nx, ny)] else 0
  {
    if n > 0 {
      BlankSumOfSlide(b, x, y, nx, ny, n - 1);
      SwapFacts(b, x, y, nx, ny);
    }
  }

  /** A slide of the blank moves one tile: the one at the cell the blank goes to (0 when that cell is blank too). */
  lemma MovedTileOfSlide(b: Board, x: Coord, y: Coord, nx: Coord, ny: Coord)
    requires b[Idx(x, y)] == 0 && Adjacent(x, y, nx, ny)
    ensures MovedTile(b, Swap(b, x, y, nx, ny)) == b[Idx(nx, ny)]
  {
    assert Idx(x, y) != Idx(nx, ny);
    BlankSumOfSlide(b, x, y, nx, ny, 9);
  }
}
