/**
 The board state of the Minesweeper class (main.py): four grid_size-by-grid_size
 grids and the two end-of-round flags, with the invariants the rest of the
 model keeps.
 */
module Board {
  import opened Grid

  /** The module-level constants of main.py. */
  const SCREEN_WIDTH: nat := 800
  const SCREEN_HEIGHT: nat := 600
  const GRID_SIZE: nat := 20
  const MINE_COUNT: nat := 40

  /**
   `grid` is the opened flag (stored as 0/1 in main.py); `adjacent` holds the
   counts increment_adjacent accumulates. `victory` is part of the state but
   nothing in main.py ever sets it to true.
   */
  datatype Board = Board(
    size: nat,
    mines: seq<seq<bool>>,
    adjacent: seq<seq<int>>,
    grid: seq<seq<bool>>,
    flags: seq<seq<bool>>,
    gameOver: bool,
    victory: bool)
  {
    predicate Valid() {
      IsGrid(mines, size) && IsGrid(adjacent, size) && IsGrid(grid, size) && IsGrid(flags, size)
    }

    /** Every adjacency count is the number of mines in its cell's 3-by-3 block. */
    predicate Counted()
      requires Valid()
    {
      AdjacencyCorrect(mines, adjacent, size)
    }
  }

  predicate AdjacencyCorrect(mines: seq<seq<bool>>, adjacent: seq<seq<int>>, n: nat)
    requires IsGrid(mines, n) && IsGrid(adjacent, n)
  {
    forall x, y | 0 <= x < n && 0 <= y < n :: adjacent[x][y] == |Block(mines, n, x, y)|
  }

  function MineCells(b: Board): (s: set<Cell>)
    requires b.Valid()
  {
    Cells(b.mines, b.size, true)
  }

  function Unopened(b: Board): (s: set<Cell>)
    requires b.Valid()
  {
    Cells(b.grid, b.size, false)
  }

  /** The board `reset` builds before placing mines: every grid cleared, both flags false. */
  function Cleared(n: nat): (b: Board)
    ensures b.Valid() && b.size == n
    ensures MineCells(b) == {}
    ensures b.Counted()
    ensures Cells(b.grid, n, true) == {} && Cells(b.flags, n, true) == {}
    ensures !b.gameOver && !b.victory
  {
    var b := Board(n, Fill(n, false), Fill(n, 0), Fill(n, false), Fill(n, false), false, false);
    assert MineCells(b) == {};
    assert Cells(b.grid, n, true) == {};
    b
  }

  /** `toggle_flag`: flips the flag of (x, y) and nothing else. */
  function ToggleFlag(b: Board, x: int, y: int): (r: Board)
    requires b.Valid() && InBounds(b.size, x, y)
    ensures r.Valid() && r.size == b.size
    ensures r.flags[x][y] == !b.flags[x][y]
    ensures forall i, j | InBounds(b.size, i, j) && (i != x || j != y) :: r.flags[i][j] == b.flags[i][j]
    ensures r.mines == b.mines && r.adjacent == b.adjacent && r.grid == b.grid
    ensures r.gameOver == b.gameOver && r.victory == b.victory
  {
    b.(flags := Update(b.flags, b.size, x, y, !b.flags[x][y]))
  }

  /** Toggling the same flag twice gives back the board it started from. */
  lemma ToggleFlagTwice(b: Board, x: int, y: int)
    requires b.Valid() && InBounds(b.size, x, y)
    ensures ToggleFlag(ToggleFlag(b, x, y), x, y) == b
  {
    var r := ToggleFlag(ToggleFlag(b, x, y), x, y);
    assert r.flags[x] == b.flags[x];
    assert r.flags == b.flags;
  }

  /**
   With correct counts, a cell's count is its eight neighbours' mines plus one
   for its own mine: at most 8 on a safe cell, between 1 and 9 on a mine.
   */
  lemma CountOfCell(b: Board, x: int, y: int)
    requires b.Valid() && b.Counted() && InBounds(b.size, x, y)
    ensures b.adjacent[x][y] == |Block(b.mines, b.size, x, y) - {(x, y)}| + (if b.mines[x][y] then 1 else 0)
    ensures !b.mines[x][y] ==> 0 <= b.adjacent[x][y] <= 8
    ensures b.mines[x][y] ==> 1 <= b.adjacent[x][y] <= 9
  {
    assert b.adjacent[x][y] == |Block(b.mines, b.size, x, y)|;
    if b.mines[x][y] {
      MineBlockSize(b.mines, b.size, x, y);
    } else {
      SafeBlockSize(b.mines, b.size, x, y);
    }
  }

  lemma MineBlockSize(mines: seq<seq<bool>>, n: nat, x: int, y: int)
    requires IsGrid(mines, n) && InBounds(n, x, y) && mines[x][y]
    ensures |Block(mines, n, x, y)| == |Block(mines, n, x, y) - {(x, y)}| + 1
    ensures 1 <= |Block(mines, n, x, y)| <= 9
  {
    var block := Block(mines, n, x, y);
    assert (x, y) in Cells(mines, n, true);
    assert block == (block - {(x, y)}) + {(x, y)};
    BlockInSquare(mines, n, x, y);
    SubsetSize(block, Square(x, y));
  }

  lemma SafeBlockSize(mines: seq<seq<bool>>, n: nat, x: int, y: int)
    requires IsGrid(mines, n) && InBounds(n, x, y) && !mines[x][y]
    ensures Block(mines, n, x, y) - {(x, y)} == Block(mines, n, x, y)
    ensures |Block(mines, n, x, y)| <= 8
  {
    var block := Block(mines, n, x, y);
    assert (x, y) !in Cells(mines, n, true);
    var others := Square(x, y) - {(x, y)};
    BlockInSquare(mines, n, x, y);
    assert |others| == |Square(x, y)| - 1;
    SubsetSize(block, others);
  }
}
