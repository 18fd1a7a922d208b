/**
 Mine placement: `reset`, `place_mines` and `increment_adjacent` of main.py.

 The neighbour loop of increment_adjacent tests `0 <= nx < GRID_SIZE`, the
 module constant, not the board's own size. Every function here therefore
 takes that `bound` as a parameter: `GRID_SIZE` reproduces the code as it is
 written, the board size gives the evidently intended loop. A neighbour that
 passes the test but lies outside a smaller board is Python's IndexError.

 `random.randint(0, grid_size - 1)` is replaced by a supplied sequence of
 draws, one (x, y) pair per loop iteration.
 */
module Placement {
  import opened Grid
  import opened Outcomes
  import opened Board

  /** One iteration's two randint results, x first. */
  type Draw = (int, int)

  predicate DrawsInRange(draws: seq<Draw>, n: nat) {
    forall k | 0 <= k < |draws| :: InBounds(n, draws[k].0, draws[k].1)
  }

  /** The cells a sequence of draws names, repeats counted once. */
  function Drawn(draws: seq<Draw>): (s: set<Cell>)
  {
    set k | 0 <= k < |draws| :: draws[k]
  }

  /** The cells named by the draws are the first draw's cell and those named by the rest. */
  lemma DrawnCons(draws: seq<Draw>)
    requires |draws| > 0
    ensures Drawn(draws) == {draws[0]} + Drawn(draws[1..])
  {
    forall c | c in Drawn(draws) ensures c in {draws[0]} + Drawn(draws[1..]) {
      var k :| 0 <= k < |draws| && draws[k] == c;
      if k > 0 {
        assert draws[1..][k - 1] == c;
      }
    }
    forall c | c in Drawn(draws[1..]) ensures c in Drawn(draws) {
      var k :| 0 <= k < |draws[1..]| && draws[1..][k] == c;
      assert draws[k + 1] == c;
    }
  }

  /**
   Consuming the first draw d: the mines the rest of the draws leave behind
   lie within those of the board after d and the rest of the draws, and if
   the rest runs out, the cells the draws name that are not yet mines are
   fewer than the mines still missing.
   */
  lemma DrawsAccounted(b: Board, b': Board, r: Result<Board>, mineCount: int, placed: int, placed': int, draws: seq<Draw>)
    requires b.Valid() && b'.Valid() && |draws| > 0
    requires MineCells(b') == MineCells(b) + {draws[0]}
    requires placed' == (if draws[0] in MineCells(b) then placed else placed + 1)
    requires r.Ok? ==> r.value.Valid() && MineCells(r.value) <= MineCells(b') + Drawn(draws[1..])
    requires r == Err(OutOfDraws) ==> |Drawn(draws[1..]) - MineCells(b')| < mineCount - placed'
    ensures r.Ok? ==> MineCells(r.value) <= MineCells(b) + Drawn(draws)
    ensures r == Err(OutOfDraws) ==> |Drawn(draws) - MineCells(b)| < mineCount - placed
  {
    DrawnCons(draws);
    FreshAfterStep(Drawn(draws), Drawn(draws[1..]), draws[0], MineCells(b));
  }

  /** Taking d out of all and adding it to before loses at most d from the difference. */
  lemma FreshAfterStep(all: set<Cell>, rest: set<Cell>, d: Cell, before: set<Cell>)
    requires all == {d} + rest
    ensures |all - before| <= |rest - (before + {d})| + (if d in before then 0 else 1)
  {
    var left := all - before;
    var right := rest - (before + {d});
    if d in before {
      assert left <= right;
      SubsetSize(left, right);
    } else {
      assert left == right + {d};
    }
  }

  /** The m-th neighbour of (x, y) passes the bounds test yet lies outside the n-by-n lists. */
  predicate Escapes(n: nat, bound: int, x: int, y: int, m: int)
    requires 0 <= m < 9
  {
    var (i, j) := Neighbour(x, y, m);
    0 <= i < bound && 0 <= j < bound && !InBounds(n, i, j)
  }

  /** The increment_adjacent loop from its m-th iteration on. */
  function IncrementFrom(adj: seq<seq<int>>, n: nat, bound: int, x: int, y: int, k: nat): (r: Result<seq<seq<int>>>)
    requires IsGrid(adj, n) && k <= 9
    ensures r.Ok? <==> forall m | k <= m < 9 :: !Escapes(n, bound, x, y, m)
    ensures r.Err? ==> r.error == IndexError
    ensures r.Ok? ==> IsGrid(r.value, n)
    ensures r.Ok? ==> forall i, j | InBounds(n, i, j) ::
      r.value[i][j] == adj[i][j] +
        (if Near(x, y, i, j) && OffsetIndex(x, y, i, j) >= k && i < bound && j < bound then 1 else 0)
    decreases 9 - k
  {
    if k == 9 then Ok(adj)
    else
      var (i, j) := Neighbour(x, y, k);
      if 0 <= i < bound && 0 <= j < bound then
        if !InBounds(n, i, j) then assert Escapes(n, bound, x, y, k); Err(IndexError)
        else IncrementFrom(Update(adj, n, i, j, adj[i][j] + 1), n, bound, x, y, k + 1)
      else IncrementFrom(adj, n, bound, x, y, k + 1)
  }

  /**
   `increment_adjacent(x, y)`: adds one to every cell of the 3-by-3 block
   around (x, y), the centre included, that passes the bounds test; fails
   exactly when a neighbour passes the test but lies outside the lists.
   */
  function IncrementAdjacent(adj: seq<seq<int>>, n: nat, bound: int, x: int, y: int): (r: Result<seq<seq<int>>>)
    requires IsGrid(adj, n)
    ensures r.Err? <==> exists m | 0 <= m < 9 :: Escapes(n, bound, x, y, m)
    ensures r.Err? ==> r.error == IndexError
    ensures bound <= n ==> r.Ok?
    ensures r.Ok? ==> IsGrid(r.value, n)
    ensures r.Ok? ==> forall i, j | InBounds(n, i, j) ::
      r.value[i][j] == adj[i][j] + (if Near(x, y, i, j) && i < bound && j < bound then 1 else 0)
  {
    IncrementFrom(adj, n, bound, x, y, 0)
  }

  /**
   As written, the bound is GRID_SIZE: on a board smaller than that, a mine on
   the last row or column makes increment_adjacent raise IndexError, and a
   mine anywhere else does not.
   */
  lemma EdgeMineCrashes(adj: seq<seq<int>>, n: nat, x: int, y: int)
    requires IsGrid(adj, n) && InBounds(n, x, y) && n < GRID_SIZE
    ensures IncrementAdjacent(adj, n, GRID_SIZE, x, y) == Err(IndexError) <==> x == n - 1 || y == n - 1
  {
    if x == n - 1 {
      assert Escapes(n, GRID_SIZE, x, y, 7);
    } else if y == n - 1 {
      assert Escapes(n, GRID_SIZE, x, y, 5);
    } else {
      forall m | 0 <= m < 9 ensures !Escapes(n, GRID_SIZE, x, y, m) {
        assert Near(x, y, Neighbour(x, y, m).0, Neighbour(x, y, m).1);
      }
    }
  }

  /**
   One iteration of place_mines' loop with the draw (x, y): a drawn cell that
   already holds a mine is rejected and changes nothing; otherwise it becomes a
   mine and its block's counts go up.
   */
  function TryPlace(b: Board, bound: int, x: int, y: int): (r: Result<Board>)
    requires b.Valid() && InBounds(b.size, x, y)
    ensures b.mines[x][y] ==> r == Ok(b)
    ensures r.Err? <==> !b.mines[x][y] && exists m | 0 <= m < 9 :: Escapes(b.size, bound, x, y, m)
    ensures r.Err? ==> r.error == IndexError
    ensures bound <= b.size ==> r.Ok?
    ensures r.Ok? ==> r.value.Valid() && r.value.size == b.size
    ensures r.Ok? ==> r.value.grid == b.grid && r.value.flags == b.flags
    ensures r.Ok? ==> r.value.gameOver == b.gameOver && r.value.victory == b.victory
    ensures r.Ok? ==> MineCells(r.value) == MineCells(b) + {(x, y)}
    ensures r.Ok? ==> |MineCells(r.value)| == |MineCells(b)| + (if b.mines[x][y] then 0 else 1)
    ensures r.Ok? && bound >= b.size && b.Counted() ==> r.value.Counted()
  {
    if b.mines[x][y] then
      assert (x, y) in MineCells(b);
      Ok(b)
    else
      match IncrementAdjacent(b.adjacent, b.size, bound, x, y)
      case Err(e) => Err(e)
      case Ok(adj) =>
        var r := b.(mines := Update(b.mines, b.size, x, y, true), adjacent := adj);
        UpdateCells(b.mines, b.size, x, y, true);
        if bound >= b.size && b.Counted() then
          PlacedStaysCounted(b.mines, b.adjacent, adj, b.size, bound, x, y);
          Ok(r)
        else Ok(r)
  }

  /** Placing a fresh mine and incrementing its block keeps every count correct. */
  lemma PlacedStaysCounted(mines: seq<seq<bool>>, adj: seq<seq<int>>, adj': seq<seq<int>>, n: nat, bound: int, x: int, y: int)
    requires IsGrid(mines, n) && IsGrid(adj, n) && InBounds(n, x, y) && !mines[x][y]
    requires IncrementAdjacent(adj, n, bound, x, y) == Ok(adj')
    requires bound >= n && AdjacencyCorrect(mines, adj, n)
    ensures AdjacencyCorrect(Update(mines, n, x, y, true), adj', n)
  {
    var mines' := Update(mines, n, x, y, true);
    forall i, j | 0 <= i < n && 0 <= j < n
      ensures adj'[i][j] == |Block(mines', n, i, j)|
    {
      assert adj'[i][j] == adj[i][j] + (if Near(x, y, i, j) && i < bound && j < bound then 1 else 0);
      assert adj[i][j] == |Block(mines, n, i, j)|;
      PlacedCellCounted(mines, adj[i][j], adj'[i][j], n, bound, x, y, i, j);
    }
  }

  /** The count of one cell after a fresh mine at (x, y) and its increment. */
  lemma PlacedCellCounted(mines: seq<seq<bool>>, before: int, after: int, n: nat, bound: int, x: int, y: int, i: int, j: int)
    requires IsGrid(mines, n) && InBounds(n, x, y) && !mines[x][y] && InBounds(n, i, j)
    requires before == |Block(mines, n, i, j)|
    requires after == before + (if Near(x, y, i, j) && i < bound && j < bound then 1 else 0)
    requires bound >= n
    ensures after == |Block(Update(mines, n, x, y, true), n, i, j)|
  {
    BlockAfterSet(mines, n, x, y, i, j);
  }

  /** The place_mines loop once `placed` mines are down, consuming `draws`. */
  function PlaceFrom(b: Board, bound: int, mineCount: int, placed: int, draws: seq<Draw>): (r: Result<Board>)
    requires b.Valid() && DrawsInRange(draws, b.size)
    ensures r.Err? ==> r.error == IndexError || r.error == OutOfDraws
    ensures bound <= b.size ==> r != Err(IndexError)
    ensures r.Ok? ==> r.value.Valid() && r.value.size == b.size
    ensures r.Ok? ==> r.value.grid == b.grid && r.value.flags == b.flags
    ensures r.Ok? ==> r.value.gameOver == b.gameOver && r.value.victory == b.victory
    ensures r.Ok? ==> MineCells(b) <= MineCells(r.value)
    ensures r.Ok? ==> |MineCells(r.value)| == |MineCells(b)| + (if placed < mineCount then mineCount - placed else 0)
    ensures r.Ok? && bound >= b.size && b.Counted() ==> r.value.Counted()
    decreases |draws|
  {
    if placed >= mineCount then Ok(b)
    else if |draws| == 0 then Err(OutOfDraws)
    else
      var (x, y) := draws[0];
      var isNew := !b.mines[x][y];
      match TryPlace(b, bound, x, y)
      case Err(e) => Err(e)
      case Ok(b') =>
        PlaceFrom(b', bound, mineCount, if isNew then placed + 1 else placed, draws[1..])
  }

  /**
   Every mine the loop adds is a drawn cell, and the loop runs out of draws
   only when the draws name fewer cells that are not yet mines than the
   mines still missing.
   */
  lemma {:induction false} PlaceFromDrawn(b: Board, bound: int, mineCount: int, placed: int, draws: seq<Draw>)
    requires b.Valid() && DrawsInRange(draws, b.size)
    ensures var r := PlaceFrom(b, bound, mineCount, placed, draws);
      r.Ok? ==> MineCells(r.value) <= MineCells(b) + Drawn(draws)
    ensures var r := PlaceFrom(b, bound, mineCount, placed, draws);
      r == Err(OutOfDraws) ==> |Drawn(draws) - MineCells(b)| < mineCount - placed
    decreases |draws|
  {
    if placed < mineCount && |draws| > 0 {
      var (x, y) := draws[0];
      var t := TryPlace(b, bound, x, y);
      if t.Ok? {
        var b' := t.value;
        var placed' := if b.mines[x][y] then placed else placed + 1;
        PlaceFromDrawn(b', bound, mineCount, placed', draws[1..]);
        assert b.mines[x][y] <==> (x, y) in MineCells(b);
        DrawsAccounted(b, b', PlaceFrom(b', bound, mineCount, placed', draws[1..]), mineCount, placed, placed', draws);
      }
    }
  }

  /**
   `place_mines`: draws until mine_count more cells hold mines. No mine is
   removed and nothing but the mines and their counts changes.
   */
  function PlaceMines(b: Board, bound: int, mineCount: int, draws: seq<Draw>): (r: Result<Board>)
    requires b.Valid() && DrawsInRange(draws, b.size)
    ensures r.Err? ==> r.error == IndexError || r.error == OutOfDraws
    ensures bound <= b.size ==> r != Err(IndexError)
    ensures r.Ok? ==> r.value.Valid() && r.value.size == b.size
    ensures r.Ok? ==> r.value.grid == b.grid && r.value.flags == b.flags
    ensures r.Ok? ==> r.value.gameOver == b.gameOver && r.value.victory == b.victory
    ensures r.Ok? ==> MineCells(b) <= MineCells(r.value)
    ensures r.Ok? ==> |MineCells(r.value)| == |MineCells(b)| + (if mineCount > 0 then mineCount else 0)
    ensures r.Ok? && bound >= b.size && b.Counted() ==> r.value.Counted()
    ensures r.Ok? ==> MineCells(r.value) <= MineCells(b) + Drawn(draws)
    ensures r == Err(OutOfDraws) ==> |Drawn(draws) - MineCells(b)| < mineCount
  {
    PlaceFromDrawn(b, bound, mineCount, 0, draws);
    PlaceFrom(b, bound, mineCount, 0, draws)
  }

  /**
   `reset`: a cleared board of the chosen size with exactly mine_count mines
   on it, nothing opened or flagged and the round not over.
   */
  function Reset(n: nat, mineCount: int, bound: int, draws: seq<Draw>): (r: Result<Board>)
    requires DrawsInRange(draws, n)
    ensures r.Err? ==> r.error == IndexError || r.error == OutOfDraws
    ensures bound <= n ==> r != Err(IndexError)
    ensures r.Ok? ==> r.value.Valid() && r.value.size == n
    ensures r.Ok? ==> |MineCells(r.value)| == (if mineCount > 0 then mineCount else 0)
    ensures r.Ok? ==> Cells(r.value.grid, n, true) == {} && Cells(r.value.flags, n, true) == {}
    ensures r.Ok? ==> !r.value.gameOver && !r.value.victory
    ensures r.Ok? && bound >= n ==> r.value.Counted()
    ensures r.Ok? ==> MineCells(r.value) <= Drawn(draws)
    ensures r == Err(OutOfDraws) ==> |Drawn(draws)| < mineCount
  {
    var cleared := Cleared(n);
    var r := PlaceMines(cleared, bound, mineCount, draws);
    assert r.Ok? ==> r.value.grid == cleared.grid && r.value.flags == cleared.flags;
    assert Drawn(draws) - MineCells(cleared) == Drawn(draws);
    r
  }

  /**
   With the intended bound, reset succeeds exactly when the draws name at
   least mine_count distinct cells.
   */
  lemma EnoughDrawsReset(n: nat, mineCount: int, bound: int, draws: seq<Draw>)
    requires DrawsInRange(draws, n) && bound <= n
    ensures Reset(n, mineCount, bound, draws).Ok? <==> |Drawn(draws)| >= mineCount
  {
    var r := Reset(n, mineCount, bound, draws);
    if r.Ok? {
      SubsetSize(MineCells(r.value), Drawn(draws));
    }
  }
}
