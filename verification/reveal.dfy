/**
 Opening cells: `open_cell` and `open_adjacent_cells` of main.py, the mutual
 recursion that floods out from a cell with no mine around it.

 Like placement, the neighbour loop tests its neighbours against a `bound`
 (`GRID_SIZE` as written, the board size as intended); a neighbour that passes
 the test but lies outside the lists makes the `grid[nx][ny]` lookup raise
 IndexError. The recursion terminates because every call that does anything
 opens one more cell: the measure is the number of unopened cells.

 What a flood opens is pinned from both sides. From below it is closed:
 every blank cell (no mine, count zero) it opens has every neighbour that
 passes the bounds test opened too. From above it is shut in: it lies inside
 every set that holds the clicked cell and is shut under the flood, that is,
 holds each neighbour on the board that passes the bounds test of each of
 its blank cells. Besides, every cell it opens, except the one clicked, lies
 next to a blank cell it opened; for a blank cell that says nothing, as it
 lies next to itself.
 */
module Reveal {
  import opened Grid
  import opened Outcomes
  import opened Board

  /** The cells opened on the way from b to r. */
  function Newly(b: Board, r: Board): (s: set<Cell>)
    requires b.Valid() && r.Valid()
  {
    Unopened(b) - Unopened(r)
  }

  /** Every cell opened on the way from b to r is free of mines. */
  predicate OpensNoMine(b: Board, r: Board)
    requires b.Valid() && r.Valid()
  {
    Newly(b, r) !! MineCells(b)
  }

  /**
   r is b after some cells were opened: the mines, counts and flags are
   untouched, no opened cell closes, and the round is over in r exactly when
   it was over in b or a mine was opened.
   */
  predicate Opens(b: Board, r: Board)
    requires b.Valid()
  {
    && r.Valid()
    && r.size == b.size
    && r.mines == b.mines
    && r.adjacent == b.adjacent
    && r.flags == b.flags
    && r.victory == b.victory
    && Unopened(r) <= Unopened(b)
    && r.gameOver == (b.gameOver || !OpensNoMine(b, r))
  }

  /** The m-th neighbour of (x, y), if it passes the bounds test, exists and is open in b. */
  predicate Covered(b: Board, bound: int, x: int, y: int, m: int)
    requires b.Valid() && 0 <= m < 9
  {
    var (i, j) := Neighbour(x, y, m);
    0 <= i < bound && 0 <= j < bound ==> InBounds(b.size, i, j) && (i, j) !in Unopened(b)
  }

  /** Every neighbour of c that passes the bounds test lies on the board and is open in b. */
  predicate Spread(b: Board, bound: int, c: Cell)
    requires b.Valid()
  {
    forall m | 0 <= m < 9 :: Covered(b, bound, c.0, c.1, m)
  }

  /** c lies on the board, holds no mine and counts zero: opening it floods on. */
  predicate Blank(b: Board, c: Cell)
    requires b.Valid()
  {
    InBounds(b.size, c.0, c.1) && !b.mines[c.0][c.1] && b.adjacent[c.0][c.1] == 0
  }

  /** The blank cells of s. */
  function Blanks(b: Board, s: set<Cell>): (t: set<Cell>)
    requires b.Valid()
  {
    set c | c in s && Blank(b, c)
  }

  /** Every blank cell opened on the way from b to r has its neighbours open in r. */
  predicate Closed(b: Board, r: Board, bound: int)
    requires b.Valid() && r.Valid()
  {
    forall c | c in Newly(b, r) && Blank(b, c) :: Spread(r, bound, c)
  }

  /** Every cell of s lies in the 3-by-3 block of some cell of seeds. */
  predicate Reached(s: set<Cell>, seeds: set<Cell>) {
    forall c | c in s :: exists z | z in seeds :: Near(z.0, z.1, c.0, c.1)
  }

  /** The m-th neighbour of (x, y), if it passes the bounds test and lies on the n-by-n board, is in s. */
  predicate NeighbourIn(n: nat, bound: int, s: set<Cell>, x: int, y: int, m: int)
    requires 0 <= m < 9
  {
    var (i, j) := Neighbour(x, y, m);
    0 <= i < bound && 0 <= j < bound && InBounds(n, i, j) ==> (i, j) in s
  }

  /** Every neighbour of (x, y) from the k-th on that passes the bounds test and lies on the board is in s. */
  predicate NeighboursIn(n: nat, bound: int, s: set<Cell>, x: int, y: int, k: nat)
  {
    forall m | k <= m < 9 :: NeighbourIn(n, bound, s, x, y, m)
  }

  /**
   s is shut under the flood: each blank cell of s has in s every neighbour
   that passes the bounds test and lies on the board. Every such set holding
   the clicked cell holds everything the flood from it opens.
   */
  predicate FloodShut(b: Board, bound: int, s: set<Cell>)
    requires b.Valid()
  {
    forall c | c in s && Blank(b, c) :: NeighboursIn(b.size, bound, s, c.0, c.1, 0)
  }

  /** b with (x, y) opened, the assignment `grid[x][y] = 1`. */
  function OpenOne(b: Board, x: int, y: int): (r: Board)
    requires b.Valid() && InBounds(b.size, x, y) && !b.grid[x][y]
    ensures r.Valid() && r.size == b.size
    ensures r.mines == b.mines && r.adjacent == b.adjacent && r.flags == b.flags
    ensures r.gameOver == b.gameOver && r.victory == b.victory
    ensures Unopened(r) == Unopened(b) - {(x, y)} && (x, y) in Unopened(b)
    ensures Newly(b, r) == {(x, y)}
    ensures |Unopened(r)| == |Unopened(b)| - 1
  {
    UpdateCells(b.grid, b.size, x, y, true);
    b.(grid := Update(b.grid, b.size, x, y, true))
  }

  /**
   `open_cell(x, y)`: a no-op on an opened cell; otherwise opens it, ends the
   round if it holds a mine, and floods on if its count is zero.
   */
  function OpenCell(b: Board, bound: int, x: int, y: int): (r: Result<Board>)
    requires b.Valid() && InBounds(b.size, x, y)
    ensures b.grid[x][y] ==> r == Ok(b)
    ensures r.Err? ==> r.error == IndexError
    ensures bound <= b.size ==> r.Ok?
    ensures b.mines[x][y] || b.adjacent[x][y] != 0 ==> r.Ok?
    ensures r.Ok? ==> Opens(b, r.value) && (x, y) !in Unopened(r.value)
    ensures r.Ok? && !b.grid[x][y] ==> |Unopened(r.value)| < |Unopened(b)|
    ensures r.Ok? && !b.grid[x][y] && (b.mines[x][y] || b.adjacent[x][y] != 0) ==>
      Unopened(r.value) == Unopened(b) - {(x, y)}
    ensures r.Ok? && !b.grid[x][y] && b.mines[x][y] ==> r.value.gameOver
    ensures r.Ok? && !b.grid[x][y] && !b.mines[x][y] && b.adjacent[x][y] == 0 ==>
      forall i, j | Near(x, y, i, j) && 0 <= i < bound && 0 <= j < bound :: InBounds(b.size, i, j) && r.value.grid[i][j]
    ensures r.Ok? ==> Closed(b, r.value, bound)
    ensures r.Ok? ==> Reached(Newly(b, r.value) - {(x, y)}, Blanks(b, Newly(b, r.value)))
    ensures r.Ok? ==> forall s | (x, y) in s && FloodShut(b, bound, s) :: Newly(b, r.value) <= s
    decreases |Unopened(b)|, 1
  {
    if b.grid[x][y] then
      assert Newly(b, b) == {};
      Ok(b)
    else if b.mines[x][y] then
      var r := OpenOne(b, x, y).(gameOver := true);
      assert Newly(b, r) == {(x, y)} && (x, y) in MineCells(b);
      Ok(r)
    else if b.adjacent[x][y] == 0 then OpenBlank(b, bound, x, y)
    else
      var r := OpenOne(b, x, y);
      assert (x, y) !in MineCells(b);
      Ok(r)
  }

  /** `open_cell` on a closed blank cell: opens it, then floods around it. */
  function OpenBlank(b: Board, bound: int, x: int, y: int): (r: Result<Board>)
    requires b.Valid() && InBounds(b.size, x, y) && !b.grid[x][y] && Blank(b, (x, y))
    ensures r.Err? ==> r.error == IndexError
    ensures bound <= b.size ==> r.Ok?
    ensures r.Ok? ==> Opens(b, r.value) && (x, y) !in Unopened(r.value)
    ensures r.Ok? ==> |Unopened(r.value)| < |Unopened(b)|
    ensures r.Ok? ==>
      forall i, j | Near(x, y, i, j) && 0 <= i < bound && 0 <= j < bound :: InBounds(b.size, i, j) && r.value.grid[i][j]
    ensures r.Ok? ==> Closed(b, r.value, bound)
    ensures r.Ok? ==> Reached(Newly(b, r.value) - {(x, y)}, Blanks(b, Newly(b, r.value)))
    ensures r.Ok? ==> forall s | (x, y) in s && FloodShut(b, bound, s) :: Newly(b, r.value) <= s
    decreases |Unopened(b)|, 0
  {
    var b1 := OpenOne(b, x, y);
    var r := OpenAdjacentCells(b1, bound, x, y);
    if r.Ok? then
      SubsetSize(Unopened(r.value), Unopened(b1));
      assert (x, y) !in MineCells(b);
      assert Opens(b, b1);
      FloodCentre(b, b1, r.value, bound, x, y);
      CentreShut(b, b1, r.value, bound, x, y);
      r
    else r
  }

  /**
   Iteration k of the loop of `open_adjacent_cells(x, y)`: opens the k-th
   neighbour if it passes the bounds test and is still closed. A neighbour
   that passes the test but lies off the lists raises IndexError.
   */
  function OpenNeighbour(b: Board, bound: int, x: int, y: int, k: nat): (r: Result<Board>)
    requires b.Valid() && InBounds(b.size, x, y) && k < 9
    ensures r.Err? ==> r.error == IndexError
    ensures bound <= b.size ==> r.Ok?
    ensures r.Ok? ==> Opens(b, r.value) && Covered(r.value, bound, x, y, k)
    ensures r.Ok? ==> Closed(b, r.value, bound)
    ensures r.Ok? ==> Reached(Newly(b, r.value), {(x, y)} + Blanks(b, Newly(b, r.value)))
    ensures r.Ok? ==> forall s | NeighbourIn(b.size, bound, s, x, y, k) && FloodShut(b, bound, s) :: Newly(b, r.value) <= s
    decreases |Unopened(b)|, 2
  {
    var (i, j) := Neighbour(x, y, k);
    if 0 <= i < bound && 0 <= j < bound then
      if !InBounds(b.size, i, j) then Err(IndexError)
      else if b.grid[i][j] then
        assert Newly(b, b) == {};
        Ok(b)
      else
        var r := OpenCell(b, bound, i, j);
        if r.Ok? then ReachedFromNeighbour(b, r.value, x, y, i, j); r else r
    else
      assert Newly(b, b) == {};
      Ok(b)
  }

  /**
   The loop of `open_adjacent_cells(x, y)` from its k-th iteration on: opens
   every neighbour that passes the bounds test and is still closed.
   */
  function OpenAdjacentFrom(b: Board, bound: int, x: int, y: int, k: nat): (r: Result<Board>)
    requires b.Valid() && InBounds(b.size, x, y) && k <= 9
    ensures r.Err? ==> r.error == IndexError
    ensures bound <= b.size ==> r.Ok?
    ensures r.Ok? ==> Opens(b, r.value)
    ensures r.Ok? ==> forall m | k <= m < 9 :: Covered(r.value, bound, x, y, m)
    ensures r.Ok? ==> Closed(b, r.value, bound)
    ensures r.Ok? ==> Reached(Newly(b, r.value), {(x, y)} + Blanks(b, Newly(b, r.value)))
    ensures r.Ok? ==> forall s | NeighboursIn(b.size, bound, s, x, y, k) && FloodShut(b, bound, s) :: Newly(b, r.value) <= s
    decreases |Unopened(b)|, 12 - k
  {
    if k == 9 then
      assert Newly(b, b) == {};
      Ok(b)
    else
      match OpenNeighbour(b, bound, x, y, k)
      case Err(e) => Err(e)
      case Ok(b') =>
        SubsetSize(Unopened(b'), Unopened(b));
        var r := OpenAdjacentFrom(b', bound, x, y, k + 1);
        if r.Ok? then
          FloodStep(b, b', r.value, bound, x, y, k);
          ShutStep(b, b', r.value, bound, x, y, k);
          r
        else r
  }

  /**
   `open_adjacent_cells(x, y)`: afterwards every neighbour of (x, y) that
   passes the bounds test lies on the board and is open.
   */
  function OpenAdjacentCells(b: Board, bound: int, x: int, y: int): (r: Result<Board>)
    requires b.Valid() && InBounds(b.size, x, y)
    ensures r.Err? ==> r.error == IndexError
    ensures bound <= b.size ==> r.Ok?
    ensures r.Ok? ==> Opens(b, r.value)
    ensures r.Ok? ==> forall i, j | Near(x, y, i, j) && 0 <= i < bound && 0 <= j < bound ::
      InBounds(b.size, i, j) && r.value.grid[i][j]
    ensures r.Ok? ==> Spread(r.value, bound, (x, y))
    ensures r.Ok? ==> Closed(b, r.value, bound)
    ensures r.Ok? ==> Reached(Newly(b, r.value), {(x, y)} + Blanks(b, Newly(b, r.value)))
    ensures r.Ok? ==> forall s | NeighboursIn(b.size, bound, s, x, y, 0) && FloodShut(b, bound, s) :: Newly(b, r.value) <= s
    decreases |Unopened(b)|, 13
  {
    var r := OpenAdjacentFrom(b, bound, x, y, 0);
    if r.Ok? then CoveredMeansOpen(r.value, bound, x, y); r else r
  }

  /** Opening in two stages is opening. */
  lemma OpensCompose(b: Board, b': Board, r: Board)
    requires b.Valid() && Opens(b, b') && Opens(b', r)
    ensures Opens(b, r)
    ensures Newly(b, r) == Newly(b, b') + Newly(b', r)
  {
    assert MineCells(b') == MineCells(b);
    assert Newly(b, r) == Newly(b, b') + Newly(b', r);
  }

  /** Neighbours once open stay open. */
  lemma SpreadGrows(b: Board, r: Board, bound: int, c: Cell)
    requires b.Valid() && Opens(b, r) && Spread(b, bound, c)
    ensures Spread(r, bound, c)
  {
    forall m | 0 <= m < 9 ensures Covered(r, bound, c.0, c.1, m) {
      assert Covered(b, bound, c.0, c.1, m);
    }
  }

  /** Opening the neighbour (i, j) of (x, y) is reached from (x, y) and the blank cells it opened. */
  lemma ReachedFromNeighbour(b: Board, r: Board, x: int, y: int, i: int, j: int)
    requires b.Valid() && r.Valid() && Near(x, y, i, j)
    requires Reached(Newly(b, r) - {(i, j)}, Blanks(b, Newly(b, r)))
    ensures Reached(Newly(b, r), {(x, y)} + Blanks(b, Newly(b, r)))
  {
    var seeds := {(x, y)} + Blanks(b, Newly(b, r));
    forall c | c in Newly(b, r) ensures exists z | z in seeds :: Near(z.0, z.1, c.0, c.1) {
      if c == (i, j) {
        assert (x, y) in seeds;
      } else {
        var z :| z in Blanks(b, Newly(b, r)) && Near(z.0, z.1, c.0, c.1);
        assert z in seeds;
      }
    }
  }

  /**
   Iteration k of the neighbour loop around (x, y) took b to b', and the rest
   of the loop took b' to r: the two stages together open, are closed and are
   reached from (x, y) and the blank cells they opened, and the k-th
   neighbour stays covered.
   */
  lemma FloodStep(b: Board, b': Board, r: Board, bound: int, x: int, y: int, k: nat)
    requires b.Valid() && Opens(b, b') && Opens(b', r) && k < 9
    requires Covered(b', bound, x, y, k)
    requires Closed(b, b', bound) && Closed(b', r, bound)
    requires Reached(Newly(b, b'), {(x, y)} + Blanks(b, Newly(b, b')))
    requires Reached(Newly(b', r), {(x, y)} + Blanks(b', Newly(b', r)))
    ensures Opens(b, r)
    ensures Covered(r, bound, x, y, k)
    ensures Closed(b, r, bound)
    ensures Reached(Newly(b, r), {(x, y)} + Blanks(b, Newly(b, r)))
  {
    OpensCompose(b, b', r);
    var seeds := {(x, y)} + Blanks(b, Newly(b, r));
    forall c | c in Newly(b, r) && Blank(b, c) ensures Spread(r, bound, c) {
      if c in Newly(b, b') {
        SpreadGrows(b', r, bound, c);
      } else {
        assert c in Newly(b', r) && Blank(b', c);
      }
    }
    forall c | c in Newly(b, r) ensures exists z | z in seeds :: Near(z.0, z.1, c.0, c.1) {
      if c in Newly(b, b') {
        var z :| z in {(x, y)} + Blanks(b, Newly(b, b')) && Near(z.0, z.1, c.0, c.1);
        assert z in seeds;
      } else {
        var z :| z in {(x, y)} + Blanks(b', Newly(b', r)) && Near(z.0, z.1, c.0, c.1);
        assert z in seeds;
      }
    }
  }

  /**
   Opening the blank cell (x, y) took b to b1 and the loop around it took b1
   to r: the whole flood opens, is closed, and every cell it opened but
   (x, y) lies next to a blank cell it opened.
   */
  lemma FloodCentre(b: Board, b1: Board, r: Board, bound: int, x: int, y: int)
    requires b.Valid() && InBounds(b.size, x, y) && !b.grid[x][y] && Blank(b, (x, y))
    requires Opens(b, b1) && Newly(b, b1) == {(x, y)} && Opens(b1, r)
    requires Spread(r, bound, (x, y)) && Closed(b1, r, bound)
    requires Reached(Newly(b1, r), {(x, y)} + Blanks(b1, Newly(b1, r)))
    ensures Opens(b, r)
    ensures Closed(b, r, bound)
    ensures Reached(Newly(b, r) - {(x, y)}, Blanks(b, Newly(b, r)))
  {
    OpensCompose(b, b1, r);
    CentreClosed(b, b1, r, bound, x, y);
    CentreReached(b, b1, r, x, y);
  }

  /** The centre of a flood has spread, and the rest of the flood is closed: so is the whole. */
  lemma CentreClosed(b: Board, b1: Board, r: Board, bound: int, x: int, y: int)
    requires b.Valid() && b1.Valid() && r.Valid()
    requires b1.size == b.size && b1.mines == b.mines && b1.adjacent == b.adjacent
    requires Newly(b, r) == {(x, y)} + Newly(b1, r)
    requires Spread(r, bound, (x, y)) && Closed(b1, r, bound)
    ensures Closed(b, r, bound)
  {
    forall c | c in Newly(b, r) && Blank(b, c) ensures Spread(r, bound, c) {
      if c != (x, y) {
        assert c in Newly(b1, r) && Blank(b1, c);
      }
    }
  }

  /** The cells a flood opened around its blank centre are reached from the blank cells it opened. */
  lemma CentreReached(b: Board, b1: Board, r: Board, x: int, y: int)
    requires b.Valid() && b1.Valid() && r.Valid() && Blank(b, (x, y))
    requires b1.size == b.size && b1.mines == b.mines && b1.adjacent == b.adjacent
    requires Newly(b, r) == {(x, y)} + Newly(b1, r)
    requires Reached(Newly(b1, r), {(x, y)} + Blanks(b1, Newly(b1, r)))
    ensures Reached(Newly(b, r) - {(x, y)}, Blanks(b, Newly(b, r)))
  {
    var seeds := Blanks(b, Newly(b, r));
    assert (x, y) in seeds;
    forall c | c in Newly(b, r) - {(x, y)} ensures exists z | z in seeds :: Near(z.0, z.1, c.0, c.1) {
      assert c in Newly(b1, r);
      var z :| z in {(x, y)} + Blanks(b1, Newly(b1, r)) && Near(z.0, z.1, c.0, c.1);
      assert z in seeds;
    }
  }

  /** Boards with the same mines and counts are shut under the flood by the same sets. */
  lemma ShutSame(b: Board, b': Board, bound: int, s: set<Cell>)
    requires b.Valid() && b'.Valid()
    requires b'.size == b.size && b'.mines == b.mines && b'.adjacent == b.adjacent
    ensures FloodShut(b, bound, s) <==> FloodShut(b', bound, s)
  {
    assert forall c :: Blank(b, c) == Blank(b', c);
  }

  /**
   Iteration k of the neighbour loop took b to b' and the rest of the loop
   took b' to r: every set shut under the flood that holds the neighbours
   from the k-th on holds everything the two stages opened.
   */
  lemma ShutStep(b: Board, b': Board, r: Board, bound: int, x: int, y: int, k: nat)
    requires b.Valid() && Opens(b, b') && Opens(b', r) && k < 9
    requires forall s | NeighbourIn(b.size, bound, s, x, y, k) && FloodShut(b, bound, s) :: Newly(b, b') <= s
    requires forall s | NeighboursIn(b'.size, bound, s, x, y, k + 1) && FloodShut(b', bound, s) :: Newly(b', r) <= s
    ensures forall s | NeighboursIn(b.size, bound, s, x, y, k) && FloodShut(b, bound, s) :: Newly(b, r) <= s
  {
    OpensCompose(b, b', r);
    forall s | NeighboursIn(b.size, bound, s, x, y, k) && FloodShut(b, bound, s) ensures Newly(b, r) <= s {
      ShutSame(b, b', bound, s);
      assert NeighbourIn(b.size, bound, s, x, y, k);
      assert NeighboursIn(b'.size, bound, s, x, y, k + 1);
    }
  }

  /**
   Opening the blank cell (x, y) took b to b1 and the loop around it took b1
   to r: every set shut under the flood that holds (x, y) holds its
   neighbours, and so everything the flood opened.
   */
  lemma CentreShut(b: Board, b1: Board, r: Board, bound: int, x: int, y: int)
    requires b.Valid() && Blank(b, (x, y))
    requires Opens(b, b1) && Newly(b, b1) == {(x, y)} && Opens(b1, r)
    requires forall s | NeighboursIn(b1.size, bound, s, x, y, 0) && FloodShut(b1, bound, s) :: Newly(b1, r) <= s
    ensures forall s | (x, y) in s && FloodShut(b, bound, s) :: Newly(b, r) <= s
  {
    OpensCompose(b, b1, r);
    forall s | (x, y) in s && FloodShut(b, bound, s) ensures Newly(b, r) <= s {
      ShutSame(b, b1, bound, s);
      assert NeighboursIn(b.size, bound, s, x, y, 0);
    }
  }

  /** Covering every iteration means opening every neighbour that passes the bounds test. */
  lemma CoveredMeansOpen(b: Board, bound: int, x: int, y: int)
    requires b.Valid()
    requires forall m | 0 <= m < 9 :: Covered(b, bound, x, y, m)
    ensures forall i, j | Near(x, y, i, j) && 0 <= i < bound && 0 <= j < bound :: InBounds(b.size, i, j) && b.grid[i][j]
  {
    forall i, j | Near(x, y, i, j) && 0 <= i < bound && 0 <= j < bound
      ensures InBounds(b.size, i, j) && b.grid[i][j]
    {
      assert Covered(b, bound, x, y, OffsetIndex(x, y, i, j));
    }
  }

  /** A neighbour of c that passes the bounds test is open once c has spread. */
  lemma SpreadOpens(b: Board, bound: int, c: Cell, i: int, j: int)
    requires b.Valid() && Spread(b, bound, c)
    requires Near(c.0, c.1, i, j) && 0 <= i < bound && 0 <= j < bound
    ensures InBounds(b.size, i, j) && (i, j) !in Unopened(b)
  {
    assert Covered(b, bound, c.0, c.1, OffsetIndex(c.0, c.1, i, j));
  }

  /** No cell of the 3-by-3 block around (x, y) holds a mine. */
  predicate NoMineNear(mines: seq<seq<bool>>, n: nat, x: int, y: int)
    requires IsGrid(mines, n)
  {
    forall i, j | 0 <= i < n && 0 <= j < n && Near(x, y, i, j) :: !mines[i][j]
  }

  /** With correct counts, a zero count means a mine-free block. */
  lemma ZeroCountMeansNoMineNear(b: Board, x: int, y: int)
    requires b.Valid() && InBounds(b.size, x, y) && b.adjacent[x][y] == 0
    ensures b.Counted() ==> NoMineNear(b.mines, b.size, x, y)
  {
    if b.Counted() {
      assert Block(b.mines, b.size, x, y) == {};
      forall i, j | 0 <= i < b.size && 0 <= j < b.size && Near(x, y, i, j)
        ensures !b.mines[i][j]
      {
        assert (i, j) !in Block(b.mines, b.size, x, y);
      }
    }
  }

  /**
   With correct counts, opening a cell ends the round exactly when the round
   was already over or the cell was closed and held a mine, and opening a
   safe cell opens no mine at all: every other cell the flood opens lies
   next to a blank cell, whose block holds no mine.
   */
  lemma OpenCellSafe(b: Board, bound: int, x: int, y: int)
    requires b.Valid() && InBounds(b.size, x, y) && b.Counted()
    requires OpenCell(b, bound, x, y).Ok?
    ensures OpenCell(b, bound, x, y).value.gameOver <==> b.gameOver || (!b.grid[x][y] && b.mines[x][y])
    ensures !b.mines[x][y] ==> OpensNoMine(b, OpenCell(b, bound, x, y).value)
  {
    var r := OpenCell(b, bound, x, y).value;
    forall c | c in Newly(b, r) - {(x, y)} ensures c !in MineCells(b) {
      var z :| z in Blanks(b, Newly(b, r)) && Near(z.0, z.1, c.0, c.1);
      ZeroCountMeansNoMineNear(b, z.0, z.1);
    }
    if !b.grid[x][y] {
      assert (x, y) in Newly(b, r);
      assert (x, y) in MineCells(b) <==> b.mines[x][y];
    }
  }

  /**
   On a board with no mine and nothing opened yet, with the intended bound,
   one click opens every cell: the flood spreads from blank cell to blank
   cell across the whole board.
   */
  lemma EmptyBoardOpensAll(b: Board, x: int, y: int)
    requires b.Valid() && InBounds(b.size, x, y)
    requires forall i, j | InBounds(b.size, i, j) :: !b.grid[i][j] && !b.mines[i][j] && b.adjacent[i][j] == 0
    ensures OpenCell(b, b.size, x, y).Ok?
    ensures Unopened(OpenCell(b, b.size, x, y).value) == {}
  {
    var r := OpenCell(b, b.size, x, y).value;
    forall c | c in Unopened(r) ensures false {
      OpenedByFlood(b, r, x, y, c.0, c.1);
    }
  }

  /** Induction on the distance from the clicked cell (x, y) to (i, j). */
  lemma {:induction false} OpenedByFlood(b: Board, r: Board, x: int, y: int, i: int, j: int)
    requires b.Valid() && InBounds(b.size, x, y) && InBounds(b.size, i, j)
    requires forall i, j | InBounds(b.size, i, j) :: !b.grid[i][j] && !b.mines[i][j] && b.adjacent[i][j] == 0
    requires Opens(b, r) && Closed(b, r, b.size) && (x, y) !in Unopened(r)
    ensures (i, j) !in Unopened(r)
    decreases (if i < x then x - i else i - x) + (if j < y then y - j else j - y)
  {
    if (i, j) != (x, y) {
      var (p, q) := if i < x then (i + 1, j) else if i > x then (i - 1, j) else if j < y then (i, j + 1) else (i, j - 1);
      OpenedByFlood(b, r, x, y, p, q);
      assert (p, q) in Unopened(b);
      assert (p, q) in Newly(b, r) && Blank(b, (p, q));
      SpreadOpens(r, b.size, (p, q), i, j);
    }
  }

  /**
   A column w holding a mine in every row walls the flood in: with correct
   counts, a click left of the wall opens nothing at or beyond it, because no
   cell next to the wall is blank.
   */
  lemma MineWallStopsFlood(b: Board, bound: int, w: int, x: int, y: int)
    requires b.Valid() && b.Counted() && InBounds(b.size, x, y) && x < w < b.size
    requires forall j | 0 <= j < b.size :: b.mines[w][j]
    requires OpenCell(b, bound, x, y).Ok?
    ensures forall c | c in Newly(b, OpenCell(b, bound, x, y).value) :: c.0 < w
  {
    WallShut(b, bound, w);
    assert (x, y) in LeftOf(w, b.size);
  }

  /** The cells of an n-by-n board left of column w. */
  function LeftOf(w: int, n: nat): (s: set<Cell>)
    ensures forall c | c in s :: 0 <= c.0 < w && 0 <= c.1 < n
    ensures forall i, j | 0 <= i < w && 0 <= j < n :: (i, j) in s
  {
    set i, j | 0 <= i < w && 0 <= j < n :: (i, j)
  }

  /** With correct counts, the cells left of a column of mines are shut under the flood. */
  lemma WallShut(b: Board, bound: int, w: int)
    requires b.Valid() && b.Counted() && 0 <= w < b.size
    requires forall j | 0 <= j < b.size :: b.mines[w][j]
    ensures FloodShut(b, bound, LeftOf(w, b.size))
  {
    var left := LeftOf(w, b.size);
    forall c | c in left && Blank(b, c) ensures NeighboursIn(b.size, bound, left, c.0, c.1, 0) {
      ZeroCountMeansNoMineNear(b, c.0, c.1);
      assert b.mines[w][c.1] && !Near(c.0, c.1, w, c.1);
      forall m | 0 <= m < 9 ensures NeighbourIn(b.size, bound, left, c.0, c.1, m) {
        var (i, j) := Neighbour(c.0, c.1, m);
        assert InBounds(b.size, i, j) ==> (i, j) in left;
      }
    }
  }

  /**
   The flood tests only `grid`, never `flags`: a flagged neighbour of a
   zero-count cell is opened and keeps its flag, so it ends up both flagged
   and open.
   */
  lemma FloodOpensFlaggedCell(b: Board, bound: int, x: int, y: int, i: int, j: int)
    requires b.Valid() && InBounds(b.size, x, y)
    requires !b.grid[x][y] && !b.mines[x][y] && b.adjacent[x][y] == 0
    requires InBounds(b.size, i, j) && Near(x, y, i, j) && i < bound && j < bound && b.flags[i][j]
    requires OpenCell(b, bound, x, y).Ok?
    ensures OpenCell(b, bound, x, y).value.grid[i][j] && OpenCell(b, bound, x, y).value.flags[i][j]
  {
  }

  /**
   As written the bound is GRID_SIZE: on a board smaller than that, opening a
   closed safe cell with a zero count on the last row or column floods to a
   neighbour one past the lists, and the lookup there raises IndexError.
   */
  lemma EdgeFloodCrashes(b: Board, x: int, y: int)
    requires b.Valid() && InBounds(b.size, x, y) && b.size < GRID_SIZE
    requires x == b.size - 1 || y == b.size - 1
    requires !b.grid[x][y] && !b.mines[x][y] && b.adjacent[x][y] == 0
    ensures OpenCell(b, GRID_SIZE, x, y) == Err(IndexError)
  {
    EdgeBlankCrashes(b, x, y);
  }

  /** The flood from a blank cell on the last row or column, with the bound GRID_SIZE, fails. */
  lemma EdgeBlankCrashes(b: Board, x: int, y: int)
    requires b.Valid() && InBounds(b.size, x, y) && b.size < GRID_SIZE
    requires x == b.size - 1 || y == b.size - 1
    requires !b.grid[x][y] && Blank(b, (x, y))
    ensures OpenBlank(b, GRID_SIZE, x, y) == Err(IndexError)
  {
    var r := OpenBlank(b, GRID_SIZE, x, y);
    var (i, j) := PastEdge(b.size, GRID_SIZE, x, y);
    assert r.Ok? ==> InBounds(b.size, i, j);
  }

  /** A cell on the last row or column has a neighbour off the board that passes a larger bound. */
  function PastEdge(n: nat, bound: int, x: int, y: int): (c: Cell)
    requires InBounds(n, x, y) && n < bound && (x == n - 1 || y == n - 1)
    ensures Near(x, y, c.0, c.1) && 0 <= c.0 < bound && 0 <= c.1 < bound && !InBounds(n, c.0, c.1)
  {
    if x == n - 1 then (x + 1, y) else (x, y + 1)
  }
}
