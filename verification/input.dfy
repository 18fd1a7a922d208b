/**
 The pure part of the Minesweeper class's input handling: the difficulty
 table of `choose_difficulty`, and `handle_mouse_input`, which turns a pixel
 into a cell with floor divisions and dispatches on the mouse button.
 */
module Input {
  import opened Grid
  import opened Outcomes
  import opened Board
  import opened Reveal
  import opened Placement

  /** What choose_difficulty stores: grid_size, mine_count, screen_width, screen_height. */
  datatype Settings = Settings(gridSize: nat, mineCount: nat, screenWidth: nat, screenHeight: nat)

  /** A MOUSEBUTTONDOWN event: the button number and the pixel position in the window. */
  datatype Click = Click(button: int, px: nat, py: nat)

  /**
   `choose_difficulty` after the prompt: '1' is Easy, '2' is Medium, and
   every other answer falls back to Hard, which is the module constants.
   Every row fits its screen with whole cells and leaves at least one safe cell.
   */
  function ChooseDifficulty(choice: string): (s: Settings)
    ensures 0 < s.gridSize <= GRID_SIZE
    ensures s.mineCount < s.gridSize * s.gridSize
    ensures s.gridSize <= s.screenWidth && s.screenWidth % s.gridSize == 0
    ensures s.gridSize <= s.screenHeight && s.screenHeight % s.gridSize == 0
    ensures s == Settings(GRID_SIZE, MINE_COUNT, SCREEN_WIDTH, SCREEN_HEIGHT) <==> choice != "1" && choice != "2"
    ensures s.gridSize == GRID_SIZE <==> choice != "1" && choice != "2"
  {
    if choice == "1" then Settings(8, 10, 400, 400)
    else if choice == "2" then Settings(10, 15, 500, 500)
    else Settings(20, 40, 800, 600)
  }

  /**
   `pos // (dim // n)`: the index of the cell, dim // n pixels wide, that the
   pixel pos falls in. `dim // n` is zero when the screen is narrower than the
   grid, and Python's division by it raises ZeroDivisionError. When the screen
   is a whole number of cells, every pixel on it lands on a cell of the grid.
   */
  function CellIndex(pos: nat, dim: nat, n: nat): (r: Result<int>)
    ensures r.Err? <==> n == 0 || dim < n
    ensures r.Err? ==> r.error == ZeroDivisionError
    ensures r.Ok? ==> 0 <= r.value && r.value * (dim / n) <= pos < (r.value + 1) * (dim / n)
    ensures r.Ok? && dim % n == 0 && pos < dim ==> r.value < n
  {
    if n == 0 || dim / n == 0 then Err(ZeroDivisionError)
    else Ok(pos / (dim / n))
  }

  /** The cell handle_mouse_input computes, x from the horizontal pixel first. */
  function Target(n: nat, width: nat, height: nat, c: Click): (r: Result<Cell>)
  {
    match CellIndex(c.px, width, n)
    case Err(e) => Err(e)
    case Ok(x) =>
      match CellIndex(c.py, height, n)
      case Err(e) => Err(e)
      case Ok(y) => Ok((x, y))
  }

  /**
   `handle_mouse_input`: a left click (button 1) opens the target cell unless
   it is flagged; a right click (button 3) toggles its flag unless it is open;
   other buttons do nothing. The index lookups raise IndexError on a target
   outside the grid.
   */
  function HandleMouseInput(b: Board, width: nat, height: nat, bound: int, c: Click): (r: Result<Board>)
    requires b.Valid()
    ensures Target(b.size, width, height, c).Err? ==> r == Err(ZeroDivisionError)
    ensures r.Ok? ==> r.value.Valid() && r.value.size == b.size
    ensures r.Ok? ==> r.value.mines == b.mines && r.value.adjacent == b.adjacent && r.value.victory == b.victory
    ensures r.Ok? ==> Unopened(r.value) <= Unopened(b)
    ensures r.Ok? && c.button != 1 ==> r.value.grid == b.grid && r.value.gameOver == b.gameOver
    ensures r.Ok? && c.button == 1 ==> r.value.flags == b.flags
    ensures Target(b.size, width, height, c).Ok? && c.button != 1 && c.button != 3 ==> r == Ok(b)
    ensures Target(b.size, width, height, c).Ok? ==>
      var (x, y) := Target(b.size, width, height, c).value;
      && ((c.button == 1 || c.button == 3) && !InBounds(b.size, x, y) ==> r == Err(IndexError))
      && (c.button == 1 && InBounds(b.size, x, y) && b.flags[x][y] ==> r == Ok(b))
      && (c.button == 1 && InBounds(b.size, x, y) && !b.flags[x][y] ==> r == OpenCell(b, bound, x, y))
      && (c.button == 1 && InBounds(b.size, x, y) && !b.flags[x][y] && r.Ok? ==> r.value.grid[x][y])
      && (c.button == 1 && InBounds(b.size, x, y) && bound <= b.size ==> r.Ok?)
      && (c.button == 3 && InBounds(b.size, x, y) && b.grid[x][y] ==> r == Ok(b))
      && (c.button == 3 && InBounds(b.size, x, y) && !b.grid[x][y] ==>
            r.Ok? && r.value.flags[x][y] == !b.flags[x][y] &&
            forall i, j | InBounds(b.size, i, j) && (i != x || j != y) :: r.value.flags[i][j] == b.flags[i][j])
  {
    match Target(b.size, width, height, c)
    case Err(e) => Err(e)
    case Ok((x, y)) =>
      if c.button == 1 then
        if !InBounds(b.size, x, y) then Err(IndexError)
        else if !b.flags[x][y] then OpenCell(b, bound, x, y)
        else Ok(b)
      else if c.button == 3 then
        if !InBounds(b.size, x, y) then Err(IndexError)
        else if !b.grid[x][y] then Ok(ToggleFlag(b, x, y))
        else Ok(b)
      else Ok(b)
  }

  /**
   On the Easy board as written, the very first mine drawn at (7, 0), on the
   last row, crashes `reset`.
   */
  lemma EasyEdgeMineCrashes()
    ensures var s := ChooseDifficulty("1");
      Reset(s.gridSize, s.mineCount, GRID_SIZE, [(7, 0)]) == Err(IndexError)
  {
    EdgeMineCrashes(Fill(8, 0), 8, 7, 0);
  }

  /**
   With any difficulty, a click inside the window hits a cell of the grid, so
   it fails only if the flood's bounds test lets a neighbour off the board.
   */
  lemma ClickInWindowFindsCell(choice: string, b: Board, bound: int, c: Click)
    requires b.Valid() && b.size == ChooseDifficulty(choice).gridSize
    requires c.px < ChooseDifficulty(choice).screenWidth && c.py < ChooseDifficulty(choice).screenHeight
    ensures Target(b.size, ChooseDifficulty(choice).screenWidth, ChooseDifficulty(choice).screenHeight, c).Ok?
    ensures InBounds(b.size, Target(b.size, ChooseDifficulty(choice).screenWidth, ChooseDifficulty(choice).screenHeight, c).value.0,
                     Target(b.size, ChooseDifficulty(choice).screenWidth, ChooseDifficulty(choice).screenHeight, c).value.1)
    ensures bound <= b.size ==> HandleMouseInput(b, ChooseDifficulty(choice).screenWidth, ChooseDifficulty(choice).screenHeight, bound, c).Ok?
  {
  }

  /** Two right clicks on the same closed cell give back the board they started from. */
  lemma RightClickTwice(b: Board, width: nat, height: nat, bound: int, px: nat, py: nat)
    requires b.Valid()
    requires Target(b.size, width, height, Click(3, px, py)).Ok?
    requires var (x, y) := Target(b.size, width, height, Click(3, px, py)).value; InBounds(b.size, x, y) && !b.grid[x][y]
    ensures HandleMouseInput(b, width, height, bound, Click(3, px, py)).Ok?
    ensures HandleMouseInput(HandleMouseInput(b, width, height, bound, Click(3, px, py)).value, width, height, bound, Click(3, px, py))
         == Ok(b)
  {
    var (x, y) := Target(b.size, width, height, Click(3, px, py)).value;
    ToggleFlagTwice(b, x, y);
  }

  /** A right click that flags a closed cell makes a following left click on it do nothing. */
  lemma FlagBlocksOpen(b: Board, width: nat, height: nat, bound: int, px: nat, py: nat)
    requires b.Valid()
    requires Target(b.size, width, height, Click(3, px, py)).Ok?
    requires var (x, y) := Target(b.size, width, height, Click(3, px, py)).value;
      InBounds(b.size, x, y) && !b.grid[x][y] && !b.flags[x][y]
    ensures var flagged := HandleMouseInput(b, width, height, bound, Click(3, px, py));
      flagged.Ok? && HandleMouseInput(flagged.value, width, height, bound, Click(1, px, py)) == flagged
  {
    var (x, y) := Target(b.size, width, height, Click(3, px, py)).value;
    assert Target(b.size, width, height, Click(1, px, py)) == Target(b.size, width, height, Click(3, px, py));
  }
}
