/**
 Square grids as nested sequences, indexed g[x][y] the way the Minesweeper
 class indexes its row-of-rows lists, together with the 3-by-3 neighbourhood
 that both neighbour loops of the class walk.
 */
module Grid {

  /** A cell address (x, y). */
  type Cell = (int, int)

  predicate InBounds(n: int, x: int, y: int) {
    0 <= x < n && 0 <= y < n
  }

  /** g is an n-by-n grid. */
  predicate IsGrid<T>(g: seq<seq<T>>, n: nat) {
    |g| == n && forall x | 0 <= x < n :: |g[x]| == n
  }

  /** The list comprehension `[[v] * n for _ in range(n)]`. */
  function Fill<T>(n: nat, v: T): (g: seq<seq<T>>)
    ensures IsGrid(g, n)
    ensures forall x, y | InBounds(n, x, y) :: g[x][y] == v
  {
    seq(n, _ => seq(n, _ => v))
  }

  /** The assignment `g[x][y] = v`. */
  function Update<T>(g: seq<seq<T>>, n: nat, x: int, y: int, v: T): (h: seq<seq<T>>)
    requires IsGrid(g, n) && InBounds(n, x, y)
    ensures IsGrid(h, n)
    ensures h[x][y] == v
    ensures forall i, j | InBounds(n, i, j) && (i != x || j != y) :: h[i][j] == g[i][j]
  {
    g[x := g[x][y := v]]
  }

  /** The cells of a boolean grid that hold v. */
  function Cells(g: seq<seq<bool>>, n: nat, v: bool): (s: set<Cell>)
    requires IsGrid(g, n)
    ensures forall c | c in s :: InBounds(n, c.0, c.1) && g[c.0][c.1] == v
    ensures forall x, y | InBounds(n, x, y) && g[x][y] == v :: (x, y) in s
  {
    set x, y | 0 <= x < n && 0 <= y < n && g[x][y] == v :: (x, y)
  }


  /** Flipping one cell to v adds exactly that cell to the v-cells and removes it from the others. */
  lemma UpdateCells(g: seq<seq<bool>>, n: nat, x: int, y: int, v: bool)
    requires IsGrid(g, n) && InBounds(n, x, y) && g[x][y] != v
    ensures Cells(Update(g, n, x, y, v), n, v) == Cells(g, n, v) + {(x, y)}
    ensures Cells(Update(g, n, x, y, v), n, !v) == Cells(g, n, !v) - {(x, y)}
    ensures |Cells(Update(g, n, x, y, v), n, v)| == |Cells(g, n, v)| + 1
    ensures |Cells(Update(g, n, x, y, v), n, !v)| == |Cells(g, n, !v)| - 1
  {
    UpdateGains(g, n, x, y, v);
    UpdateLoses(g, n, x, y, v);
  }

  lemma UpdateGains(g: seq<seq<bool>>, n: nat, x: int, y: int, v: bool)
    requires IsGrid(g, n) && InBounds(n, x, y) && g[x][y] != v
    ensures Cells(Update(g, n, x, y, v), n, v) == Cells(g, n, v) + {(x, y)}
  {
    var h := Update(g, n, x, y, v);
    forall c | c in Cells(h, n, v) ensures c in Cells(g, n, v) + {(x, y)} {
      if c != (x, y) {
        assert g[c.0][c.1] == h[c.0][c.1];
      }
    }
    forall c | c in Cells(g, n, v) + {(x, y)} ensures c in Cells(h, n, v) {
      if c != (x, y) {
        assert g[c.0][c.1] == h[c.0][c.1];
      }
    }
  }

  lemma UpdateLoses(g: seq<seq<bool>>, n: nat, x: int, y: int, v: bool)
    requires IsGrid(g, n) && InBounds(n, x, y) && g[x][y] != v
    ensures Cells(Update(g, n, x, y, v), n, !v) == Cells(g, n, !v) - {(x, y)}
  {
    var h := Update(g, n, x, y, v);
    var w := !v;
    forall c | c in Cells(h, n, w) ensures c in Cells(g, n, w) - {(x, y)} {
      assert g[c.0][c.1] == h[c.0][c.1];
    }
    forall c | c in Cells(g, n, w) - {(x, y)} ensures c in Cells(h, n, w) {
      assert g[c.0][c.1] == h[c.0][c.1];
    }
  }

  /** A subset is no larger than its superset. */
  lemma {:induction false} SubsetSize<T>(a: set<T>, b: set<T>)
    requires a <= b
    ensures |a| <= |b|
    decreases a
  {
    if a != {} {
      var e :| e in a;
      SubsetSize(a - {e}, b - {e});
    }
  }

  /** (i, j) lies in the 3-by-3 block centred on (x, y), the centre included. */
  predicate Near(x: int, y: int, i: int, j: int) {
    -1 <= i - x <= 1 && -1 <= j - y <= 1
  }

  /**
   The cell the m-th iteration of `for dx in [-1, 0, 1]: for dy in [-1, 0, 1]`
   looks at, `(x + dx, y + dy)`: dx is the outer loop, so it changes every
   third iteration.
   */
  function Neighbour(x: int, y: int, m: int): (c: Cell)
    requires 0 <= m < 9
    ensures Near(x, y, c.0, c.1)
  {
    var dx := if m < 3 then -1 else if m < 6 then 0 else 1;
    var dy := if m == 0 || m == 3 || m == 6 then -1 else if m == 1 || m == 4 || m == 7 then 0 else 1;
    (x + dx, y + dy)
  }

  /** The iteration at which the neighbour loop around (x, y) reaches (i, j). */
  function OffsetIndex(x: int, y: int, i: int, j: int): (m: int)
    requires Near(x, y, i, j)
    ensures 0 <= m < 9 && Neighbour(x, y, m) == (i, j)
    ensures forall k | 0 <= k < 9 && Neighbour(x, y, k) == (i, j) :: k == m
  {
    3 * (i - x + 1) + (j - y + 1)
  }

  /** The nine cells of the 3-by-3 block around (x, y). */
  function Square(x: int, y: int): (s: set<Cell>)
    ensures |s| <= 9
  {
    {(x - 1, y - 1), (x - 1, y), (x - 1, y + 1),
     (x, y - 1), (x, y), (x, y + 1),
     (x + 1, y - 1), (x + 1, y), (x + 1, y + 1)}
  }

  /** A block holds at most its nine cells. */
  lemma BlockInSquare(g: seq<seq<bool>>, n: nat, x: int, y: int)
    requires IsGrid(g, n)
    ensures Block(g, n, x, y) <= Square(x, y)
  {
    forall c | c in Block(g, n, x, y) ensures c in Square(x, y) {
      NearInSquare(x, y, c.0, c.1);
    }
  }

  lemma NearInSquare(x: int, y: int, i: int, j: int)
    requires Near(x, y, i, j)
    ensures (i, j) in Square(x, y)
  {
    assert i == x - 1 || i == x || i == x + 1;
    assert j == y - 1 || j == y || j == y + 1;
  }

  /** The members of s in the 3-by-3 block around (x, y). */
  function NearOnly(s: set<Cell>, x: int, y: int): (t: set<Cell>)
    ensures t <= s
  {
    set c | c in s && Near(x, y, c.0, c.1)
  }

  /** The set cells of g in the 3-by-3 block around (x, y), the centre included. */
  function Block(g: seq<seq<bool>>, n: nat, x: int, y: int): (s: set<Cell>)
    requires IsGrid(g, n)
  {
    NearOnly(Cells(g, n, true), x, y)
  }

  lemma NearOnlyAdd(s: set<Cell>, c: Cell, x: int, y: int)
    requires c !in s
    ensures NearOnly(s + {c}, x, y) == if Near(x, y, c.0, c.1) then NearOnly(s, x, y) + {c} else NearOnly(s, x, y)
    ensures |NearOnly(s + {c}, x, y)| == |NearOnly(s, x, y)| + (if Near(x, y, c.0, c.1) then 1 else 0)
  {
    if Near(x, y, c.0, c.1) {
      assert NearOnly(s + {c}, x, y) == NearOnly(s, x, y) + {c};
    } else {
      assert NearOnly(s + {c}, x, y) == NearOnly(s, x, y);
    }
  }

  /** Setting a clear cell adds it to the blocks that contain it and to no others. */
  lemma BlockAfterSet(g: seq<seq<bool>>, n: nat, x: int, y: int, i: int, j: int)
    requires IsGrid(g, n) && InBounds(n, x, y) && !g[x][y]
    ensures Block(Update(g, n, x, y, true), n, i, j)
         == if Near(i, j, x, y) then Block(g, n, i, j) + {(x, y)} else Block(g, n, i, j)
    ensures |Block(Update(g, n, x, y, true), n, i, j)|
         == |Block(g, n, i, j)| + (if Near(i, j, x, y) then 1 else 0)
  {
    UpdateGains(g, n, x, y, true);
    NearOnlyAdd(Cells(g, n, true), (x, y), i, j);
  }
}
