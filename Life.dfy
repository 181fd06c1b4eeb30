/** The Game of Life transition on a bounded (non-wrapping) grid of bytes.
    Everything here is a value: the in-place double-buffered step in module
    Boards is proved to compute `Next`. */
module Life {

  /** An `unsigned char` cell. Any non-zero value counts as alive. */
  type Byte = x: int | 0 <= x < 256

  /** A board as rows of cells, row index first. */
  type Grid = seq<seq<Byte>>

  /** `g` has `h` rows of `w` cells each. */
  predicate IsGrid(g: Grid, h: nat, w: nat) {
    |g| == h && forall i :: 0 <= i < h ==> |g[i]| == w
  }

  /** Every cell is 0 or 1. */
  predicate IsBinary(g: Grid) {
    forall i, j :: 0 <= i < |g| && 0 <= j < |g[i]| ==> g[i][j] == 0 || g[i][j] == 1
  }

  predicate InBounds(g: Grid, i: int, j: int) {
    0 <= i < |g| && 0 <= j < |g[i]|
  }

  /** 1 when (i, j) lies on the grid and holds a non-zero byte, otherwise 0.
      A position off the grid is never counted. */
  function Cell(g: Grid, i: int, j: int): nat {
    if InBounds(g, i, j) && g[i][j] != 0 then 1 else 0
  }

  /** Contribution of position (r, c) to the neighbour count of (i, j):
      the cell itself is excluded. */
  function Around(g: Grid, i: int, j: int, r: int, c: int): nat {
    if r == i && c == j then 0 else Cell(g, r, c)
  }

  /** Live cells, other than (i, j), among (r, c), (r, c + 1), ..., (r, c + k - 1). */
  function RowRun(g: Grid, i: int, j: int, r: int, c: int, k: nat): nat
    decreases k
  {
    if k == 0 then 0 else RowRun(g, i, j, r, c, k - 1) + Around(g, i, j, r, c + k - 1)
  }

  /** Live cells, other than (i, j), in the block of `k` rows and 3 columns
      whose top-left corner is (r, c). */
  function Block(g: Grid, i: int, j: int, r: int, c: int, k: nat): nat
    decreases k
  {
    if k == 0 then 0 else Block(g, i, j, r, c, k - 1) + RowRun(g, i, j, r + k - 1, c, 3)
  }

  /** The number of live cells in the 3x3 window centred on (i, j), clipped
      to the grid, not counting (i, j) itself. */
  function NeighbourCount(g: Grid, i: int, j: int): nat {
    Block(g, i, j, i - 1, j - 1, 3)
  }

  /** The eight neighbours one by one, in the order the step visits them:
      up, up-right, right, down-right, down, down-left, left, up-left. */
  lemma {:induction false} NeighbourCountUnfold(g: Grid, i: int, j: int)
    ensures NeighbourCount(g, i, j) ==
      Cell(g, i - 1, j) + Cell(g, i - 1, j + 1) + Cell(g, i, j + 1) + Cell(g, i + 1, j + 1) +
      Cell(g, i + 1, j) + Cell(g, i + 1, j - 1) + Cell(g, i, j - 1) + Cell(g, i - 1, j - 1)
  {
    assert RowRun(g, i, j, i - 1, j - 1, 3) == Cell(g, i - 1, j - 1) + Cell(g, i - 1, j) + Cell(g, i - 1, j + 1);
    assert RowRun(g, i, j, i, j - 1, 3) == Cell(g, i, j - 1) + Cell(g, i, j + 1);
    assert RowRun(g, i, j, i + 1, j - 1, 3) == Cell(g, i + 1, j - 1) + Cell(g, i + 1, j) + Cell(g, i + 1, j + 1);
  }

  /** No cell has more than eight neighbours. */
  lemma NeighbourCountAtMost8(g: Grid, i: int, j: int)
    ensures NeighbourCount(g, i, j) <= 8
  {
    NeighbourCountUnfold(g, i, j);
  }

  /** A cell on the border of an h x w grid has at most 5 neighbours on the
      grid, and a corner cell at most 3. */
  lemma NeighbourCountAtBorder(g: Grid, h: nat, w: nat, i: int, j: int)
    requires IsGrid(g, h, w) && 0 <= i < h && 0 <= j < w
    ensures (i == 0 || i == h - 1 || j == 0 || j == w - 1) ==> NeighbourCount(g, i, j) <= 5
    ensures (i == 0 || i == h - 1) && (j == 0 || j == w - 1) ==> NeighbourCount(g, i, j) <= 3
  {
    NeighbourCountUnfold(g, i, j);
  }

  /** Only cells inside the 3x3 window around (i, j) affect its count: two
      grids that agree there give the same count. */
  lemma NeighbourCountIsLocal(g: Grid, g': Grid, i: int, j: int)
    requires forall r, c :: i - 1 <= r <= i + 1 && j - 1 <= c <= j + 1 ==> Cell(g, r, c) == Cell(g', r, c)
    ensures NeighbourCount(g, i, j) == NeighbourCount(g', i, j)
  {
    NeighbourCountUnfold(g, i, j);
    NeighbourCountUnfold(g', i, j);
  }

  /** The B3/S23 rule: a live cell stays alive with 2 or 3 neighbours, a dead
      cell comes alive with exactly 3; the result is always 0 or 1. */
  function Rule(alive: bool, n: nat): (b: Byte)
    ensures b == 0 || b == 1
    ensures b == 1 <==> n == 3 || (alive && n == 2)
  {
    if alive then
      if n < 2 || n > 3 then 0 else 1
    else
      if n == 3 then 1 else 0
  }

  /** The next generation: every cell is the rule applied to the cell and its
      neighbour count, both taken from `g` alone. */
  function Next(g: Grid): (r: Grid)
    ensures |r| == |g| && forall i :: 0 <= i < |g| ==> |r[i]| == |g[i]|
    ensures IsBinary(r)
  {
    seq(|g|, i requires 0 <= i < |g| =>
      seq(|g[i]|, j requires 0 <= j < |g[i]| => Rule(g[i][j] != 0, NeighbourCount(g, i, j))))
  }

  /** A grid of the same shape whose every cell is the rule applied to the
      matching cell of `g` and its count is the next generation of `g`. */
  lemma NextByCells(g: Grid, n: Grid)
    requires |n| == |g| && forall i :: 0 <= i < |g| ==> |n[i]| == |g[i]|
    requires forall i, j :: 0 <= i < |g| && 0 <= j < |g[i]| ==> n[i][j] == Rule(g[i][j] != 0, NeighbourCount(g, i, j))
    ensures n == Next(g)
  {
    GridExt(n, Next(g));
  }

  /** A live cell survives exactly when it has 2 or 3 neighbours. */
  lemma Survival(g: Grid, i: int, j: int)
    requires InBounds(g, i, j) && g[i][j] != 0
    ensures Next(g)[i][j] == 1 <==> NeighbourCount(g, i, j) == 2 || NeighbourCount(g, i, j) == 3
    ensures Next(g)[i][j] == 0 <==> NeighbourCount(g, i, j) < 2 || NeighbourCount(g, i, j) > 3
  {
  }

  /** A dead cell comes alive exactly when it has 3 neighbours. */
  lemma Birth(g: Grid, i: int, j: int)
    requires InBounds(g, i, j) && g[i][j] == 0
    ensures Next(g)[i][j] == 1 <==> NeighbourCount(g, i, j) == 3
    ensures Next(g)[i][j] == 0 <==> NeighbourCount(g, i, j) != 3
  {
  }

  /** A live cell on a corner of the grid with no live neighbour dies. */
  lemma IsolatedCornerDies(g: Grid, h: nat, w: nat)
    requires IsGrid(g, h, w) && h >= 1 && w >= 1
    requires g[0][0] != 0 && Cell(g, 0, 1) == 0 && Cell(g, 1, 0) == 0 && Cell(g, 1, 1) == 0
    ensures NeighbourCount(g, 0, 0) == 0 && Next(g)[0][0] == 0
  {
    NeighbourCountUnfold(g, 0, 0);
  }

  /** Next generation of a grid, decided cell by cell: the value at (i, j)
      depends only on the 3x3 window around (i, j) in the old grid. */
  lemma NextIsLocal(g: Grid, g': Grid, i: int, j: int)
    requires InBounds(g, i, j) && InBounds(g', i, j)
    requires forall r, c :: i - 1 <= r <= i + 1 && j - 1 <= c <= j + 1 ==> Cell(g, r, c) == Cell(g', r, c)
    ensures Next(g)[i][j] == Next(g')[i][j]
  {
    NeighbourCountIsLocal(g, g', i, j);
    assert Cell(g, i, j) == Cell(g', i, j);
  }

  /** Two grids of the same shape that agree cell by cell are equal. */
  lemma GridExt(a: Grid, b: Grid)
    requires |a| == |b| && forall i :: 0 <= i < |a| ==> |a[i]| == |b[i]|
    requires forall i, j :: 0 <= i < |a| && 0 <= j < |a[i]| ==> a[i][j] == b[i][j]
    ensures a == b
  {
    forall i | 0 <= i < |a| ensures a[i] == b[i] {
      assert forall j :: 0 <= j < |a[i]| ==> a[i][j] == b[i][j];
    }
  }

  /** The all-dead h x w grid. */
  function Dead(h: nat, w: nat): (g: Grid)
    ensures IsGrid(g, h, w)
    ensures forall i, j :: 0 <= i < h && 0 <= j < w ==> g[i][j] == 0
  {
    seq(h, i => seq(w, j => 0))
  }
}
