/** Known behaviour of the rule on whole grids: the empty grid, the 2x2
    block (a still life) and the blinker (an oscillator of period 2). */
module Patterns {
  import opened Life

  /** Membership of (i, j) in a 2x2 block with top-left corner (r, c). */
  predicate InBlock(r: int, c: int, i: int, j: int) {
    r <= i <= r + 1 && c <= j <= c + 1
  }

  /** Membership of (i, j) in the horizontal line (r, c - 1), (r, c), (r, c + 1). */
  predicate InRow(r: int, c: int, i: int, j: int) {
    i == r && c - 1 <= j <= c + 1
  }

  /** Membership of (i, j) in the vertical line (r - 1, c), (r, c), (r + 1, c). */
  predicate InColumn(r: int, c: int, i: int, j: int) {
    j == c && r - 1 <= i <= r + 1
  }

  /** The live cells of `g` are exactly the block at (r, c). */
  predicate IsBlock(g: Grid, r: int, c: int) {
    forall i, j :: 0 <= i < |g| && 0 <= j < |g[i]| ==> (g[i][j] != 0 <==> InBlock(r, c, i, j))
  }

  /** The live cells of `g` are exactly the horizontal line centred on (r, c). */
  predicate IsRow(g: Grid, r: int, c: int) {
    forall i, j :: 0 <= i < |g| && 0 <= j < |g[i]| ==> (g[i][j] != 0 <==> InRow(r, c, i, j))
  }

  /** The live cells of `g` are exactly the vertical line centred on (r, c). */
  predicate IsColumn(g: Grid, r: int, c: int) {
    forall i, j :: 0 <= i < |g| && 0 <= j < |g[i]| ==> (g[i][j] != 0 <==> InColumn(r, c, i, j))
  }

  /** An all-dead grid stays all dead. */
  lemma EmptyStaysEmpty(h: nat, w: nat)
    ensures Next(Dead(h, w)) == Dead(h, w)
  {
    var g := Dead(h, w);
    forall i, j | 0 <= i < h && 0 <= j < w ensures Next(g)[i][j] == 0 {
      NeighbourCountUnfold(g, i, j);
    }
    GridExt(Next(g), g);
  }

  /** A live cell with four or more live neighbours dies of overcrowding. */
  lemma Overcrowding(g: Grid, i: int, j: int)
    requires InBounds(g, i, j) && g[i][j] != 0 && NeighbourCount(g, i, j) >= 4
    ensures Next(g)[i][j] == 0
  {
  }

  /** In a grid holding only a block, a block cell has 3 neighbours and any
      other cell at most 2. */
  lemma BlockCount(g: Grid, h: nat, w: nat, r: int, c: int, i: int, j: int)
    requires IsGrid(g, h, w) && 0 <= r && r + 1 < h && 0 <= c && c + 1 < w
    requires IsBlock(g, r, c)
    ensures InBlock(r, c, i, j) ==> NeighbourCount(g, i, j) == 3
    ensures !InBlock(r, c, i, j) ==> NeighbourCount(g, i, j) <= 2
  {
    forall x, y ensures Cell(g, x, y) == if InBlock(r, c, x, y) then 1 else 0 {
    }
    NeighbourCountUnfold(g, i, j);
  }

  /** A 2x2 block with nothing else alive is a still life, wherever it
      sits on the grid (borders included). */
  lemma BlockIsStill(g: Grid, h: nat, w: nat, r: int, c: int)
    requires IsGrid(g, h, w) && 0 <= r && r + 1 < h && 0 <= c && c + 1 < w
    requires IsBlock(g, r, c)
    ensures IsBlock(Next(g), r, c)
  {
    forall i, j | 0 <= i < h && 0 <= j < w ensures Next(g)[i][j] != 0 <==> InBlock(r, c, i, j) {
      BlockCount(g, h, w, r, c, i, j);
    }
  }

  /** On a 0/1 board, a lone 2x2 block is left exactly as it was. */
  lemma BlockBoardUnchanged(g: Grid, h: nat, w: nat, r: int, c: int)
    requires IsGrid(g, h, w) && 0 <= r && r + 1 < h && 0 <= c && c + 1 < w
    requires IsBlock(g, r, c) && IsBinary(g)
    ensures Next(g) == g
  {
    BlockIsStill(g, h, w, r, c);
    GridExt(Next(g), g);
  }

  /** In a grid holding only a horizontal line of three, the cells of the
      vertical line through its middle have 2 (the middle) or 3 neighbours
      and turn or stay alive; every other cell dies or stays dead. */
  lemma RowCount(g: Grid, h: nat, w: nat, r: int, c: int, i: int, j: int)
    requires IsGrid(g, h, w) && 1 <= r && r + 1 < h && 1 <= c && c + 1 < w
    requires IsRow(g, r, c)
    ensures i == r && j == c ==> NeighbourCount(g, i, j) == 2
    ensures InColumn(r, c, i, j) && i != r ==> NeighbourCount(g, i, j) == 3
    ensures !InColumn(r, c, i, j) && InRow(r, c, i, j) ==> NeighbourCount(g, i, j) == 1
    ensures !InColumn(r, c, i, j) && !InRow(r, c, i, j) ==> NeighbourCount(g, i, j) != 3
  {
    forall x, y ensures Cell(g, x, y) == if InRow(r, c, x, y) then 1 else 0 {
    }
    NeighbourCountUnfold(g, i, j);
    if i == r && j == c {
    } else if InColumn(r, c, i, j) {
    } else if InRow(r, c, i, j) {
    } else if r - 1 <= i <= r + 1 && c - 1 <= j <= c + 1 {
      assert NeighbourCount(g, i, j) == 2;
    } else {
      assert NeighbourCount(g, i, j) <= 2;
    }
  }

  /** The vertical line is the horizontal one turned a quarter: the same
      counts hold with rows and columns exchanged. */
  lemma ColumnCount(g: Grid, h: nat, w: nat, r: int, c: int, i: int, j: int)
    requires IsGrid(g, h, w) && 1 <= r && r + 1 < h && 1 <= c && c + 1 < w
    requires IsColumn(g, r, c)
    ensures i == r && j == c ==> NeighbourCount(g, i, j) == 2
    ensures InRow(r, c, i, j) && j != c ==> NeighbourCount(g, i, j) == 3
    ensures !InRow(r, c, i, j) && InColumn(r, c, i, j) ==> NeighbourCount(g, i, j) == 1
    ensures !InRow(r, c, i, j) && !InColumn(r, c, i, j) ==> NeighbourCount(g, i, j) != 3
  {
    forall x, y ensures Cell(g, x, y) == if InColumn(r, c, x, y) then 1 else 0 {
    }
    NeighbourCountUnfold(g, i, j);
    if i == r && j == c {
    } else if InRow(r, c, i, j) {
    } else if InColumn(r, c, i, j) {
    } else if r - 1 <= i <= r + 1 && c - 1 <= j <= c + 1 {
      assert NeighbourCount(g, i, j) == 2;
    } else {
      assert NeighbourCount(g, i, j) <= 2;
    }
  }

  /** One cell of the step from a horizontal line: alive afterwards exactly
      on the vertical line through the middle. */
  lemma RowCell(g: Grid, h: nat, w: nat, r: int, c: int, i: int, j: int)
    requires IsGrid(g, h, w) && 1 <= r && r + 1 < h && 1 <= c && c + 1 < w
    requires IsRow(g, r, c) && 0 <= i < h && 0 <= j < w
    ensures Next(g)[i][j] != 0 <==> InColumn(r, c, i, j)
  {
    RowCount(g, h, w, r, c, i, j);
    assert g[i][j] != 0 <==> InRow(r, c, i, j);
    assert Next(g)[i][j] == Rule(g[i][j] != 0, NeighbourCount(g, i, j));
  }

  /** One cell of the step from a vertical line: alive afterwards exactly
      on the horizontal line through the middle. */
  lemma ColumnCell(g: Grid, h: nat, w: nat, r: int, c: int, i: int, j: int)
    requires IsGrid(g, h, w) && 1 <= r && r + 1 < h && 1 <= c && c + 1 < w
    requires IsColumn(g, r, c) && 0 <= i < h && 0 <= j < w
    ensures Next(g)[i][j] != 0 <==> InRow(r, c, i, j)
  {
    ColumnCount(g, h, w, r, c, i, j);
    assert g[i][j] != 0 <==> InColumn(r, c, i, j);
    assert Next(g)[i][j] == Rule(g[i][j] != 0, NeighbourCount(g, i, j));
  }

  /** A horizontal line of three becomes a vertical line of three through
      its middle cell, given one cell of room on every side. */
  lemma BlinkerTurns(g: Grid, h: nat, w: nat, r: int, c: int)
    requires IsGrid(g, h, w) && 1 <= r && r + 1 < h && 1 <= c && c + 1 < w
    requires IsRow(g, r, c)
    ensures IsColumn(Next(g), r, c)
  {
    forall i, j | 0 <= i < h && 0 <= j < w ensures Next(g)[i][j] != 0 <==> InColumn(r, c, i, j) {
      RowCell(g, h, w, r, c, i, j);
    }
  }

  /** A vertical line of three becomes a horizontal line of three through
      its middle cell, given one cell of room on every side. */
  lemma ColumnTurns(g: Grid, h: nat, w: nat, r: int, c: int)
    requires IsGrid(g, h, w) && 1 <= r && r + 1 < h && 1 <= c && c + 1 < w
    requires IsColumn(g, r, c)
    ensures IsRow(Next(g), r, c)
  {
    forall i, j | 0 <= i < h && 0 <= j < w ensures Next(g)[i][j] != 0 <==> InRow(r, c, i, j) {
      ColumnCell(g, h, w, r, c, i, j);
    }
  }

  /** The blinker has period 2: two steps bring the horizontal line back. */
  lemma BlinkerReturns(g: Grid, h: nat, w: nat, r: int, c: int)
    requires IsGrid(g, h, w) && 1 <= r && r + 1 < h && 1 <= c && c + 1 < w
    requires IsRow(g, r, c)
    ensures IsRow(Next(Next(g)), r, c)
  {
    BlinkerTurns(g, h, w, r, c);
    ColumnTurns(Next(g), h, w, r, c);
  }

  /** On a 0/1 board, two steps give back the horizontal line exactly. */
  lemma BlinkerBoardReturns(g: Grid, h: nat, w: nat, r: int, c: int)
    requires IsGrid(g, h, w) && 1 <= r && r + 1 < h && 1 <= c && c + 1 < w
    requires IsRow(g, r, c) && IsBinary(g)
    ensures Next(Next(g)) == g
  {
    BlinkerReturns(g, h, w, r, c);
    GridExt(Next(Next(g)), g);
  }
}
