/** The program's boards as it holds them: two fixed-size byte arrays, one
    on display and one to be written by the next step, with the step, the
    writer and the loader working on them in place. */
module Boards {
  import opened Life
  import opened BoardFile

  /** The contents of a 2-D byte array as a grid value, row index first. */
  ghost function Snapshot(a: array2<Byte>): (g: Grid)
    reads a
    ensures IsGrid(g, a.Length0, a.Length1)
    ensures forall i, j :: 0 <= i < a.Length0 && 0 <= j < a.Length1 ==> g[i][j] == a[i, j]
  {
    seq(a.Length0, i requires 0 <= i < a.Length0 reads a =>
      seq(a.Length1, j requires 0 <= j < a.Length1 reads a => a[i, j]))
  }

  /** The neighbour count the step computes for (i, j): each of the eight
      adjacent positions, checked to lie on the board before it is read,
      adds one when it holds a non-zero byte. */
  method CountNeighbours(board: array2<Byte>, i: nat, j: nat) returns (n: nat)
    requires i < board.Length0 && j < board.Length1
    ensures n == NeighbourCount(Snapshot(board), i, j)
    ensures n <= 8
  {
    var h, w := board.Length0, board.Length1;
    ghost var g := Snapshot(board);
    n := 0;
    // up
    if i > 0 && board[i - 1, j] != 0 {
      n := n + 1;
    }
    assert n == Cell(g, i - 1, j);
    // up and right
    if i > 0 && j < w - 1 && board[i - 1, j + 1] != 0 {
      n := n + 1;
    }
    assert n == Cell(g, i - 1, j) + Cell(g, i - 1, j + 1);
    // right
    if j < w - 1 && board[i, j + 1] != 0 {
      n := n + 1;
    }
    assert n == Cell(g, i - 1, j) + Cell(g, i - 1, j + 1) + Cell(g, i, j + 1);
    // down and right
    if i < h - 1 && j < w - 1 && board[i + 1, j + 1] != 0 {
      n := n + 1;
    }
    assert n == Cell(g, i - 1, j) + Cell(g, i - 1, j + 1) + Cell(g, i, j + 1) + Cell(g, i + 1, j + 1);
    // down
    if i < h - 1 && board[i + 1, j] != 0 {
      n := n + 1;
    }
    assert n == Cell(g, i - 1, j) + Cell(g, i - 1, j + 1) + Cell(g, i, j + 1) + Cell(g, i + 1, j + 1) +
                Cell(g, i + 1, j);
    // down and left
    if i < h - 1 && j > 0 && board[i + 1, j - 1] != 0 {
      n := n + 1;
    }
    assert n == Cell(g, i - 1, j) + Cell(g, i - 1, j + 1) + Cell(g, i, j + 1) + Cell(g, i + 1, j + 1) +
                Cell(g, i + 1, j) + Cell(g, i + 1, j - 1);
    // left
    if j > 0 && board[i, j - 1] != 0 {
      n := n + 1;
    }
    assert n == Cell(g, i - 1, j) + Cell(g, i - 1, j + 1) + Cell(g, i, j + 1) + Cell(g, i + 1, j + 1) +
                Cell(g, i + 1, j) + Cell(g, i + 1, j - 1) + Cell(g, i, j - 1);
    // up and left
    if i > 0 && j > 0 && board[i - 1, j - 1] != 0 {
      n := n + 1;
    }
    NeighbourCountUnfold(g, i, j);
    NeighbourCountAtMost8(g, i, j);
  }

  /** The step's work on one cell: cell (i, j) of `nxt` receives the rule
      applied to cell (i, j) of `cur` and its neighbour count in `cur`; no
      other cell changes. */
  method UpdateCell(cur: array2<Byte>, nxt: array2<Byte>, i: nat, j: nat)
    requires cur != nxt && i < cur.Length0 && j < cur.Length1
    requires nxt.Length0 == cur.Length0 && nxt.Length1 == cur.Length1
    modifies nxt
    ensures forall y, x {:trigger nxt[y, x]} :: 0 <= y < nxt.Length0 && 0 <= x < nxt.Length1 ==>
      nxt[y, x] == if y == i && x == j then Rule(cur[i, j] != 0, NeighbourCount(Snapshot(cur), i, j))
                   else old(nxt[y, x])
  {
    var neighbours := CountNeighbours(cur, i, j);
    if cur[i, j] != 0 {
      if neighbours < 2 || neighbours > 3 {
        nxt[i, j] := 0;
      } else {
        nxt[i, j] := 1;
      }
    } else {
      if neighbours == 3 {
        nxt[i, j] := 1;
      } else {
        nxt[i, j] := 0;
      }
    }
  }

  /** One row of the step: each cell (i, j) of `nxt` receives the rule
      applied to cell (i, j) of `cur` and its neighbour count in `cur`; the
      other rows of `nxt` keep their values. */
  method UpdateRow(cur: array2<Byte>, nxt: array2<Byte>, i: nat)
    requires cur != nxt && i < cur.Length0
    requires nxt.Length0 == cur.Length0 && nxt.Length1 == cur.Length1
    modifies nxt
    ensures forall y, x {:trigger nxt[y, x]} :: 0 <= y < nxt.Length0 && 0 <= x < nxt.Length1 ==>
      nxt[y, x] == if y == i then Rule(cur[i, x] != 0, NeighbourCount(Snapshot(cur), i, x))
                   else old(nxt[y, x])
  {
    ghost var g := Snapshot(cur);
    var j := 0;
    while j < cur.Length1
      invariant 0 <= j <= cur.Length1
      invariant Snapshot(cur) == g
      invariant forall y, x {:trigger nxt[y, x]} :: 0 <= y < nxt.Length0 && 0 <= x < nxt.Length1 ==>
        nxt[y, x] == if y == i && x < j then Rule(g[i][x] != 0, NeighbourCount(g, i, x))
                     else old(nxt[y, x])
    {
      UpdateCell(cur, nxt, i, j);
      j := j + 1;
    }
  }

  /** The two boards and which of them is current. The step reads only the
      current board, writes only the other one, and then swaps the two
      references, so no board is ever copied. */
  class Automaton {
    const height: nat
    const width: nat
    var currentBoard: array2<Byte>
    var otherBoard: array2<Byte>

    /** Both boards are height x width, and they are two distinct arrays. */
    ghost predicate Valid()
      reads this
    {
      height >= 1 && width >= 1 &&
      currentBoard.Length0 == height && currentBoard.Length1 == width &&
      otherBoard.Length0 == height && otherBoard.Length1 == width &&
      currentBoard != otherBoard
    }

    /** The generation on display. */
    ghost function Current(): Grid
      reads this, currentBoard
    {
      Snapshot(currentBoard)
    }

    /** The buffer the next step writes into. */
    ghost function Other(): Grid
      reads this, otherBoard
    {
      Snapshot(otherBoard)
    }

    /** Two zero-filled boards, as static storage starts out. */
    constructor (height: nat, width: nat)
      requires height >= 1 && width >= 1
      ensures Valid() && fresh(currentBoard) && fresh(otherBoard)
      ensures this.height == height && this.width == width
      ensures Current() == Dead(height, width) && Other() == Dead(height, width)
    {
      this.height := height;
      this.width := width;
      currentBoard := new Byte[height, width]((i, j) => 0);
      otherBoard := new Byte[height, width]((i, j) => 0);
      new;
      GridExt(Snapshot(currentBoard), Dead(height, width));
      GridExt(Snapshot(otherBoard), Dead(height, width));
    }

    /** One generation: every cell of the other board receives the rule
        applied to the current board, then the boards swap roles. The new
        current board is the next generation of the old one, and the new
        write target still holds the old generation unchanged. */
    method UpdateBoards()
      requires Valid()
      modifies this, otherBoard
      ensures Valid()
      ensures currentBoard == old(otherBoard) && otherBoard == old(currentBoard)
      ensures Current() == Next(old(Current()))
      ensures Other() == old(Current())
    {
      var cur, nxt := currentBoard, otherBoard;
      ghost var g := Snapshot(cur);
      var i := 0;
      while i < height
        invariant 0 <= i <= height
        invariant Snapshot(cur) == g
        invariant forall r, c {:trigger nxt[r, c]} :: 0 <= r < i && 0 <= c < width ==>
          nxt[r, c] == Rule(g[r][c] != 0, NeighbourCount(g, r, c))
        modifies nxt
      {
        UpdateRow(cur, nxt, i);
        i := i + 1;
      }
      NextByCells(g, Snapshot(nxt));
      currentBoard, otherBoard := nxt, cur;
    }
  }

  /** Prints row i: every cell but the last followed by a space, the last
      one followed by a newline. */
  method WriteRow(board: array2<Byte>, i: nat) returns (line: string)
    requires i < board.Length0 && board.Length1 >= 1
    ensures line == RowText(Snapshot(board)[i])
  {
    ghost var row := Snapshot(board)[i];
    var w := board.Length1;
    line := "";
    var j := 0;
    while j < w - 1
      invariant 0 <= j <= w - 1
      invariant line == RowPrefix(row[..j])
    {
      assert row[..j + 1][..j] == row[..j];
      line := line + Dec(board[i, j]) + " ";
      j := j + 1;
    }
    assert row[..w - 1] == row[..|row| - 1];
    line := line + Dec(board[i, w - 1]) + "\n";
  }

  /** Prints the board row by row, in the format the loader reads. */
  method WriteBoard(board: array2<Byte>) returns (text: string)
    requires board.Length1 >= 1
    ensures text == BoardText(Snapshot(board))
  {
    ghost var g := Snapshot(board);
    text := "";
    var i := 0;
    while i < board.Length0
      invariant 0 <= i <= board.Length0
      invariant text == BoardText(g[..i])
    {
      var line := WriteRow(board, i);
      assert g[..i + 1][..i] == g[..i];
      text := text + line;
      i := i + 1;
    }
    assert g[..i] == g;
  }

  /** One "%hhu" conversion into cell (i, j): the value read is stored in
      the cell; nothing is stored when the conversion fails. */
  method ScanCell(text: string, board: array2<Byte>, i: nat, j: nat, p: nat) returns (scan: Scan)
    requires i < board.Length0 && j < board.Length1 && p <= |text|
    modifies board
    ensures scan == ReadValue(text, p)
    ensures forall y, x {:trigger board[y, x]} :: 0 <= y < board.Length0 && 0 <= x < board.Length1 ==>
      board[y, x] == if y == i && x == j && scan.Scanned? then scan.value else old(board[y, x])
  {
    scan := ReadValue(text, p);
    if scan.Scanned? {
      board[i, j] := scan.value;
    }
  }

  /** Reads the cells of row i, starting at position p, into the board,
      stopping at the first cell that cannot be read. Returns the position
      after the row; the other rows keep their values. */
  method ReadRow(text: string, board: array2<Byte>, i: nat, p: nat) returns (r: Result<nat>)
    requires i < board.Length0 && p <= |text|
    modifies board
    ensures match LoadRow(text, p, i, board.Length1)
      case Ok((cells, q)) => r == Ok(q) && forall c :: 0 <= c < board.Length1 ==> board[i, c] == cells[c]
      case Err(e) => r == Err(e)
    ensures forall y, x {:trigger board[y, x]} :: 0 <= y < board.Length0 && y != i && 0 <= x < board.Length1 ==>
      board[y, x] == old(board[y, x])
    ensures r.Err? ==>
      r.error.col <= board.Length1 && LoadRow(text, p, i, r.error.col).Ok? &&
      forall x {:trigger board[i, x]} :: 0 <= x < board.Length1 ==>
        board[i, x] == if x < r.error.col then LoadRow(text, p, i, r.error.col).value.0[x] else old(board[i, x])
  {
    var w := board.Length1;
    var pos: nat := p;
    ghost var row: seq<Byte> := [];
    var j := 0;
    while j < w
      invariant 0 <= j <= w && pos <= |text|
      invariant RowReads(text, p, i, j, row, pos)
      invariant forall y, x {:trigger board[y, x]} :: 0 <= y < board.Length0 && 0 <= x < w ==>
        board[y, x] == if y == i && x < j then row[x] else old(board[y, x])
    {
      var scan := ScanCell(text, board, i, j, pos);
      if scan.ScanFailed? {
        ScanFailureEndsRow(text, p, i, j, w, row, pos, scan.kind);
        return Err(LoadError(i, j, scan.kind));
      }
      LoadRowStep(text, p, i, j, row, pos, scan.value, scan.end);
      row := row + [scan.value];
      pos := scan.end;
      j := j + 1;
    }
    return Ok(pos);
  }

  /** Reads H x W values in row-major order into the board, stopping at the
      first cell that cannot be read. On success the board holds exactly
      what the text describes; on failure the error names that cell. */
  method LoadBoard(text: string, board: array2<Byte>) returns (r: Result<()>)
    modifies board
    ensures r.Ok? <==> ParseBoard(text, board.Length0, board.Length1).Ok?
    ensures r.Ok? ==> Snapshot(board) == ParseBoard(text, board.Length0, board.Length1).value
    ensures r.Err? ==> r.error == ParseBoard(text, board.Length0, board.Length1).error
  {
    var h, w := board.Length0, board.Length1;
    var pos: nat := 0;
    ghost var rows: Grid := [];
    var i := 0;
    while i < h
      invariant 0 <= i <= h && pos <= |text|
      invariant RowsRead(text, i, w, rows, pos)
      invariant forall y, x :: 0 <= y < i && 0 <= x < w ==> board[y, x] == rows[y][x]
    {
      var res := ReadRow(text, board, i, pos);
      if res.Err? {
        RowFailureIsFinal(text, h, w, i, pos);
        return Err(res.error);
      }
      ghost var row := LoadRow(text, pos, i, w).value.0;
      LoadRowsStep(text, i, w, rows, pos, row, res.value);
      rows := rows + [row];
      pos := res.value;
      i := i + 1;
    }
    GridExt(Snapshot(board), rows);
    return Ok(());
  }
}
