# Game of Life boards in Dafny

This project models the board automaton of a small Game of Life program
written in C (`src/main.c`). The program keeps two fixed-size boards of
`unsigned char`, `board1` and `board2`, and two `Board *` variables that refer to them,
`currentBoard` and `otherBoard`. One generation (`updateBoards`) works in
two stages. For every cell it first counts the non-zero cells among the up
to eight neighbours that lie on the board; there is no wrap-around. It then
applies the B3/S23 rule and writes 0 or 1 into the other board. When every
cell is done it swaps the two variables. `writeBoard` prints a board as H
lines of W decimal values, separated by single spaces and each ending in a
newline. `loadBoard` reads H x W values back with `fscanf("%hhu")`, in
row-major order.

The project has four modules:

- `Life` is the rule on values.
  - A board is a `Grid` (`seq<seq<Byte>>`).
  - `NeighbourCount` is the reference definition: the live cells of the
    3x3 window, clipped to the board, not counting the centre.
  - `Rule` is B3/S23, and `Next` is the whole next generation.
- `Patterns` proves known behaviour of `Next` on whole boards: the empty
  board stays empty, a 2x2 block is still, and a blinker has period 2.
- `BoardFile` covers the text format.
  - `BoardText` is what the writer prints.
  - `ReadValue` is one `"%hhu"` conversion, and `ParseBoard` is the
    row-major reader, with explicit errors.
  - `RoundTrip` proves that reading the printed text gives the board back.
- `Boards` is the imperative program.
  - The class `Automaton` holds `currentBoard` and `otherBoard` as two
    `array2<Byte>` fields. Its `UpdateBoards` runs the nested loops of the
    source, writes into `otherBoard` in place and swaps the two references.
  - `WriteBoard` and `LoadBoard` run the writer's and the reader's nested
    loops over an `array2`.
  - Every method is proved against the functions of the other modules.

Any non-zero byte counts as alive, as in the source. Boards can hold any
byte, not only 0 and 1. The written format and the round trip are proved
for every byte, which includes the 0/1 boards the program's documentation
speaks of. The board size is a parameter of at least 1 x 1. The source
fixes it at 1000 x 1000 (`src/main.c:14-15`).

## Model

| member | source | states |
|---|---|---|
| Life.NeighbourCountUnfold | src/main.c:124-156 | the window count equals the sum of the eight neighbour tests, visited in the source's order (up, up-right, right, down-right, down, down-left, left, up-left); a position off the board counts 0 |
| Life.NeighbourCountAtMost8 | src/main.c:124-156 | a neighbour count never exceeds 8 |
| Life.NeighbourCountAtBorder | src/main.c:124-156 | a cell on an edge has at most 5 neighbours on the board, and a corner cell at most 3 |
| Life.NeighbourCountIsLocal | src/main.c:124-156 | the count depends only on the 3x3 window around the cell |
| Life.Rule | src/main.c:158-170 | the new cell is 0 or 1, and it is 1 exactly when the count is 3, or when the cell is alive and the count is 2 |
| Life.Next | src/main.c:122-170 | the next generation has the board's shape and every cell is 0 or 1, whatever bytes the board held |
| Life.NextByCells | src/main.c:122-170 | a board of the same shape whose every cell is the rule applied to the old cell and its old count is the next generation |
| Life.Survival | src/main.c:158-163 | a live cell becomes 1 exactly when it has 2 or 3 neighbours, and 0 exactly when it has fewer than 2 or more than 3 |
| Life.Birth | src/main.c:164-169 | a dead cell becomes 1 exactly when it has 3 neighbours, and 0 otherwise |
| Life.IsolatedCornerDies | src/main.c:124-163 | a live corner cell whose three on-board neighbours are dead has count 0 and dies |
| Life.NextIsLocal | src/main.c:122-170 | a cell of the next generation depends only on the 3x3 window around it in the old board |
| Life.Dead | src/main.c:33-34 | the all-zero board of the given size, as the static boards start out |
| Patterns.EmptyStaysEmpty | src/main.c:121-178 | a step leaves an all-dead board all dead |
| Patterns.Overcrowding | src/main.c:158-160 | a live cell with 4 or more neighbours dies |
| Patterns.BlockCount | src/main.c:124-156 | with only a 2x2 block alive, each block cell has 3 neighbours and every other cell at most 2 |
| Patterns.BlockIsStill | src/main.c:121-178 | a lone 2x2 block is a still life anywhere on the board, edges included |
| Patterns.BlockBoardUnchanged | src/main.c:121-178 | on a 0/1 board holding only a 2x2 block, a step returns the same board |
| Patterns.RowCount | src/main.c:124-156 | with only a horizontal line of three alive: the middle has 2 neighbours, the cells above and below it 3, the line's ends 1, and no other cell 3 |
| Patterns.ColumnCount | src/main.c:124-156 | the same counts for a vertical line, with rows and columns exchanged |
| Patterns.RowCell | src/main.c:158-170 | from a horizontal line, a cell is alive after the step exactly when it is on the vertical line through the middle |
| Patterns.ColumnCell | src/main.c:158-170 | from a vertical line, a cell is alive after the step exactly when it is on the horizontal line through the middle |
| Patterns.BlinkerTurns | src/main.c:121-178 | a horizontal line of three becomes the vertical line through its middle |
| Patterns.ColumnTurns | src/main.c:121-178 | a vertical line of three becomes the horizontal line through its middle |
| Patterns.BlinkerReturns | src/main.c:121-178 | two steps bring the horizontal line back: the blinker has period 2 |
| Patterns.BlinkerBoardReturns | src/main.c:121-178 | on a 0/1 board holding only a horizontal line of three, two steps return the same board |
| Boards.CountNeighbours | src/main.c:124-156 | the eight bounds-checked tests on the array compute the reference neighbour count of the board, which is at most 8 |
| Boards.UpdateCell | src/main.c:158-170 | cell (i, j) of the other board receives the rule applied to the current board's cell and count; nothing else changes |
| Boards.UpdateRow | src/main.c:123-171 | every cell of row i of the other board receives the rule applied to the current board; the other rows keep their values |
| Boards.Automaton.constructor | src/main.c:31-37 | two distinct zero-filled height x width boards, one current and one to write |
| Boards.Automaton.UpdateBoards | src/main.c:121-178 | the new current board is the old other board and holds `Next` of the old current board; the new other board is the old current board, unchanged; the two stay distinct arrays of the same size |
| Boards.WriteRow | src/main.c:105-108 | the line printed for row i is `RowText` of that row |
| Boards.WriteBoard | src/main.c:103-110 | the text printed is `BoardText` of the board |
| Boards.ScanCell | src/main.c:116 | the conversion's outcome is `ReadValue` at the position; on success the value lands in cell (i, j) and nowhere else, and on failure nothing is stored |
| Boards.ReadRow | src/main.c:115-117 | reading row i succeeds exactly when `LoadRow` does; the row then holds its cells and the new position is returned; otherwise the same error is returned, the cells before the failing column hold what `LoadRow` read up to it and the rest of the row is unchanged; other rows never change |
| Boards.LoadBoard | src/main.c:113-119 | loading succeeds exactly when `ParseBoard` does; the board then equals the parsed grid, and otherwise the error is the parser's, naming the first cell that could not be read |
| BoardFile.Dec | src/main.c:106 | the printed form of a value is one or more digits, with no leading zero |
| BoardFile.DecRoundTrip | src/main.c:106 | reading back the digits of a printed value gives the value |
| BoardFile.RowPrefix | src/main.c:105-107 | the inner loop's output is empty exactly for no cells, and otherwise ends in a space |
| BoardFile.RowText | src/main.c:104-109 | a printed row ends in a newline |
| BoardFile.BoardText | src/main.c:103-110 | the printed board is empty only for a board of no rows, and otherwise ends in a newline |
| BoardFile.RowTextFormat | src/main.c:105-108 | a printed row is its values joined by single spaces, with no leading, trailing or doubled space, then a newline; it holds W - 1 spaces and one newline |
| BoardFile.BoardTextNewlines | src/main.c:104-109 | the printed board holds exactly H newlines |
| BoardFile.BoardTextPrefixes | src/main.c:104-109 | the rows are printed in order: the text of the first i rows is a prefix of the text of the board |
| BoardFile.ReadValue | src/main.c:116 | a successful conversion ends after at least one digit, at a space or at the end of the text |
| BoardFile.ReadValueReads | src/main.c:116 | a successful conversion passed over white space only, then read a run of digits, and its value is the number those digits denote (leading zeros included) |
| BoardFile.ReadValueAt | src/main.c:106-116 | a conversion reads a printed value back, whatever spaces come before it, when a space or the end of the text follows |
| BoardFile.LoadRow | src/main.c:115-117 | reading k cells of a row gives k values, or an error at one of those cells |
| BoardFile.LoadRows | src/main.c:114-118 | reading k rows gives a k x w grid, or an error at one of those cells |
| BoardFile.ParseBoard | src/main.c:113-119 | loading gives an H x W grid, or an error naming a cell of the board |
| BoardFile.LoadRowErrorStays | src/main.c:115-117 | once a row fails at a cell, reading further cells does not change the outcome |
| BoardFile.LoadRowsErrorStays | src/main.c:114-118 | once a row fails, reading further rows does not change the outcome |
| BoardFile.ScanFailureEndsRow | src/main.c:115-117 | a failed conversion after j good cells is the row's error, at column j |
| BoardFile.RowFailureIsFinal | src/main.c:114-118 | a failed row after i good rows is the board's error |
| BoardFile.RoundTrip | src/main.c:103-119 | loading the text the writer printed, with the same size, gives back the board, cell for cell, for every byte value |

## Left out

- Logging (`logRaylib`, `logMsg`, `src/main.c:40-95`) is output formatting only.
- The CLI flags (`src/main.c:182-198`) are left out: they only set logging options.
- The window, drawing, keyboard and mouse input, and camera pan and zoom (including `clampf`) are calls into a graphics library or floating-point view state. They do not touch the boards, except through the step and the loader.
- The tick timer is left out. It decides when a step happens, and that is frame timing from the graphics library.
- Opening and closing `board.txt`, and the exit on failure (`src/main.c:208-215`), are file I/O. `LoadBoard` and `WriteBoard` take and return the file's contents as a string.
- Boards.WriteBoard: an error from `fprintf` is not modelled; the text is built in memory.
- Boards.LoadBoard: the source ignores what `fscanf` returns and reads on after a failed conversion. The model stops at the first cell that cannot be read and returns that cell with the kind of failure. Its contract does not say what the board holds after a failure. `ReadRow` and `ScanCell` do say which cells a partial read changes.
- BoardFile.ReadValue: differs from the C library's `"%hhu"` in three ways, each of which yields an error:
  - A sign is not accepted.
  - A value above 255 is rejected rather than reduced modulo 256.
  - A run of digits must be followed by white space or the end of the text; `fscanf` would stop before the first other character.
  - These inputs never come from the writer, so the round trip is unaffected.
- The fixed size of 1000 x 1000 is generalised to any height and width of at least 1. `writeBoard`'s `BOARD_WIDTH - 1` loop needs a width of at least 1.
- The static arrays and the two global `Board *` variables become the fields of one `Automaton` object. The boards are allocated zero-filled when it is constructed.
