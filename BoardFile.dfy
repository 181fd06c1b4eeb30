/** The board file: what `writeBoard` prints and how `loadBoard` reads it
    back. A board is H lines of W decimal bytes separated by single spaces,
    each line ending in a newline. */
module BoardFile {
  import opened Life

  predicate IsDigit(ch: char) {
    '0' <= ch <= '9'
  }

  /** The characters C's `isspace` accepts; `fscanf` skips them before a number. */
  predicate IsSpace(ch: char) {
    ch == ' ' || ch == '\t' || ch == '\n' || ch == '\r' || ch == '\U{000B}' || ch == '\U{000C}'
  }

  predicate AllDigits(s: string) {
    forall k :: 0 <= k < |s| ==> IsDigit(s[k])
  }

  /** Occurrences of `ch` in `s`. */
  function Count(ch: char, s: string): nat
    decreases |s|
  {
    if s == [] then 0 else Count(ch, s[..|s| - 1]) + (if s[|s| - 1] == ch then 1 else 0)
  }

  lemma {:induction false} CountAppend(ch: char, a: string, b: string)
    ensures Count(ch, a + b) == Count(ch, a) + Count(ch, b)
    decreases |b|
  {
    if b == [] {
      assert a + b == a;
    } else {
      var b' := b[..|b| - 1];
      assert (a + b)[..|a + b| - 1] == a + b';
      assert (a + b)[|a + b| - 1] == b[|b| - 1];
      CountAppend(ch, a, b');
    }
  }

  lemma {:induction false} CountAbsent(ch: char, s: string)
    requires forall k :: 0 <= k < |s| ==> s[k] != ch
    ensures Count(ch, s) == 0
    decreases |s|
  {
    if s != [] {
      CountAbsent(ch, s[..|s| - 1]);
    }
  }

  // ---------------------------------------------------------------------
  // Decimal numbers, as printed by "%hhu"

  function DigitChar(d: nat): (ch: char)
    requires d < 10
    ensures IsDigit(ch)
  {
    ('0' as int + d) as char
  }

  function DigitValue(ch: char): nat
    requires IsDigit(ch)
  {
    ch as int - '0' as int
  }

  /** The decimal digits of `n`, most significant first, without leading zeros. */
  function Dec(n: nat): (s: string)
    ensures |s| >= 1 && AllDigits(s)
    ensures s[0] == '0' ==> n == 0
    decreases n
  {
    if n < 10 then [DigitChar(n)] else Dec(n / 10) + [DigitChar(n % 10)]
  }

  /** The number a string of decimal digits denotes. */
  function DecValue(s: string): nat
    requires AllDigits(s)
    decreases |s|
  {
    if s == [] then 0 else DecValue(s[..|s| - 1]) * 10 + DigitValue(s[|s| - 1])
  }

  /** The number the digits s[q..e] denote, read in place. */
  function NumberAt(s: string, q: nat, e: nat): nat
    requires q <= e <= |s| && forall k :: q <= k < e ==> IsDigit(s[k])
    decreases e - q
  {
    if e == q then 0 else NumberAt(s, q, e - 1) * 10 + DigitValue(s[e - 1])
  }

  /** Reading the digits in place is reading the cut-out string. */
  lemma {:induction false} NumberAtSlice(s: string, q: nat, e: nat)
    requires q <= e <= |s| && forall k :: q <= k < e ==> IsDigit(s[k])
    ensures NumberAt(s, q, e) == DecValue(s[q..e])
    decreases e - q
  {
    if e > q {
      assert s[q..e][..e - 1 - q] == s[q..e - 1];
      NumberAtSlice(s, q, e - 1);
    }
  }

  /** Reading back a printed number gives the number. */
  lemma {:induction false} DecRoundTrip(n: nat)
    ensures DecValue(Dec(n)) == n
    decreases n
  {
    if n >= 10 {
      var s := Dec(n);
      assert s[..|s| - 1] == Dec(n / 10);
      DecRoundTrip(n / 10);
    }
  }

  // ---------------------------------------------------------------------
  // The writer

  /** "%hhu " for every value: the inner loop of the writer, which prints all
      but the last cell of a row. */
  function RowPrefix(cells: seq<Byte>): (t: string)
    ensures t == [] <==> cells == []
    ensures t != [] ==> t[|t| - 1] == ' '
    decreases |cells|
  {
    if cells == [] then "" else RowPrefix(cells[..|cells| - 1]) + Dec(cells[|cells| - 1]) + " "
  }

  /** One row: the prefix, then the last cell with "%hhu\n". */
  function RowText(row: seq<Byte>): (t: string)
    requires |row| >= 1
    ensures |t| >= 2 && t[|t| - 1] == '\n'
  {
    RowPrefix(row[..|row| - 1]) + Dec(row[|row| - 1]) + "\n"
  }

  predicate RowsNonEmpty(g: Grid) {
    forall i :: 0 <= i < |g| ==> |g[i]| >= 1
  }

  /** The whole board, row after row. */
  function BoardText(g: Grid): (t: string)
    requires RowsNonEmpty(g)
    ensures t == [] <==> g == []
    ensures t != [] ==> t[|t| - 1] == '\n'
    decreases |g|
  {
    if g == [] then "" else BoardText(g[..|g| - 1]) + RowText(g[|g| - 1])
  }

  /** The decimal texts of a row's cells. */
  function Decs(row: seq<Byte>): (ts: seq<string>)
    ensures |ts| == |row|
  {
    seq(|row|, k requires 0 <= k < |row| => Dec(row[k]))
  }

  /** Strings joined by single spaces. */
  function Join(ts: seq<string>): string
    requires |ts| >= 1
    decreases |ts|
  {
    if |ts| == 1 then ts[0] else Join(ts[..|ts| - 1]) + " " + ts[|ts| - 1]
  }

  /** A line of the board file without its newline: digits and spaces only,
      and every space has a digit on each side (no leading, trailing or
      doubled space). */
  predicate IsLine(s: string) {
    |s| >= 1 &&
    (forall k :: 0 <= k < |s| ==> IsDigit(s[k]) || s[k] == ' ') &&
    (forall k :: 0 <= k < |s| && s[k] == ' ' ==> 0 < k < |s| - 1 && IsDigit(s[k - 1]) && IsDigit(s[k + 1]))
  }

  /** Two lines joined by a space make a line. */
  lemma JoinLine(a: string, b: string)
    requires IsLine(a) && |b| >= 1 && AllDigits(b)
    ensures IsLine(a + " " + b)
  {
    var s := a + " " + b;
    forall k | 0 <= k < |s| && s[k] == ' '
      ensures 0 < k < |s| - 1 && IsDigit(s[k - 1]) && IsDigit(s[k + 1])
    {
      if k < |a| {
        assert s[k - 1] == a[k - 1] && s[k + 1] == a[k + 1];
      } else if k == |a| {
        assert s[k - 1] == a[|a| - 1] && s[k + 1] == b[0];
      }
    }
  }

  /** Joining with a space adds that one space to the count. */
  lemma JoinCount(a: string, b: string)
    requires AllDigits(b)
    ensures Count(' ', a + " " + b) == Count(' ', a) + 1
  {
    assert a + " " + b == a + (" " + b);
    CountAppend(' ', a, " " + b);
    CountAppend(' ', " ", b);
    assert Count(' ', " ") == 1 by {
      assert " "[..0] == "";
    }
    CountAbsent(' ', b);
  }

  /** Values joined by single spaces form a line with one space fewer than
      there are values. */
  lemma {:induction false} JoinIsLine(ts: seq<string>)
    requires |ts| >= 1 && forall k :: 0 <= k < |ts| ==> |ts[k]| >= 1 && AllDigits(ts[k])
    ensures IsLine(Join(ts))
    ensures Count(' ', Join(ts)) == |ts| - 1
    decreases |ts|
  {
    if |ts| == 1 {
      CountAbsent(' ', ts[0]);
    } else {
      var ts' := ts[..|ts| - 1];
      var b := ts[|ts| - 1];
      assert forall k :: 0 <= k < |ts'| ==> ts'[k] == ts[k];
      JoinIsLine(ts');
      JoinLine(Join(ts'), b);
      JoinCount(Join(ts'), b);
    }
  }

  lemma {:induction false} RowPrefixJoin(cells: seq<Byte>, x: Byte)
    ensures RowPrefix(cells) + Dec(x) == Join(Decs(cells + [x]))
    decreases |cells|
  {
    var ts := Decs(cells + [x]);
    if cells == [] {
      assert ts == [Dec(x)];
    } else {
      var c' := cells[..|cells| - 1];
      var y := cells[|cells| - 1];
      RowPrefixJoin(c', y);
      assert cells == c' + [y];
      assert ts[..|ts| - 1] == Decs(c' + [y]);
    }
  }

  /** A row is printed as its values joined by single spaces, then a newline;
      the line holds W - 1 spaces and exactly one newline, at its end. */
  lemma RowTextFormat(row: seq<Byte>)
    requires |row| >= 1
    ensures RowText(row) == Join(Decs(row)) + "\n"
    ensures IsLine(Join(Decs(row)))
    ensures Count(' ', RowText(row)) == |row| - 1
    ensures Count('\n', RowText(row)) == 1
  {
    var n := |row|;
    RowPrefixJoin(row[..n - 1], row[n - 1]);
    assert row[..n - 1] + [row[n - 1]] == row;
    var ts := Decs(row);
    JoinIsLine(ts);
    CountAppend(' ', Join(ts), "\n");
    CountAppend('\n', Join(ts), "\n");
    CountAbsent('\n', Join(ts));
  }

  /** The board text has one newline per row. */
  lemma {:induction false} BoardTextNewlines(g: Grid)
    requires RowsNonEmpty(g)
    ensures Count('\n', BoardText(g)) == |g|
    decreases |g|
  {
    if g != [] {
      var g' := g[..|g| - 1];
      BoardTextNewlines(g');
      RowTextFormat(g[|g| - 1]);
      CountAppend('\n', BoardText(g'), RowText(g[|g| - 1]));
    }
  }

  /** The board text holds the text of the first i rows as a prefix, for
      every i: the rows come out in order. */
  lemma {:induction false} BoardTextPrefixes(g: Grid)
    requires RowsNonEmpty(g)
    ensures forall i :: 0 <= i <= |g| ==> BoardText(g[..i]) <= BoardText(g)
    decreases |g|
  {
    if g != [] {
      var g' := g[..|g| - 1];
      BoardTextPrefixes(g');
      assert BoardText(g) == BoardText(g') + RowText(g[|g| - 1]);
      forall i | 0 <= i <= |g| ensures BoardText(g[..i]) <= BoardText(g) {
        if i < |g| {
          assert g[..i] == g'[..i];
        } else {
          assert g[..i] == g;
        }
      }
    }
  }

  // ---------------------------------------------------------------------
  // The reader: "%hhu" read H x W times, in row-major order

  datatype ErrorKind =
    | UnexpectedEnd  // the text ends before all cells were read
    | NotANumber     // the next token is not a run of decimal digits
    | OutOfRange     // the token's value does not fit in an unsigned char

  /** The cell the reader was filling when it failed. */
  datatype LoadError = LoadError(row: nat, col: nat, kind: ErrorKind)

  datatype Result<T> = Ok(value: T) | Err(error: LoadError)

  /** The outcome of one "%hhu": the value and the position just after its digits. */
  datatype Scan = Scanned(value: Byte, end: nat) | ScanFailed(kind: ErrorKind)

  /** The first position at or after p that does not hold a space. */
  function SkipSpace(s: string, p: nat): (q: nat)
    requires p <= |s|
    ensures p <= q <= |s|
    ensures q < |s| ==> !IsSpace(s[q])
    decreases |s| - p
  {
    if p < |s| && IsSpace(s[p]) then SkipSpace(s, p + 1) else p
  }

  /** The first position at or after p that does not hold a digit. */
  function DigitsEnd(s: string, p: nat): (q: nat)
    requires p <= |s|
    ensures p <= q <= |s|
    ensures q < |s| ==> !IsDigit(s[q])
    decreases |s| - p
  {
    if p < |s| && IsDigit(s[p]) then DigitsEnd(s, p + 1) else p
  }

  /** Everything SkipSpace passes over is a space. */
  lemma {:induction false} SkipSpaceBlank(s: string, p: nat)
    requires p <= |s|
    ensures forall k :: p <= k < SkipSpace(s, p) ==> IsSpace(s[k])
    decreases |s| - p
  {
    if p < |s| && IsSpace(s[p]) {
      SkipSpaceBlank(s, p + 1);
    }
  }

  /** Everything DigitsEnd passes over is a digit. */
  lemma {:induction false} DigitsEndDigits(s: string, p: nat)
    requires p <= |s|
    ensures forall k :: p <= k < DigitsEnd(s, p) ==> IsDigit(s[k])
    decreases |s| - p
  {
    if p < |s| && IsDigit(s[p]) {
      DigitsEndDigits(s, p + 1);
    }
  }

  /** One "%hhu" from position p: skip spaces, read a run of digits that ends
      at a space or at the end of the text, and check that it fits a byte. */
  function ReadValue(s: string, p: nat): (r: Scan)
    requires p <= |s|
    ensures r.Scanned? ==> p < r.end <= |s| && (r.end == |s| || IsSpace(s[r.end]))
    ensures r.Scanned? ==> IsDigit(s[r.end - 1])
  {
    var q := SkipSpace(s, p);
    if q == |s| then ScanFailed(UnexpectedEnd)
    else
      var e := DigitsEnd(s, q);
      DigitsEndDigits(s, q);
      if e == q || (e < |s| && !IsSpace(s[e])) then ScanFailed(NotANumber)
      else
        var v := NumberAt(s, q, e);
        if v < 256 then Scanned(v, e) else ScanFailed(OutOfRange)
  }

  /** What a successful conversion read: only white space before the
      digits, and the value is the number those digits denote. */
  lemma {:induction false} ReadValueReads(s: string, p: nat)
    requires p <= |s|
    ensures var r := ReadValue(s, p); var q := SkipSpace(s, p);
      r.Scanned? ==> q < r.end && Blank(s, p, q) && AllDigits(s[q..r.end]) && r.value == DecValue(s[q..r.end])
  {
    var q := SkipSpace(s, p);
    SkipSpaceBlank(s, p);
    if q < |s| {
      var e := DigitsEnd(s, q);
      DigitsEndDigits(s, q);
      if q < e {
        NumberAtSlice(s, q, e);
      }
    }
  }

  /** Reads the first k cells of row i, starting at position p. */
  function LoadRow(s: string, p: nat, i: nat, k: nat): (r: Result<(seq<Byte>, nat)>)
    requires p <= |s|
    ensures r.Ok? ==> |r.value.0| == k && p <= r.value.1 <= |s|
    ensures r.Err? ==> r.error.row == i && r.error.col < k
    decreases k
  {
    if k == 0 then Ok(([], p))
    else
      match LoadRow(s, p, i, k - 1)
      case Err(e) => Err(e)
      case Ok((cells, q)) =>
        match ReadValue(s, q)
        case ScanFailed(kind) => Err(LoadError(i, k - 1, kind))
        case Scanned(v, e) => Ok((cells + [v], e))
  }

  /** Reads the first k rows of w cells from the start of the text. */
  function LoadRows(s: string, k: nat, w: nat): (r: Result<(Grid, nat)>)
    ensures r.Ok? ==> IsGrid(r.value.0, k, w) && r.value.1 <= |s|
    ensures r.Err? ==> r.error.row < k && r.error.col < w
    decreases k
  {
    if k == 0 then Ok(([], 0))
    else
      match LoadRows(s, k - 1, w)
      case Err(e) => Err(e)
      case Ok((rows, q)) =>
        match LoadRow(s, q, k - 1, w)
        case Err(e) => Err(e)
        case Ok((row, q')) => Ok((rows + [row], q'))
  }

  /** The board an h x w reader fills from the text, or the first cell it
      could not read. Text after the last cell is ignored. */
  function ParseBoard(s: string, h: nat, w: nat): (r: Result<Grid>)
    ensures r.Ok? ==> IsGrid(r.value, h, w)
    ensures r.Err? ==> r.error.row < h && r.error.col < w
  {
    match LoadRows(s, h, w)
    case Ok((g, _)) => Ok(g)
    case Err(e) => Err(e)
  }

  /** Once reading a row fails, reading more of it fails the same way. */
  lemma {:induction false} LoadRowErrorStays(s: string, p: nat, i: nat, k: nat, k': nat)
    requires p <= |s| && k <= k' && LoadRow(s, p, i, k).Err?
    ensures LoadRow(s, p, i, k') == LoadRow(s, p, i, k)
    decreases k' - k
  {
    if k < k' {
      LoadRowErrorStays(s, p, i, k, k' - 1);
    }
  }

  /** Once reading a row fails, reading more rows fails the same way. */
  lemma {:induction false} LoadRowsErrorStays(s: string, k: nat, k': nat, w: nat)
    requires k <= k' && LoadRows(s, k, w).Err?
    ensures LoadRows(s, k', w) == LoadRows(s, k, w)
    decreases k' - k
  {
    if k < k' {
      LoadRowsErrorStays(s, k, k' - 1, w);
    }
  }

  /** A cell that cannot be read, after j cells of the row that could, is
      the failure of the whole row. */
  lemma ScanFailureEndsRow(s: string, p: nat, i: nat, j: nat, w: nat, cells: seq<Byte>, q: nat, kind: ErrorKind)
    requires j < w && q <= |s| && RowReads(s, p, i, j, cells, q) && ReadValue(s, q) == ScanFailed(kind)
    ensures LoadRow(s, p, i, w).Err? && LoadRow(s, p, i, w).error == LoadError(i, j, kind)
  {
    assert LoadRow(s, p, i, j + 1) == Err(LoadError(i, j, kind));
    LoadRowErrorStays(s, p, i, j + 1, w);
  }

  /** A row that cannot be read, after i rows that could, is the failure of
      the whole board. */
  lemma RowFailureIsFinal(s: string, h: nat, w: nat, i: nat, q: nat)
    requires i < h && q <= |s|
    requires LoadRows(s, i, w).Ok? && LoadRows(s, i, w).value.1 == q
    requires LoadRow(s, q, i, w).Err?
    ensures ParseBoard(s, h, w).Err? && ParseBoard(s, h, w).error == LoadRow(s, q, i, w).error
  {
    assert LoadRows(s, i + 1, w) == Err(LoadRow(s, q, i, w).error);
    LoadRowsErrorStays(s, i + 1, h, w);
  }

  // ---------------------------------------------------------------------
  // Reading back what was written

  /** Only spaces between positions p and q. */
  predicate Blank(s: string, p: nat, q: nat) {
    p <= q <= |s| && forall k :: p <= k < q ==> IsSpace(s[k])
  }

  /** The text `t` occurs in `s` at position b. */
  predicate At(s: string, b: nat, t: string) {
    b + |t| <= |s| && forall k :: 0 <= k < |t| ==> s[b + k] == t[k]
  }

  lemma AtSplit(s: string, b: nat, t: string, u: string)
    requires At(s, b, t + u)
    ensures At(s, b, t) && At(s, b + |t|, u)
  {
    forall k | 0 <= k < |t| ensures s[b + k] == t[k] {
      assert s[b + k] == (t + u)[k];
    }
    forall k | 0 <= k < |u| ensures s[b + |t| + k] == u[k] {
      assert s[b + (|t| + k)] == (t + u)[|t| + k];
    }
  }

  /** "%hhu" reads a printed number preceded by spaces and followed by a
      space or the end of the text. */
  lemma ReadValueAt(s: string, p: nat, q: nat, v: Byte)
    requires Blank(s, p, q) && At(s, q, Dec(v))
    requires q + |Dec(v)| == |s| || IsSpace(s[q + |Dec(v)|])
    ensures ReadValue(s, p) == Scanned(v, q + |Dec(v)|)
  {
    var d := Dec(v);
    var e := q + |d|;
    assert s[q] == d[0];
    SkipSpaceBlank(s, p);
    assert SkipSpace(s, p) == q;
    assert forall k :: q <= k < e ==> s[k] == d[k - q] by {
      forall k | q <= k < e ensures s[k] == d[k - q] {
        assert s[q + (k - q)] == d[k - q];
      }
    }
    DigitsEndDigits(s, q);
    assert DigitsEnd(s, q) == e;
    assert s[q..e] == d;
    NumberAtSlice(s, q, e);
    DecRoundTrip(v);
  }

  /** Reading k cells of row i from p succeeds with `cells`, ending at q. */
  predicate RowReads(s: string, p: nat, i: nat, k: nat, cells: seq<Byte>, q: nat) {
    p <= |s| && LoadRow(s, p, i, k).Ok? && LoadRow(s, p, i, k).value.0 == cells && LoadRow(s, p, i, k).value.1 == q
  }

  /** Reading k rows of w cells succeeds with `rows`, ending at q. */
  predicate RowsRead(s: string, k: nat, w: nat, rows: Grid, q: nat) {
    LoadRows(s, k, w).Ok? && LoadRows(s, k, w).value.0 == rows && LoadRows(s, k, w).value.1 == q
  }

  /** One more successful "%hhu" extends the row read so far. */
  lemma LoadRowStep(s: string, p: nat, i: nat, k: nat, cells: seq<Byte>, q: nat, v: Byte, e: nat)
    requires RowReads(s, p, i, k, cells, q) && q <= |s| && ReadValue(s, q) == Scanned(v, e)
    ensures RowReads(s, p, i, k + 1, cells + [v], e)
  {
  }

  /** Where the reader stands after the cells of `t`, a printed prefix that
      starts at b: at its last character, a separator; or still at p when
      nothing was printed. Either way only spaces lie between there and the
      end of `t`. */
  lemma AfterPrinted(s: string, p: nat, b: nat, t: string)
    requires Blank(s, p, b) && At(s, b, t)
    requires t != [] ==> IsSpace(t[|t| - 1])
    ensures Blank(s, if t == [] then p else b + |t| - 1, b + |t|)
  {
    if t != [] {
      assert s[b + (|t| - 1)] == t[|t| - 1];
    }
  }

  /** Reading one more printed value, at b', after a row read so far that
      left the reader where only spaces remain before b'. */
  lemma ReadNext(s: string, p: nat, i: nat, cells: seq<Byte>, q: nat, b': nat, x: Byte)
    requires RowReads(s, p, i, |cells|, cells, q)
    requires Blank(s, q, b') && At(s, b', Dec(x)) && b' + |Dec(x)| < |s| && IsSpace(s[b' + |Dec(x)|])
    ensures RowReads(s, p, i, |cells| + 1, cells + [x], b' + |Dec(x)|)
  {
    ReadValueAt(s, q, b', x);
    LoadRowStep(s, p, i, |cells|, cells, q, x, b' + |Dec(x)|);
  }

  /** The text of a value followed by a separator, split into its parts. */
  lemma AtValue(s: string, b: nat, t: string, x: Byte, sep: char)
    requires At(s, b, t + (Dec(x) + [sep]))
    ensures At(s, b, t) && At(s, b + |t|, Dec(x))
    ensures b + |t| + |Dec(x)| < |s| && s[b + |t| + |Dec(x)|] == sep
  {
    AtSplit(s, b, t, Dec(x) + [sep]);
    AtSplit(s, b + |t|, Dec(x), [sep]);
    assert s[b + |t| + |Dec(x)| + 0] == [sep][0];
  }

  /** Reading the next printed value and its separator, at b + |t|, after
      the values printed as `t` from b were read. */
  lemma ReadPrintedValue(s: string, b: nat, p: nat, i: nat, cells: seq<Byte>, t: string, x: Byte, sep: char)
    requires IsSpace(sep) && (t == [] <==> cells == []) && (t != [] ==> IsSpace(t[|t| - 1]))
    requires Blank(s, p, b) && At(s, b, t + (Dec(x) + [sep]))
    requires RowReads(s, p, i, |cells|, cells, if cells == [] then p else b + |t| - 1)
    ensures RowReads(s, p, i, |cells| + 1, cells + [x], b + |t| + |Dec(x)|)
  {
    AtValue(s, b, t, x, sep);
    AfterPrinted(s, p, b, t);
    ReadNext(s, p, i, cells, if cells == [] then p else b + |t| - 1, b + |t|, x);
  }

  /** Reading the cells printed by the inner loop, from any position p that
      is followed only by spaces up to the text at b. */
  lemma {:induction false} LoadRowPrefix(s: string, b: nat, p: nat, i: nat, cells: seq<Byte>)
    requires Blank(s, p, b) && At(s, b, RowPrefix(cells))
    ensures RowReads(s, p, i, |cells|, cells, if cells == [] then p else b + |RowPrefix(cells)| - 1)
    decreases |cells|
  {
    if cells != [] {
      var c' := cells[..|cells| - 1];
      var x := cells[|cells| - 1];
      assert cells == c' + [x];
      var t := RowPrefix(c');
      assert RowPrefix(cells) == t + (Dec(x) + [' ']);
      AtSplit(s, b, t, Dec(x) + [' ']);
      LoadRowPrefix(s, b, p, i, c');
      ReadPrintedValue(s, b, p, i, c', t, x, ' ');
    }
  }

  /** Reading a printed row, from a position p followed only by spaces up to
      the row's text at b, ends on the row's newline. */
  lemma LoadRowText(s: string, b: nat, p: nat, i: nat, row: seq<Byte>)
    requires |row| >= 1
    requires Blank(s, p, b) && At(s, b, RowText(row))
    ensures RowReads(s, p, i, |row|, row, b + |RowText(row)| - 1)
  {
    var c' := row[..|row| - 1];
    var x := row[|row| - 1];
    assert row == c' + [x];
    var t := RowPrefix(c');
    assert RowText(row) == t + (Dec(x) + ['\n']);
    AtSplit(s, b, t, Dec(x) + ['\n']);
    LoadRowPrefix(s, b, p, i, c');
    ReadPrintedValue(s, b, p, i, c', t, x, '\n');
  }

  /** One more successfully read row extends the board read so far. */
  lemma LoadRowsStep(s: string, k: nat, w: nat, rows: Grid, q: nat, row: seq<Byte>, e: nat)
    requires RowsRead(s, k, w, rows, q) && RowReads(s, q, k, w, row, e)
    ensures RowsRead(s, k + 1, w, rows + [row], e)
  {
  }

  /** Printing one more row appends that row's line. */
  lemma BoardTextSnoc(g: Grid, row: seq<Byte>)
    requires RowsNonEmpty(g) && |row| >= 1
    ensures RowsNonEmpty(g + [row]) && BoardText(g + [row]) == BoardText(g) + RowText(row)
  {
    assert (g + [row])[..|g|] == g;
  }

  /** Where a line `t` that follows the printed lines `a` starts, and what
      the reader has seen before it: nothing, or a final newline. */
  lemma NextRowAt(s: string, a: string, t: string)
    requires At(s, 0, a + t) && (a != [] ==> a[|a| - 1] == '\n')
    ensures At(s, 0, a) && At(s, |a|, t)
    ensures Blank(s, if a == [] then 0 else |a| - 1, |a|)
  {
    AtSplit(s, 0, a, t);
    AfterPrinted(s, 0, 0, a);
  }

  /** Reading the first rows of a text that starts with a printed board. */
  lemma {:induction false} LoadRowsText(s: string, g: Grid, w: nat)
    requires w >= 1 && IsGrid(g, |g|, w)
    requires At(s, 0, BoardText(g))
    ensures RowsRead(s, |g|, w, g, if g == [] then 0 else |BoardText(g)| - 1)
    decreases |g|
  {
    if g != [] {
      var g' := g[..|g| - 1];
      var row := g[|g| - 1];
      assert g == g' + [row];
      var a := BoardText(g');
      BoardTextSnoc(g', row);
      NextRowAt(s, a, RowText(row));
      LoadRowsText(s, g', w);
      var q := if g' == [] then 0 else |a| - 1;
      LoadRowText(s, |a|, q, |g'|, row);
      LoadRowsStep(s, |g'|, w, g', q, row, |a| + |RowText(row)| - 1);
    }
  }

  /** Loading the text the writer produced, with the same dimensions, gives
      back the board, cell for cell. */
  lemma RoundTrip(g: Grid, h: nat, w: nat)
    requires w >= 1 && IsGrid(g, h, w)
    ensures ParseBoard(BoardText(g), h, w) == Ok(g)
  {
    LoadRowsText(BoardText(g), g, w);
  }
}
