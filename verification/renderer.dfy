/** The text `print_board` of hanoi.py draws for one board: a row per level from
    the top level n down to level 1, then the base line and a blank line. The
    ANSI cursor codes around it and the pause after it are not part of the text. */
module Renderer {
  import opened Pegs

  /** Python's `c * k` on a one-character string: k copies of c, none when k <= 0. */
  function Repeat(c: char, k: int): (r: string)
    decreases k
    ensures |r| == if k > 0 then k else 0
    ensures forall i :: 0 <= i < |r| ==> r[i] == c
  {
    if k <= 0 then [] else [c] + Repeat(c, k - 1)
  }

  /** The decimal digit character of 0 <= k < 10. */
  function Digit(k: int): (c: char)
    requires 0 <= k < 10
    ensures '0' <= c <= '9'
  {
    (48 + k) as char
  }

  /** The value of a decimal digit character. */
  function DigitValue(c: char): (k: int)
    requires '0' <= c <= '9'
    ensures 0 <= k < 10
  {
    c as int - 48
  }

  /** The decimal numeral of k without leading zeros, as `str(k)` writes it. */
  function Decimal(k: nat): (r: string)
    ensures 1 <= |r|
    ensures forall i :: 0 <= i < |r| ==> '0' <= r[i] <= '9'
    ensures |r| == 1 <==> k < 10
    ensures |r| == 2 <==> 10 <= k < 100
  {
    if k < 10 then [Digit(k)] else Decimal(k / 10) + [Digit(k % 10)]
  }

  /** The number a string of decimal digits denotes. */
  function ReadDecimal(s: string): (k: nat)
    requires forall i :: 0 <= i < |s| ==> '0' <= s[i] <= '9'
  {
    if |s| == 0 then 0 else 10 * ReadDecimal(s[..|s| - 1]) + DigitValue(s[|s| - 1])
  }

  /** Reading back the numeral gives the number: `Decimal` loses nothing. */
  lemma {:induction false} DecimalRoundTrip(k: nat)
    ensures ReadDecimal(Decimal(k)) == k
  {
    if k >= 10 {
      var r := Decimal(k);
      assert r[..|r| - 1] == Decimal(k / 10);
      DecimalRoundTrip(k / 10);
    }
  }

  /** `f"{level:2d}   "`: the level right-aligned in two columns, then three spaces. */
  function Label(level: nat): (r: string)
  {
    var digits := Decimal(level);
    Repeat(' ', 2 - |digits|) + digits + "   "
  }

  /** The label is five columns wide for every level up to 99: the level's
      digits right-aligned in the first two columns, then three spaces. */
  lemma LabelShape(level: nat)
    requires level < 100
    ensures var r := Label(level);
      && |r| == 5
      && r[2..] == "   "
      && (level < 10 ==> r[0] == ' ' && r[1] == Digit(level))
      && (level >= 10 ==> r[0] == Digit(level / 10) && r[1] == Digit(level % 10))
  {
    var digits := Decimal(level);
    if level >= 10 {
      assert Decimal(level / 10) == [Digit(level / 10)];
      assert digits == [Digit(level / 10), Digit(level % 10)];
    } else {
      assert digits == [Digit(level)];
    }
    assert Label(level) == Repeat(' ', 2 - |digits|) + digits + "   ";
  }

  /** The label's width alone. */
  lemma LabelWidth(level: nat)
    requires level < 100
    ensures |Label(level)| == 5
  {
    LabelShape(level);
  }

  /** One peg's part of the row at `level` (counted from 1 at the bottom): the bare
      peg `|` centred in 2n + 1 columns when the stack is lower than the level,
      otherwise the disc `stack[level - 1]` of size k drawn as 2k - 1 `=` with
      n - k + 1 spaces on each side. */
  function Cell(stack: seq<int>, level: int, n: int): (r: string)
    requires level >= 1
  {
    if |stack| < level then
      Repeat(' ', n) + "|" + Repeat(' ', n)
    else
      var size := stack[level - 1];
      Repeat(' ', n - size + 1) + Repeat('=', size * 2 - 1) + Repeat(' ', n - size + 1)
  }

  /** Where no disc reaches the level, the cell is 2n + 1 columns with the peg at
      the centre column n and spaces elsewhere. */
  lemma EmptyCellShape(stack: seq<int>, level: int, n: int)
    requires level >= 1
    requires |stack| < level
    requires n >= 0
    ensures var r := Cell(stack, level, n);
      && |r| == 2 * n + 1
      && forall i :: 0 <= i < |r| ==> r[i] == if i == n then '|' else ' '
  {
    var r := Cell(stack, level, n);
    forall i | 0 <= i < |r|
      ensures r[i] == if i == n then '|' else ' '
    {
      if i > n {
        assert r[i] == Repeat(' ', n)[i - n - 1];
      }
    }
  }

  /** A disc of size k at the level draws a cell of width 2n + 1 exactly when
      1 <= k <= n + 1; then the `=` run covers the columns within k - 1 of the
      centre column n, and the rest are spaces. */
  lemma DiscCellShape(stack: seq<int>, level: int, n: int)
    requires level >= 1
    requires |stack| >= level
    ensures var r := Cell(stack, level, n);
      var size := stack[level - 1];
      && (|r| == 2 * n + 1 <==> 1 <= size <= n + 1)
      && (1 <= size <= n + 1 ==>
            forall i :: 0 <= i < |r| ==> r[i] == if n - size < i < n + size then '=' else ' ')
  {
    var r := Cell(stack, level, n);
    var size := stack[level - 1];
    var pad := n - size + 1;
    if 1 <= size <= n + 1 {
      forall i | 0 <= i < |r|
        ensures r[i] == if n - size < i < n + size then '=' else ' '
      {
        if i < pad {
          assert r[i] == Repeat(' ', pad)[i];
        } else if i < pad + 2 * size - 1 {
          assert r[i] == Repeat('=', size * 2 - 1)[i - pad];
        } else {
          assert r[i] == Repeat(' ', pad)[i - pad - (2 * size - 1)];
        }
      }
    }
  }

  /** The row of the board at `level`: the label and the three pegs' cells. */
  function Row(b: Board, level: nat, n: int): (r: string)
    requires level >= 1
  {
    Label(level) + Cell(b[0], level, n) + Cell(b[1], level, n) + Cell(b[2], level, n)
  }

  /** The rows for `levels = range(n, 0, -1)`: the i-th row is the row of level n - i. */
  function Rows(b: Board, n: int): (rows: seq<string>)
    ensures |rows| == if n > 0 then n else 0
  {
    if n <= 0 then [] else seq(n, i requires 0 <= i < n => Row(b, n - i, n))
  }

  /** `'     ' + '-' * (n * 6 + 3)`: the base drawn under the pegs. */
  function BaseLine(n: int): (r: string)
    ensures |r| == 5 + (if 6 * n + 3 > 0 then 6 * n + 3 else 0)
    ensures r[..5] == "     "
    ensures forall i :: 5 <= i < |r| ==> r[i] == '-'
  {
    "     " + Repeat('-', n * 6 + 3)
  }

  /** Every line `print_board` writes for board b of a game with n discs: the rows,
      the base line, and the empty line of the final `print()`. */
  function Render(b: Board, n: int): (lines: seq<string>)
  {
    Rows(b, n) + [BaseLine(n), ""]
  }

  /** The frame is `board_height` = (number of levels) + 2 lines tall, so moving the
      cursor up by `board_height` before the next frame lands on its first line; the
      last two lines are the base and the blank line. */
  lemma RenderHeight(b: Board, n: int)
    ensures var lines := Render(b, n);
      && |lines| == (if n > 0 then n else 0) + 2
      && lines[|lines| - 2] == BaseLine(n)
      && lines[|lines| - 1] == ""
  {
  }

  /** All disc sizes on the board lie between 1 and n. */
  ghost predicate DiscsWithin(b: Board, n: int)
  {
    forall p: Peg, i :: 0 <= i < |b[p]| ==> 1 <= b[p][i] <= n
  }

  /** With 0 <= n <= 99 and every disc size between 1 and n, each row is as wide
      as the base line, 6n + 8 columns: the drawing is a rectangle. */
  lemma RowWidth(b: Board, level: nat, n: int)
    requires 0 <= n <= 99
    requires 1 <= level <= n
    requires DiscsWithin(b, n)
    ensures |Row(b, level, n)| == 6 * n + 8
  {
    LabelWidth(level);
    CellWidth(b, 0, level, n);
    CellWidth(b, 1, level, n);
    CellWidth(b, 2, level, n);
  }

  /** Each peg's cell is 2n + 1 wide when its discs are sizes between 1 and n. */
  lemma CellWidth(b: Board, p: Peg, level: nat, n: int)
    requires 0 <= n
    requires 1 <= level
    requires DiscsWithin(b, n)
    ensures |Cell(b[p], level, n)| == 2 * n + 1
  {
    if |b[p]| < level {
      EmptyCellShape(b[p], level, n);
    } else {
      assert 1 <= b[p][level - 1] <= n;
      DiscCellShape(b[p], level, n);
    }
  }

  /** The first column of peg p's part of a row, `5 + p * (2n + 1)`: after the
      five-column label and the cells of the pegs before it. */
  function CellStart(p: Peg, n: int): (c: int)
    ensures n >= 0 ==> c == 5 + p * (2 * n + 1)
  {
    if p == 0 then 5 else if p == 1 then 5 + (2 * n + 1) else 5 + 2 * (2 * n + 1)
  }

  /** A column within a five-column prefix followed by three w-column cells falls
      in column j of cell p when it is `CellStart(p, n) + j` for w = 2n + 1. */
  lemma CellColumn(prefix: string, c0: string, c1: string, c2: string, n: int, p: Peg, j: int)
    requires n >= 0
    requires |prefix| == 5 && |c0| == 2 * n + 1 && |c1| == 2 * n + 1 && |c2| == 2 * n + 1
    requires 0 <= j < 2 * n + 1
    ensures var row := prefix + c0 + c1 + c2;
      && CellStart(p, n) + j < |row|
      && row[CellStart(p, n) + j] == (if p == 0 then c0 else if p == 1 then c1 else c2)[j]
  {
  }

  /** Column j of peg p's part of the row at `level` is column j of that peg's cell. */
  lemma RowColumn(b: Board, level: nat, n: int, p: Peg, j: int)
    requires 0 <= n <= 99
    requires 1 <= level <= n
    requires DiscsWithin(b, n)
    requires 0 <= j < 2 * n + 1
    ensures |Cell(b[p], level, n)| == 2 * n + 1
    ensures CellStart(p, n) + j < |Row(b, level, n)|
    ensures Row(b, level, n)[CellStart(p, n) + j] == Cell(b[p], level, n)[j]
  {
    var c0, c1, c2 := Cell(b[0], level, n), Cell(b[1], level, n), Cell(b[2], level, n);
    assert |Label(level)| == 5 && |c0| == 2 * n + 1 && |c1| == 2 * n + 1 && |c2| == 2 * n + 1 by {
      LabelWidth(level);
      CellWidth(b, 0, level, n);
      CellWidth(b, 1, level, n);
      CellWidth(b, 2, level, n);
    }
    assert Row(b, level, n) == Label(level) + c0 + c1 + c2;
    assert Cell(b[p], level, n) == if p == 0 then c0 else if p == 1 then c1 else c2;
    CellColumn(Label(level), c0, c1, c2, n, p, j);
  }

  /** Column j of a peg's cell: the bare peg at the centre when the stack is lower
      than the level, otherwise `=` within k - 1 columns of the centre for the disc
      of size k at that level. */
  lemma CellPicture(stack: seq<int>, level: nat, n: int, j: int)
    requires 1 <= level
    requires 0 <= n
    requires forall i :: 0 <= i < |stack| ==> 1 <= stack[i] <= n
    requires 0 <= j < 2 * n + 1
    ensures j < |Cell(stack, level, n)|
    ensures Cell(stack, level, n)[j] ==
      if |stack| < level then (if j == n then '|' else ' ')
      else if n - stack[level - 1] < j < n + stack[level - 1] then '=' else ' '
  {
    if |stack| < level {
      EmptyCellShape(stack, level, n);
    } else {
      DiscCellShape(stack, level, n);
    }
  }

  /** What the row at `level` shows in column j of peg p's part: the bare peg at
      the centre when the stack is lower than the level, otherwise the disc
      `b[p][level - 1]` of size k as `=` across the k - 1 columns either side of
      the centre. */
  lemma RowPicture(b: Board, level: nat, n: int, p: Peg, j: int)
    requires 0 <= n <= 99
    requires 1 <= level <= n
    requires DiscsWithin(b, n)
    requires 0 <= j < 2 * n + 1
    ensures var row := Row(b, level, n);
      && CellStart(p, n) + j < |row|
      && row[CellStart(p, n) + j] ==
           if |b[p]| < level then (if j == n then '|' else ' ')
           else if n - b[p][level - 1] < j < n + b[p][level - 1] then '=' else ' '
  {
    RowColumn(b, level, n, p, j);
    CellPicture(b[p], level, n, j);
  }

  /** Every row of the frame is 6n + 8 columns wide. */
  lemma RowsWidth(b: Board, n: int)
    requires 0 <= n <= 99
    requires DiscsWithin(b, n)
    ensures forall i :: 0 <= i < |Rows(b, n)| ==> |Rows(b, n)[i]| == 6 * n + 8
  {
    var rows := Rows(b, n);
    forall i | 0 <= i < |rows|
      ensures |rows[i]| == 6 * n + 8
    {
      RowWidth(b, n - i, n);
    }
  }

  /** The whole frame is a rectangle of n + 1 lines, each as wide as the base line,
      6n + 8 columns, followed by the blank line. */
  lemma RenderRectangular(b: Board, n: int)
    requires 0 <= n <= 99
    requires DiscsWithin(b, n)
    ensures var lines := Render(b, n);
      forall i :: 0 <= i < |lines| - 1 ==> |lines[i]| == |BaseLine(n)| == 6 * n + 8
  {
    var rows := Rows(b, n);
    RowsWidth(b, n);
    var lines := rows + [BaseLine(n), ""];
    assert forall i :: 0 <= i < |rows| ==> lines[i] == rows[i];
  }
}
