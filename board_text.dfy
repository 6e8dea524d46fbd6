/** `GameBoard.__str__`: the debugging text of a grid, a header of column numbers
    and then one line per row, and a reader for that text which recovers the grid. */
module BoardText {
  import opened Options
  import opened BoardRules

  /** The column header. */
  const Header: string := "  0  1  2  3  4  5  6  7\n"

  /** How a square is written: the cell followed by one space. */
  function CellText(c: Cell): string {
    match c
    case Empty => "--- "
    case B => "B "
    case C => "C "
  }

  /** The cells of `row`, written from the left. */
  function CellsText(row: seq<Cell>): string {
    if |row| == 0 then "" else CellsText(row[..|row| - 1]) + CellText(row[|row| - 1])
  }

  /** The digit of a row number. */
  function Digit(i: int): char
    requires 0 <= i < 8
  {
    (48 + i) as char
  }

  /** Line `i`: the row number, a space, the cells and a newline. */
  function RowLine(m: Grid, i: int): string
    requires 0 <= i < 8
  {
    [Digit(i), ' '] + CellsText(m[i]) + "\n"
  }

  /** Lines `0` to `n - 1`. */
  function LinesText(m: Grid, n: nat): string
    requires n <= 8
  {
    if n == 0 then "" else LinesText(m, n - 1) + RowLine(m, n - 1)
  }

  /** The whole text. */
  function Render(m: Grid): string {
    Header + LinesText(m, 8)
  }

  // ---------------------------------------------------------------------------
  // Reading the text back
  // ---------------------------------------------------------------------------

  /** The cells written before the next newline, and the text after that newline;
      `None` when the text is not a sequence of written cells ending in a newline. */
  function ParseCells(s: string): Option<(seq<Cell>, string)>
    decreases |s|
  {
    if |s| == 0 then None
    else if s[0] == '\n' then Some(([], s[1..]))
    else if |s| >= 4 && s[..4] == CellText(Empty) then Prepend(Empty, ParseCells(s[4..]))
    else if |s| >= 2 && s[..2] == CellText(B) then Prepend(B, ParseCells(s[2..]))
    else if |s| >= 2 && s[..2] == CellText(C) then Prepend(C, ParseCells(s[2..]))
    else None
  }

  function Prepend(c: Cell, r: Option<(seq<Cell>, string)>): Option<(seq<Cell>, string)> {
    match r
    case None => None
    case Some((cells, rest)) => Some(([c] + cells, rest))
  }

  /** Lines `i` to `7`: each its row number, a space and its cells. */
  function ParseLines(s: string, i: nat): Option<seq<seq<Cell>>>
    requires i <= 8
    decreases 8 - i
  {
    if i == 8 then (if |s| == 0 then Some([]) else None)
    else if |s| < 2 || s[0] != Digit(i) || s[1] != ' ' then None
    else
      match ParseCells(s[2..])
      case None => None
      case Some((row, rest)) => PrependRow(row, ParseLines(rest, i + 1))
  }

  function PrependRow(row: seq<Cell>, r: Option<seq<seq<Cell>>>): Option<seq<seq<Cell>>> {
    match r
    case None => None
    case Some(rows) => Some([row] + rows)
  }

  /** The grid a text written by `Render` shows, or `None`. */
  function Parse(s: string): Option<seq<seq<Cell>>> {
    if |s| >= |Header| && s[..|Header|] == Header then ParseLines(s[|Header|..], 0) else None
  }

  // ---------------------------------------------------------------------------
  // The text shows the whole grid
  // ---------------------------------------------------------------------------

  /** The text of a grid reads back as that grid. */
  lemma ParseRender(m: Grid)
    ensures Parse(Render(m)).Some? && Parse(Render(m)).value == m
  {
    LinesFront(m, 8);
    assert LinesText(m, 8) == LinesFrom(m, 0);
    assert Render(m)[..|Header|] == Header;
    assert Render(m)[|Header|..] == LinesFrom(m, 0);
    ParseLinesFrom(m, 0);
    assert m[0..] == m;
  }

  /** Lines `i` to `7` written from the front. */
  function LinesFrom(m: Grid, i: nat): string
    requires i <= 8
    decreases 8 - i
  {
    if i == 8 then "" else RowLine(m, i) + LinesFrom(m, i + 1)
  }

  /** Writing lines from the back and from the front gives the same text. */
  lemma {:induction false} LinesFront(m: Grid, n: nat)
    requires n <= 8
    ensures LinesText(m, n) + LinesFrom(m, n) == LinesFrom(m, 0)
    decreases n
  {
    if n > 0 {
      LinesFront(m, n - 1);
      assert LinesFrom(m, n - 1) == RowLine(m, n - 1) + LinesFrom(m, n);
      assert LinesText(m, n) == LinesText(m, n - 1) + RowLine(m, n - 1);
    }
  }

  /** Lines `i` to `7` read back as rows `i` to `7`. */
  lemma {:induction false} ParseLinesFrom(m: Grid, i: nat)
    requires i <= 8
    ensures ParseLines(LinesFrom(m, i), i).Some? && ParseLines(LinesFrom(m, i), i).value == m[i..]
    decreases 8 - i
  {
    if i < 8 {
      ParseLine(i, m[i], LinesFrom(m, i + 1));
      ParseLinesFrom(m, i + 1);
      assert m[i..] == [m[i]] + m[i + 1..];
    }
  }

  /** Line `i` in front of a text reads back as its row in front of what the text
      reads back as. */
  lemma ParseLine(i: nat, row: seq<Cell>, tail: string)
    requires i < 8
    ensures ParseLines([Digit(i), ' '] + CellsText(row) + "\n" + tail, i) == PrependRow(row, ParseLines(tail, i + 1))
  {
    var s := [Digit(i), ' '] + CellsText(row) + "\n" + tail;
    assert s[2..] == CellsText(row) + "\n" + tail;
    ParseCellsText(row, tail);
  }

  /** The cells of a row followed by a newline read back as that row. */
  lemma {:induction false} ParseCellsText(row: seq<Cell>, rest: string)
    ensures ParseCells(CellsText(row) + "\n" + rest) == Some((row, rest))
    decreases |row|
  {
    if |row| == 0 {
      assert CellsText(row) + "\n" + rest == ['\n'] + rest;
    } else {
      var u := CellsText(row[1..]) + "\n" + rest;
      CellsTextFront(row);
      assert CellsText(row) + "\n" + rest == CellText(row[0]) + u;
      ParseCell(row[0], u);
      ParseCellsText(row[1..], rest);
      assert [row[0]] + row[1..] == row;
    }
  }

  /** A written cell in front of a text reads back as that cell. */
  lemma ParseCell(c: Cell, u: string)
    ensures ParseCells(CellText(c) + u) == Prepend(c, ParseCells(u))
  {
    var s := CellText(c) + u;
    var w := |CellText(c)|;
    assert s[..w] == CellText(c) && s[w..] == u;
    assert s[0] == CellText(c)[0];
  }

  /** The text of a row starts with its first cell. */
  lemma {:induction false} CellsTextFront(row: seq<Cell>)
    requires |row| > 0
    ensures CellsText(row) == CellText(row[0]) + CellsText(row[1..])
    decreases |row|
  {
    if |row| > 1 {
      var n := |row|;
      CellsTextFront(row[..n - 1]);
      assert row[..n - 1][0] == row[0];
      assert row[..n - 1][1..] == row[1..][..n - 2];
      assert row[1..][n - 2] == row[n - 1];
    } else {
      assert row[..0] == [] && row[1..] == [];
    }
  }

  /** Appending one more cell to the written row appends its text. */
  lemma CellsTextSnoc(row: seq<Cell>, j: nat)
    requires j < |row|
    ensures CellsText(row[..j + 1]) == CellsText(row[..j]) + CellText(row[j])
  {
    assert row[..j + 1][..j] == row[..j];
  }
}
