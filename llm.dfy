/**
 * `textGrid` of src/llm.ts: the grid drawn as a text table, which the language-model
 * player puts into its prompt. Line r of the table shows the tiles whose y coordinate
 * is r, left to right by x; an empty cell shows as blanks.
 */
module Llm {
  import opened Tiles
  import opened Rules
  import opened Grids

  // ---------------------------------------------------------------------------
  // The string operations textGrid uses

  /** `s.repeat(k)`. */
  function Repeat(s: string, k: nat): (r: string)
    ensures |r| == k * |s|
  {
    if k == 0 then "" else Repeat(s, k - 1) + s
  }

  /** `s.padStart(width)`: s with blanks in front, up to `width` characters. */
  function PadStart(s: string, width: nat): string
  {
    if |s| < width then Repeat(" ", width - |s|) + s else s
  }

  /** `padStart` makes s `width` long, or leaves it as it is, and s ends the result after blanks. */
  lemma PadStartSpec(s: string, width: nat)
    ensures var r := PadStart(s, width);
      |r| == (if |s| < width then width else |s|) &&
      r[|r| - |s|..] == s &&
      forall i :: 0 <= i < |r| - |s| ==> r[i] == ' '
  {
    if |s| < width {
      RepeatBlanks(width - |s|);
    }
  }

  /** `" ".repeat(k)` is all blanks. */
  lemma {:induction false} RepeatBlanks(k: nat)
    ensures forall i :: 0 <= i < k ==> Repeat(" ", k)[i] == ' '
  {
    if k > 0 {
      RepeatBlanks(k - 1);
    }
  }

  /** `parts.join(sep)`. */
  function Join(parts: seq<string>, sep: string): string
  {
    if |parts| == 0 then ""
    else if |parts| == 1 then parts[0]
    else Join(parts[..|parts| - 1], sep) + sep + parts[|parts| - 1]
  }

  /** The character of one decimal digit. */
  function DigitChar(d: nat): (c: char)
    requires d < 10
    ensures '0' <= c <= '9'
  {
    ('0' as int + d) as char
  }

  /** The decimal digits of v, most significant first, with no leading zero. */
  function Digits(v: nat): (s: string)
    ensures |s| >= 1
    ensures forall i :: 0 <= i < |s| ==> '0' <= s[i] <= '9'
    ensures |s| > 1 ==> s[0] != '0'
  {
    if v < 10 then [DigitChar(v)] else Digits(v / 10) + [DigitChar(v % 10)]
  }

  /** `v.toString()` for an integer. */
  function DecimalString(v: int): (s: string)
    ensures |s| >= 1
  {
    if v < 0 then "-" + Digits(-v) else Digits(v)
  }

  // ---------------------------------------------------------------------------
  // Reading numbers back

  predicate IsDigits(s: string) {
    forall i :: 0 <= i < |s| ==> '0' <= s[i] <= '9'
  }

  /** The number a string of decimal digits denotes. */
  function ParseDigits(s: string): (v: nat)
    requires IsDigits(s)
  {
    if s == [] then 0 else 10 * ParseDigits(s[..|s| - 1]) + (s[|s| - 1] as int - '0' as int)
  }

  /** The integer a `toString` result denotes. */
  function ParseDecimal(s: string): int
  {
    if |s| > 0 && s[0] == '-' && IsDigits(s[1..]) then 0 - ParseDigits(s[1..])
    else if IsDigits(s) then ParseDigits(s)
    else 0
  }

  /** Reading the digits of v gives v back. */
  lemma {:induction false} DigitsRoundTrip(v: nat)
    ensures ParseDigits(Digits(v)) == v
  {
    if v >= 10 {
      DigitsRoundTrip(v / 10);
      var s := Digits(v);
      assert s[..|s| - 1] == Digits(v / 10);
    }
  }

  /** Reading `v.toString()` gives v back, for every integer v. */
  lemma DecimalRoundTrip(v: int)
    ensures ParseDecimal(DecimalString(v)) == v
  {
    var s := DecimalString(v);
    if v < 0 {
      var d := Digits(-v);
      DigitsRoundTrip(-v);
      assert s == "-" + d && s[1..] == d && IsDigits(d);
    } else {
      var d := Digits(v);
      DigitsRoundTrip(v);
      assert s == d && s[0] != '-' && IsDigits(d);
    }
  }

  /** A number below 10^k has at most k digits. */
  lemma {:induction false} DigitsWidth(v: nat, k: nat, bound: nat)
    requires k >= 1 && bound == Power10(k) && v < bound
    ensures |Digits(v)| <= k
    decreases k
  {
    if v >= 10 {
      DigitsWidth(v / 10, k - 1, Power10(k - 1));
    }
  }

  function Power10(k: nat): nat {
    if k == 0 then 1 else 10 * Power10(k - 1)
  }

  // ---------------------------------------------------------------------------
  // The table

  /** The width each cell's text is padded to. */
  const CellWidth := 6

  /** What a cell shows: the tile's value, or nothing. */
  function Label(c: Cell): string {
    match c
    case Empty => ""
    case Occupied(value, _) => DecimalString(value)
  }

  /** The text of column c on line r: the cell at (c, r), right-aligned. */
  function CellText(b: Board, n: nat, r: nat, c: nat): string
    requires IsBoard(b, n) && r < n && c < n
  {
    PadStart(Label(At(b, n, Position(c, r))), CellWidth)
  }

  /** The cell texts of line r, left to right. */
  function LineCells(b: Board, n: nat, r: nat): (cs: seq<string>)
    requires IsBoard(b, n) && r < n
    ensures |cs| == n && forall c :: 0 <= c < n ==> cs[c] == CellText(b, n, r, c)
  {
    seq(n, c requires 0 <= c < n => CellText(b, n, r, c))
  }

  /** A line of the table made of the given cell texts. */
  function RowOf(cells: seq<string>): string {
    Repeat(" ", 4) + "|" + Join(cells, " |") + "  |"
  }

  /** The whole table: the lines with the separator above, between and below them. */
  function TableOf(rows: seq<string>, sep: string): string {
    "\n" + sep + "\n" + Join(rows, "\n" + sep + "\n") + "\n" + sep
  }

  /** Line r of the table. */
  function RowText(b: Board, n: nat, r: nat): string
    requires IsBoard(b, n) && r < n
  {
    RowOf(LineCells(b, n, r))
  }

  /** The lines of the table, top to bottom. */
  function RowTexts(b: Board, n: nat): (rows: seq<string>)
    requires IsBoard(b, n)
    ensures |rows| == n && forall r :: 0 <= r < n ==> rows[r] == RowText(b, n, r)
  {
    seq(n, r requires 0 <= r < n => RowText(b, n, r))
  }

  /** The rule drawn above, between and below the lines. */
  function Separator(n: nat): string {
    Repeat(" ", 4) + "+" + Repeat("--------", n) + "+"
  }

  /** What `textGrid` returns for the board b of size n. */
  function Render(b: Board, n: nat): string
    requires IsBoard(b, n)
  {
    TableOf(RowTexts(b, n), Separator(n))
  }

  /**
   * `textGrid(grid)`: the outer loop builds line x of the table from the cells
   * `cells[y][x]`, then the lines are joined with the separator between and around
   * them.
   */
  method TextGrid(grid: Grid) returns (text: string)
    requires grid.Mirrors()
    ensures text == Render(grid.board, grid.size)
  {
    var rows: seq<string> := [];
    for x := 0 to grid.size
      invariant |rows| == x && forall r :: 0 <= r < x ==> rows[r] == RowText(grid.board, grid.size, r)
    {
      var line := LineText(grid, x);
      rows := rows + [line];
    }
    var rowSeparator := Repeat(" ", 4) + "+" + Repeat("--------", grid.size) + "+";
    assert rows == RowTexts(grid.board, grid.size);
    text := TableOf(rows, rowSeparator);
  }

  /**
   * The inner loop of `textGrid`: the padded texts of `cells[y][x]` for every y. The
   * source appends an empty string to every cell text on either branch of a
   * conditional; that changes nothing.
   */
  method LineText(grid: Grid, x: nat) returns (line: string)
    requires grid.Mirrors() && x < grid.size
    ensures line == RowText(grid.board, grid.size, x)
  {
    var row: seq<string> := [];
    for y := 0 to grid.size
      invariant |row| == y && forall c :: 0 <= c < y ==> row[c] == CellText(grid.board, grid.size, x, c)
    {
      var tile := grid.cells[y][x];
      grid.ViewAt(Position(y, x));
      var value := if tile != null then DecimalString(tile.value) else "";
      row := row + [PadStart(value, 6)];
    }
    assert row == LineCells(grid.board, grid.size, x);
    line := RowOf(row);
  }

  // ---------------------------------------------------------------------------
  // What the table shows

  /** Every value on the board takes at most `CellWidth` characters to write. */
  ghost predicate LabelsFit(b: Board, n: nat)
    requires IsBoard(b, n)
  {
    forall p {:trigger At(b, n, p)} :: InBounds(n, p) ==> |Label(At(b, n, p))| <= CellWidth
  }

  /**
   * Tiles below 1000000 fit. On the 4 × 4 board of the game every value does, since
   * the largest tile there is 2^17 = 131072; on a board of 5 × 5 or more a tile can
   * reach 2^20 and overflow its column.
   */
  lemma SmallValuesFit(b: Board, n: nat)
    requires IsBoard(b, n)
    requires forall p {:trigger At(b, n, p)} :: InBounds(n, p) && At(b, n, p).Occupied? ==>
      0 <= At(b, n, p).value < 1000000
    ensures LabelsFit(b, n)
  {
    forall p | InBounds(n, p) && At(b, n, p).Occupied?
      ensures |Label(At(b, n, p))| <= CellWidth
    {
      assert Power10(6) == 1000000;
      DigitsWidth(At(b, n, p).value, 6, 1000000);
    }
  }

  /**
   * Joining texts of width 6 with " |" puts text c at offset 8c; the whole is
   * 8k - 2 characters long.
   */
  lemma {:induction false} JoinCells(parts: seq<string>)
    requires |parts| >= 1 && forall c :: 0 <= c < |parts| ==> |parts[c]| == CellWidth
    ensures |Join(parts, " |")| == 8 * |parts| - 2
    ensures forall c :: 0 <= c < |parts| ==> Join(parts, " |")[8 * c .. 8 * c + CellWidth] == parts[c]
    decreases |parts|
  {
    if |parts| > 1 {
      var init := parts[..|parts| - 1];
      JoinCells(init);
      var j := Join(parts, " |");
      assert j == Join(init, " |") + " |" + parts[|parts| - 1];
      forall c | 0 <= c < |parts|
        ensures j[8 * c .. 8 * c + CellWidth] == parts[c]
      {
        if c < |parts| - 1 {
          assert j[8 * c .. 8 * c + CellWidth] == Join(init, " |")[8 * c .. 8 * c + CellWidth];
        }
      }
    }
  }

  /** A line built from k texts of width 6 is 8k + 6 wide, with text c at offset 5 + 8c. */
  lemma RowOfLayout(cells: seq<string>)
    requires |cells| >= 1 && forall c :: 0 <= c < |cells| ==> |cells[c]| == CellWidth
    ensures |RowOf(cells)| == 8 * |cells| + 6
    ensures forall c :: 0 <= c < |cells| ==> RowOf(cells)[5 + 8 * c .. 11 + 8 * c] == cells[c]
  {
    JoinCells(cells);
    var j := Join(cells, " |");
    var row := RowOf(cells);
    assert Repeat(" ", 4) == "    ";
    assert row == "    |" + j + "  |";
    forall c | 0 <= c < |cells|
      ensures row[5 + 8 * c .. 11 + 8 * c] == cells[c]
    {
      assert row[5 + 8 * c .. 11 + 8 * c] == j[8 * c .. 8 * c + CellWidth];
    }
  }

  /**
   * The table lines up: when every value fits its column, each line of cells is as
   * wide as the separator, and column c of line r holds the text of cell (c, r).
   */
  lemma RowLayout(b: Board, n: nat, r: nat)
    requires IsBoard(b, n) && r < n && LabelsFit(b, n)
    ensures |RowText(b, n, r)| == |Separator(n)| == 8 * n + 6
    ensures forall c :: 0 <= c < n ==> RowText(b, n, r)[5 + 8 * c .. 11 + 8 * c] == CellText(b, n, r, c)
  {
    var cs := LineCells(b, n, r);
    forall c | 0 <= c < n
      ensures |cs[c]| == CellWidth
    {
      PadStartSpec(Label(At(b, n, Position(c, r))), CellWidth);
    }
    RowOfLayout(cs);
  }

  /**
   * Reading the table back: the text of column c on line r, with its blanks dropped,
   * is empty exactly for an empty cell and otherwise denotes the tile's value.
   */
  lemma ReadCell(b: Board, n: nat, r: nat, c: nat)
    requires IsBoard(b, n) && r < n && c < n && LabelsFit(b, n)
    ensures var t := CellText(b, n, r, c);
      var shown := t[|t| - |Label(At(b, n, Position(c, r)))|..];
      |t| == CellWidth &&
      (forall i :: 0 <= i < |t| - |shown| ==> t[i] == ' ') &&
      (shown == "" <==> At(b, n, Position(c, r)) == Empty) &&
      (At(b, n, Position(c, r)).Occupied? ==> ParseDecimal(shown) == At(b, n, Position(c, r)).value)
  {
    var cell := At(b, n, Position(c, r));
    PadStartSpec(Label(cell), CellWidth);
    if cell.Occupied? {
      DecimalRoundTrip(cell.value);
    }
  }

  /**
   * The whole text: an empty line, then the separator, then each line of cells
   * followed by the separator, one per text line.
   */
  lemma RenderLines(b: Board, n: nat)
    requires IsBoard(b, n) && n >= 1
    ensures Render(b, n) == Join(["", Separator(n)] + Interleave(RowTexts(b, n), Separator(n)), "\n")
  {
    JoinRows(RowTexts(b, n), Separator(n));
  }

  /** rows[0], sep, rows[1], sep, ... */
  function Interleave(rows: seq<string>, sep: string): (ls: seq<string>)
    ensures |ls| == 2 * |rows|
    ensures forall i :: 0 <= i < |rows| ==> ls[2 * i] == rows[i] && ls[2 * i + 1] == sep
  {
    if rows == [] then [] else Interleave(rows[..|rows| - 1], sep) + [rows[|rows| - 1], sep]
  }

  /** Joining one more part adds the separator and the part. */
  lemma JoinSnoc(parts: seq<string>, x: string, sep: string)
    requires |parts| >= 1
    ensures Join(parts + [x], sep) == Join(parts, sep) + sep + x
  {
    assert (parts + [x])[..|parts|] == parts;
  }

  /** One more line adds itself and the separator at the end of the table. */
  lemma TableSnoc(rows: seq<string>, last: string, sep: string)
    requires |rows| >= 1
    ensures TableOf(rows + [last], sep) == TableOf(rows, sep) + "\n" + last + "\n" + sep
  {
    JoinSnoc(rows, last, "\n" + sep + "\n");
  }

  /** Joining rows with "\n" + sep + "\n" is joining the interleaved lines with "\n". */
  lemma {:induction false} JoinRows(rows: seq<string>, sep: string)
    requires |rows| >= 1
    ensures TableOf(rows, sep) == Join(["", sep] + Interleave(rows, sep), "\n")
    decreases |rows|
  {
    var last := rows[|rows| - 1];
    if |rows| == 1 {
      assert ["", sep] + Interleave(rows, sep) == ["", sep] + [last] + [sep];
      assert Join(["", sep], "\n") == "\n" + sep;
      JoinSnoc(["", sep], last, "\n");
      JoinSnoc(["", sep] + [last], sep, "\n");
    } else {
      var init := rows[..|rows| - 1];
      JoinRows(init, sep);
      assert rows == init + [last];
      TableSnoc(init, last, sep);
      var lsInit := ["", sep] + Interleave(init, sep);
      assert ["", sep] + Interleave(rows, sep) == lsInit + [last] + [sep];
      JoinSnoc(lsInit, last, "\n");
      JoinSnoc(lsInit + [last], sep, "\n");
    }
  }
}
