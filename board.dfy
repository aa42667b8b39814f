/**
 * The 8x8 board: cells, directions, straight runs of cells, the text form of a
 * cell ("A1" .. "H8"), and the counting facts the rest of the model relies on.
 *
 * A cell keeps the game's own encoding: the column is the ordinal of the letter
 * (A = 0 .. H = 7) and the row is the printed number (1 .. 8). Both are plain
 * integers, because ship placement can compute cells that fall off the board.
 */
module Board {

  datatype Option<T> = None | Some(value: T)

  /** A cell, compared structurally. */
  datatype Position = Position(column: int, row: int)

  /** The console colours a cell or a ship can be drawn in. */
  datatype ConsoleColor =
    | Black | DarkBlue | DarkGreen | DarkCyan | DarkRed | DarkMagenta | DarkYellow | Gray
    | DarkGray | Blue | Green | Cyan | Red | Magenta | Yellow | White

  predicate InGrid(p: Position) {
    0 <= p.column < 8 && 1 <= p.row <= 8
  }

  /** No element occurs twice. */
  predicate NoDup<T(==)>(s: seq<T>) {
    forall i, j :: 0 <= i < j < |s| ==> s[i] != s[j]
  }

  // ---------------------------------------------------------------------------
  // Directions and straight runs

  datatype Direction = North | East | South | West

  /** The cell k steps away from p in direction d (North lowers the row, West the column). */
  function Shift(p: Position, d: Direction, k: int): Position {
    match d
    case North => Position(p.column, p.row - k)
    case East => Position(p.column + k, p.row)
    case South => Position(p.column, p.row + k)
    case West => Position(p.column - k, p.row)
  }

  /** The n cells start, start+1 step, .., start+(n-1) steps in direction d. */
  function Run(start: Position, d: Direction, n: nat): seq<Position> {
    seq(n, k => Shift(start, d, k))
  }

  /** A run never visits a cell twice, and it is a straight line through start. */
  lemma RunIsStraight(start: Position, d: Direction, n: nat)
    ensures NoDup(Run(start, d, n))
    ensures n > 0 ==> Run(start, d, n)[0] == start
    ensures d in {North, South} ==> forall p :: p in Run(start, d, n) ==> p.column == start.column
    ensures d in {East, West} ==> forall p :: p in Run(start, d, n) ==> p.row == start.row
  {
    var r := Run(start, d, n);
    forall i, j | 0 <= i < j < |r| ensures r[i] != r[j] {
      assert r[i] == Shift(start, d, i) && r[j] == Shift(start, d, j);
    }
  }

  // ---------------------------------------------------------------------------
  // The cells of the board, in the order the grids are filled (row by row)

  function Cell(k: nat): Position {
    Position(k % 8, k / 8 + 1)
  }

  /** The 64 board cells: row 1 from A to H, then row 2, .., row 8. */
  function AllCells(): seq<Position> {
    seq(64, k requires 0 <= k => Cell(k))
  }

  /** The cells the computer may start a ship on: rows 1 to 7 only. */
  function StartCells(): seq<Position> {
    AllCells()[..56]
  }

  lemma CellsAreDistinct(i: nat, j: nat)
    requires i != j
    ensures Cell(i) != Cell(j)
  {
    assert i == 8 * (i / 8) + i % 8 && j == 8 * (j / 8) + j % 8;
  }

  lemma CellOf(p: Position)
    requires InGrid(p)
    ensures var k := (p.row - 1) * 8 + p.column; 0 <= k < 64 && Cell(k) == p
  {
    var k := (p.row - 1) * 8 + p.column;
    assert k / 8 == p.row - 1 && k % 8 == p.column;
  }

  /** AllCells lists every board cell exactly once, and nothing else. */
  lemma {:induction false} AllCellsCoverBoard()
    ensures |AllCells()| == 64 && NoDup(AllCells())
    ensures forall p :: p in AllCells() <==> InGrid(p)
  {
    var cells := AllCells();
    forall i, j | 0 <= i < j < |cells| ensures cells[i] != cells[j] {
      CellsAreDistinct(i, j);
    }
    forall p ensures p in cells <==> InGrid(p) {
      if InGrid(p) {
        CellOf(p);
        assert cells[(p.row - 1) * 8 + p.column] == p;
      }
      if p in cells {
        var k :| 0 <= k < 64 && cells[k] == p;
        assert p == Cell(k);
      }
    }
  }

  /** StartCells lists every cell of columns A..H, rows 1..7 exactly once. */
  lemma {:induction false} StartCellsCoverRowsOneToSeven()
    ensures |StartCells()| == 56 && NoDup(StartCells())
    ensures forall p :: p in StartCells() <==> 0 <= p.column < 8 && 1 <= p.row <= 7
  {
    AllCellsCoverBoard();
    var cells := StartCells();
    forall p ensures p in cells <==> 0 <= p.column < 8 && 1 <= p.row <= 7 {
      if 0 <= p.column < 8 && 1 <= p.row <= 7 {
        CellOf(p);
        assert cells[(p.row - 1) * 8 + p.column] == p;
      }
      if p in cells {
        var k :| 0 <= k < 56 && cells[k] == p;
        assert p == Cell(k);
      }
    }
  }

  // ---------------------------------------------------------------------------
  // Counting

  function SetOf(s: seq<Position>): set<Position> {
    set p | p in s
  }

  lemma {:induction false} SetOfBound(s: seq<Position>)
    ensures |SetOf(s)| <= |s|
    ensures NoDup(s) ==> |SetOf(s)| == |s|
  {
    if s != [] {
      SetOfBound(s[1..]);
      assert SetOf(s) == {s[0]} + SetOf(s[1..]);
      if NoDup(s) {
        assert NoDup(s[1..]) by {
          forall i, j | 0 <= i < j < |s[1..]| ensures s[1..][i] != s[1..][j] {
            assert s[1..][i] == s[i + 1] && s[1..][j] == s[j + 1];
          }
        }
        assert s[0] !in SetOf(s[1..]);
      }
    }
  }

  lemma {:induction false} SubsetCount(a: set<Position>, b: set<Position>)
    requires a <= b
    ensures |a| <= |b|
  {
    if a != {} {
      var x :| x in a;
      SubsetCount(a - {x}, b - {x});
    }
  }

  /**
   * Pigeonhole: when fewer cells are taken than there are distinct candidates,
   * some candidate is free. This is why the game's rejection-sampling loops
   * can stop.
   */
  lemma FreeCellExists(candidates: seq<Position>, taken: seq<Position>)
    requires NoDup(candidates) && |taken| < |candidates|
    ensures exists c :: c in candidates && c !in taken
  {
    if forall c :: c in candidates ==> c in taken {
      SetOfBound(candidates);
      SetOfBound(taken);
      SubsetCount(SetOf(candidates), SetOf(taken));
      assert false;
    }
  }

  /** A duplicate-free list of 64 board cells holds every board cell. */
  lemma FullLogCoversBoard(log: seq<Position>)
    requires NoDup(log) && |log| == 64
    requires forall p :: p in log ==> InGrid(p)
    ensures forall p :: InGrid(p) ==> p in log
  {
    forall p | InGrid(p) ensures p in log {
      if p !in log {
        AllCellsCoverBoard();
        SetOfBound(log);
        SetOfBound(AllCells());
        assert SetOf(log) <= SetOf(AllCells()) - {p};
        SubsetCount(SetOf(log), SetOf(AllCells()) - {p});
        assert false;
      }
    }
  }

  // ---------------------------------------------------------------------------
  // Text form of a cell

  /** Upper-casing as the game uses it: only a..z change. */
  function UpperCase(c: char): char {
    if 'a' <= c <= 'z' then (c as int - 'a' as int + 'A' as int) as char else c
  }

  predicate IsColumnLetter(c: char) {
    'A' <= c <= 'H'
  }

  predicate IsRowDigit(c: char) {
    '1' <= c <= '8'
  }

  /**
   * Text to cell: exactly two characters, a column letter A..H in either case
   * and a row digit 1..8. Anything else is rejected.
   */
  function ParsePosition(input: string): (r: Option<Position>)
    ensures r.Some? <==> |input| == 2 && IsColumnLetter(UpperCase(input[0])) && IsRowDigit(input[1])
    ensures r.Some? ==> InGrid(r.value)
  {
    if |input| != 2 then None
    else
      var letter := UpperCase(input[0]);
      var digit := UpperCase(input[1]);
      if IsColumnLetter(letter) && IsRowDigit(digit) then
        Some(Position(letter as int - 'A' as int, digit as int - '0' as int))
      else
        None
  }

  /** The canonical text of a board cell, as "A1" .. "H8". */
  function PositionText(p: Position): (s: string)
    requires InGrid(p)
  {
    [('A' as int + p.column) as char, ('0' as int + p.row) as char]
  }

  /** Every board cell is parsed back from its text. */
  lemma ParseRoundTrip(p: Position)
    requires InGrid(p)
    ensures ParsePosition(PositionText(p)) == Some(p)
  {
  }

  /** A parsed text is the upper-cased text of the cell it yields. */
  lemma ParseInverse(input: string)
    requires ParsePosition(input).Some?
    ensures PositionText(ParsePosition(input).value) == [UpperCase(input[0]), input[1]]
  {
  }

  lemma ParseExamples()
    ensures ParsePosition("A1") == Some(Position(0, 1))
    ensures ParsePosition("h8") == Some(Position(7, 8))
    ensures ParsePosition("H20") == None
    ensures ParsePosition("Test123") == None
    ensures ParsePosition("I1") == None && ParsePosition("A9") == None && ParsePosition("A0") == None
  {
  }
}
