/**
 * The fleet-level rules of the console game, apart from its state: which cells
 * a fleet occupies, which ship a shot lands on, the human placement check
 * (DoesIntersect and the accept/reject step around it) and the test a computer
 * placement direction must pass.
 */
module Fleet {
  import opened Board
  import opened Ships

  function Min(a: int, b: int): int {
    if a <= b then a else b
  }

  // ---------------------------------------------------------------------------
  // Occupied cells

  /** The cells of each ship, in fleet order. */
  function Layout(fleet: seq<Ship>): seq<seq<Position>>
    reads fleet
  {
    seq(|fleet|, i requires 0 <= i < |fleet| reads fleet => fleet[i].positions)
  }

  /** All cells of all ships, ship after ship (the game's SelectMany over Positions). */
  function Flatten(cells: seq<seq<Position>>): seq<Position> {
    if cells == [] then [] else cells[0] + Flatten(cells[1..])
  }

  function AllPositions(fleet: seq<Ship>): seq<Position>
    reads fleet
  {
    Flatten(Layout(fleet))
  }

  /** Total number of cells over all ships. */
  function CellCount(cells: seq<seq<Position>>): nat {
    if cells == [] then 0 else |cells[0]| + CellCount(cells[1..])
  }

  /** A cell is occupied exactly when some ship holds it; the count is the sum of the ship lengths. */
  lemma {:induction false} FlattenSpec(cells: seq<seq<Position>>)
    ensures forall p :: p in Flatten(cells) <==> exists i :: 0 <= i < |cells| && p in cells[i]
    ensures |Flatten(cells)| == CellCount(cells)
  {
    if cells != [] {
      FlattenSpec(cells[1..]);
      forall p ensures p in Flatten(cells) <==> exists i :: 0 <= i < |cells| && p in cells[i] {
        if p in Flatten(cells[1..]) {
          var i :| 0 <= i < |cells[1..]| && p in cells[1..][i];
          assert p in cells[i + 1];
        }
        if exists i :: 0 <= i < |cells| && p in cells[i] {
          var i :| 0 <= i < |cells| && p in cells[i];
          if i > 0 {
            assert p in cells[1..][i - 1];
          }
        }
      }
    }
  }

  /** No ship repeats a cell and no two ships share one. */
  predicate NoOverlap(cells: seq<seq<Position>>) {
    && (forall i :: 0 <= i < |cells| ==> NoDup(cells[i]))
    && (forall i, j, p :: 0 <= i < |cells| && 0 <= j < |cells| && i != j && p in cells[i] ==> p !in cells[j])
  }

  lemma NoDupAppend(a: seq<Position>, b: seq<Position>)
    requires NoDup(a) && NoDup(b)
    requires forall p :: p in a ==> p !in b
    ensures NoDup(a + b)
  {
    var s := a + b;
    forall i, j | 0 <= i < j < |s| ensures s[i] != s[j] {
      if j < |a| {
        assert s[i] == a[i] && s[j] == a[j];
      } else if i < |a| {
        assert s[i] == a[i] && s[j] == b[j - |a|] && a[i] in a;
      } else {
        assert s[i] == b[i - |a|] && s[j] == b[j - |a|];
      }
    }
  }

  /**
   * Without overlap the occupied cells are all distinct, so the number of
   * distinct occupied cells is the total number of ship cells.
   */
  lemma {:induction false} NoOverlapCount(cells: seq<seq<Position>>)
    requires NoOverlap(cells)
    ensures NoDup(Flatten(cells))
    ensures |SetOf(Flatten(cells))| == CellCount(cells)
  {
    if cells != [] {
      var rest := cells[1..];
      assert NoOverlap(rest) by {
        forall i, j, p | 0 <= i < |rest| && 0 <= j < |rest| && i != j && p in rest[i] ensures p !in rest[j] {
          assert rest[i] == cells[i + 1] && rest[j] == cells[j + 1];
        }
        forall i | 0 <= i < |rest| ensures NoDup(rest[i]) {
          assert rest[i] == cells[i + 1];
        }
      }
      NoOverlapCount(rest);
      FlattenSpec(rest);
      forall p | p in cells[0] ensures p !in Flatten(rest) {
      }
      NoDupAppend(cells[0], Flatten(rest));
    }
    FlattenSpec(cells);
    SetOfBound(Flatten(cells));
  }

  /** Appending fresh distinct cells to one ship keeps the fleet free of overlap. */
  lemma AppendKeepsNoOverlap(cells: seq<seq<Position>>, i: int, run: seq<Position>)
    requires NoOverlap(cells) && 0 <= i < |cells|
    requires NoDup(run) && forall p :: p in run ==> p !in Flatten(cells)
    ensures NoOverlap(cells[i := cells[i] + run])
  {
    FlattenSpec(cells);
    forall p | p in cells[i] ensures p !in run {
    }
    NoDupAppend(cells[i], run);
  }

  // ---------------------------------------------------------------------------
  // GetShip

  /**
   * The first ship, in fleet order, holding the shot cell, or None when no ship
   * holds it.
   */
  function FindShip(ships: seq<Ship>, shot: Position): (r: Option<Ship>)
    reads ships
    ensures r.None? <==> forall i :: 0 <= i < |ships| ==> shot !in ships[i].positions
    ensures r.Some? ==> exists i :: 0 <= i < |ships| && ships[i] == r.value && shot in ships[i].positions &&
                                    forall j :: 0 <= j < i ==> shot !in ships[j].positions
    decreases |ships|
  {
    if ships == [] then None
    else if shot in ships[0].positions then Some(ships[0])
    else FindShip(ships[1..], shot)
  }

  datatype Result<T> = Ok(value: T) | ArgumentNullException(paramName: string)

  /** FindShip with the game's null-argument checks (None stands for a null reference). */
  function GetShip(ships: Option<seq<Ship>>, shot: Option<Position>): (r: Result<Option<Ship>>)
    reads if ships.Some? then ships.value else []
    ensures ships.None? ==> r == ArgumentNullException("ships")
    ensures ships.Some? && shot.None? ==> r == ArgumentNullException("shot")
    ensures ships.Some? && shot.Some? ==> r.Ok?
    ensures ships.Some? && shot.Some? ==>
      (r.value.None? <==> forall i :: 0 <= i < |ships.value| ==> shot.value !in ships.value[i].positions)
    ensures ships.Some? && shot.Some? && r.value.Some? ==>
      exists i :: 0 <= i < |ships.value| && ships.value[i] == r.value.value && shot.value in ships.value[i].positions &&
                  forall j :: 0 <= j < i ==> shot.value !in ships.value[j].positions
  {
    if ships.None? then ArgumentNullException("ships")
    else if shot.None? then ArgumentNullException("shot")
    else Ok(FindShip(ships.value, shot.value))
  }

  // ---------------------------------------------------------------------------
  // Human placement

  /** The endpoint with the smaller column and row (the two share a row or a column). */
  function LowerEnd(start: Position, end: Position): Position {
    Position(Min(start.column, end.column), Min(start.row, end.row))
  }

  /**
   * The cells DoesIntersect compares with the fleet: on a shared row, the size-1
   * cells right of the left endpoint; on a shared column, the size-1 cells below
   * the upper endpoint.
   */
  function Proposed(start: Position, end: Position, size: nat): seq<Position> {
    var n: nat := if size >= 1 then size - 1 else 0;
    (if start.row == end.row then seq(n, k => Shift(LowerEnd(start, end), East, k + 1)) else [])
    + (if start.column == end.column then seq(n, k => Shift(LowerEnd(start, end), South, k + 1)) else [])
  }

  /**
   * The game's overlap test for a proposed human placement, with the fleet's
   * occupied cells given. True means "reject".
   */
  function DoesIntersect(occupied: seq<Position>, start: Position, end: Position, size: nat): (r: bool)
    ensures start.row == end.row && Abs(start.column - end.column) != size ==> r
    ensures start.column == end.column && Abs(start.row - end.row) == size ==> r
    ensures start.row != end.row && start.column != end.column ==> !r
    ensures start.row == end.row && start.column != end.column && Abs(start.column - end.column) == size ==>
      (r <==> exists k :: 1 <= k < size && Shift(LowerEnd(start, end), East, k) in occupied)
    ensures start.column == end.column && start.row != end.row && Abs(start.row - end.row) != size ==>
      (r <==> exists k :: 1 <= k < size && Shift(LowerEnd(start, end), South, k) in occupied)
  {
    if start.row == end.row && Abs(start.column - end.column) != size then true
    else if start.column == end.column && Abs(start.row - end.row) == size then true
    else
      var proposed := Proposed(start, end, size);
      assert start.row == end.row && start.column != end.column ==>
        forall k :: 1 <= k < size ==> Shift(LowerEnd(start, end), East, k) == proposed[k - 1];
      assert start.column == end.column && start.row != end.row ==>
        forall k :: 1 <= k < size ==> Shift(LowerEnd(start, end), South, k) == proposed[k - 1];
      exists p :: p in proposed && p in occupied
  }

  /**
   * One pass of the human placement loop body: reject when DoesIntersect says so;
   * otherwise add the start, then the end, and clear the cells if the end is
   * refused. Gives (accepted, the ship's cells afterwards).
   */
  function HumanPlacement(occupied: seq<Position>, positions: seq<Position>, start: Position, end: Position, size: nat)
    : (bool, seq<Position>)
  {
    if DoesIntersect(occupied, start, end, size) then (false, positions)
    else
      var afterStart := match AddedPositions(positions, size, start)
        case Some(ps) => ps
        case None => positions;
      match AddedPositions(afterStart, size, end)
      case Some(ps) => (true, ps)
      case None => (false, [])
  }

  /**
   * For a ship without cells: a placement is accepted exactly when start and end
   * share a column, lie size-1 rows apart (size at least 2), and no fleet cell is
   * among the size-1 cells below the upper endpoint. An accepted ship runs
   * downward from the start; a rejected one is left without cells.
   */
  lemma HumanPlacementOutcome(occupied: seq<Position>, start: Position, end: Position, size: nat)
    ensures var (accepted, ps) := HumanPlacement(occupied, [], start, end, size);
      && (accepted <==>
            && size >= 2
            && start.column == end.column
            && Abs(start.row - end.row) == size - 1
            && forall k :: 1 <= k < size ==> Shift(LowerEnd(start, end), South, k) !in occupied)
      && (accepted ==> ps == Run(start, South, size))
      && (!accepted ==> ps == [])
  {
    SecondEndSpec(start, end, size);
    AddedPositionsSpec([], size, start);
    if start.row == end.row {
      assert !HumanPlacement(occupied, [], start, end, size).0;
    } else if start.column == end.column {
      if DoesIntersect(occupied, start, end, size) {
        assert !HumanPlacement(occupied, [], start, end, size).0;
      }
    }
  }

  /** A horizontal human placement is never accepted: the two checks demand distances size and size-1. */
  lemma HorizontalPlacementRejected(occupied: seq<Position>, start: Position, end: Position, size: nat)
    requires start.row == end.row
    ensures !HumanPlacement(occupied, [], start, end, size).0
  {
    HumanPlacementOutcome(occupied, start, end, size);
  }

  /**
   * An accepted placement whose start is the upper endpoint, on a free start cell,
   * lands on free cells only.
   */
  lemma DownwardPlacementAvoidsFleet(occupied: seq<Position>, start: Position, end: Position, size: nat)
    requires HumanPlacement(occupied, [], start, end, size).0
    requires start.row < end.row && start !in occupied
    ensures forall p :: p in HumanPlacement(occupied, [], start, end, size).1 ==> p !in occupied
  {
    HumanPlacementOutcome(occupied, start, end, size);
    var run := Run(start, South, size);
    forall p | p in run ensures p !in occupied {
      var k :| 0 <= k < size && run[k] == p;
      if k > 0 {
        assert p == Shift(LowerEnd(start, end), South, k);
      }
    }
  }

  /**
   * Entered from the lower endpoint the run is not the checked one: with A5
   * taken, start A3 and end A1 for a ship of three are accepted as A3, A4, A5.
   */
  lemma UpwardPlacementOverlaps()
    ensures var occupied := [Position(0, 5)];
      var (accepted, ps) := HumanPlacement(occupied, [], Position(0, 3), Position(0, 1), 3);
      accepted && ps == [Position(0, 3), Position(0, 4), Position(0, 5)] && Position(0, 5) in occupied
  {
    var occupied := [Position(0, 5)];
    HumanPlacementOutcome(occupied, Position(0, 3), Position(0, 1), 3);
    var run := Run(Position(0, 3), South, 3);
    assert run[1] == Position(0, 4) && run[2] == Position(0, 5);
    assert run == [Position(0, 3), Position(0, 4), Position(0, 5)];
  }

  /**
   * Entered from the lower endpoint at the bottom of the board, the run leaves
   * it: start A8 and end A6 for a ship of three are accepted as A8, A9, A10.
   */
  lemma UpwardPlacementLeavesBoard()
    ensures var (accepted, ps) := HumanPlacement([], [], Position(0, 8), Position(0, 6), 3);
      accepted && ps == [Position(0, 8), Position(0, 9), Position(0, 10)] && !InGrid(ps[1]) && !InGrid(ps[2])
  {
    HumanPlacementOutcome([], Position(0, 8), Position(0, 6), 3);
    var run := Run(Position(0, 8), South, 3);
    assert run[1] == Position(0, 9) && run[2] == Position(0, 10);
    assert run == [Position(0, 8), Position(0, 9), Position(0, 10)];
  }

  // ---------------------------------------------------------------------------
  // Computer placement

  /** The bound check made before walking a direction: only the far end of the run is tested. */
  predicate FarEndOnBoard(start: Position, d: Direction, size: nat) {
    match d
    case North => start.row - (size - 1) >= 1
    case East => start.column + (size - 1) <= 7
    case South => start.row + (size - 1) <= 8
    case West => start.column - (size - 1) >= 0
  }

  /** A direction is usable: far end on the board, start free, and every cell of the run free. */
  predicate Fits(occupied: seq<Position>, start: Position, d: Direction, size: nat) {
    && FarEndOnBoard(start, d, size)
    && start !in occupied
    && forall k :: 0 <= k < size ==> Shift(start, d, k) !in occupied
  }

  /**
   * From a start cell on the board, a usable direction gives a run of distinct
   * board cells, none of them occupied.
   */
  lemma FitsOnBoard(occupied: seq<Position>, start: Position, d: Direction, size: nat)
    requires Fits(occupied, start, d, size) && InGrid(start)
    ensures NoDup(Run(start, d, size))
    ensures forall p :: p in Run(start, d, size) ==> InGrid(p) && p !in occupied
  {
    RunIsStraight(start, d, size);
    var run := Run(start, d, size);
    forall p | p in run ensures InGrid(p) && p !in occupied {
      var k :| 0 <= k < size && run[k] == p;
      assert p == Shift(start, d, k);
    }
  }
}
