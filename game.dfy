/**
 * The game state of the console program: both fleets, the enemy placement
 * counter, both guess logs and both display grids, with the operations that
 * change them. Randomness is nondeterministic choice: a loop that draws until
 * it finds an acceptable value is modelled by choosing any acceptable value.
 */
module Battle {
  import opened Board
  import opened Ships
  import opened Grid
  import opened Fleet

  /** One entry of the ship roster the game starts from. */
  datatype ShipKind = ShipKind(name: string, size: nat, color: ConsoleColor)

  /** A guess log: board cells only, none guessed twice. */
  predicate GuessLog(log: seq<Position>) {
    NoDup(log) && forall p :: p in log ==> InGrid(p)
  }

  /** Cells are a straight run of their own length from some start cell. */
  ghost predicate IsRun(cells: seq<Position>) {
    exists start, d :: cells == Run(start, d, |cells|)
  }

  /** Cells are a straight run of their own length from `start`. */
  ghost predicate RunFrom(cells: seq<Position>, start: Position) {
    exists d :: cells == Run(start, d, |cells|)
  }

  /**
   * Committing a run of distinct cells, none of them occupied, to one ship keeps
   * the fleet free of overlap; the occupied cells are then the old ones plus the run.
   */
  lemma CommitKeepsPlacement(before: seq<seq<Position>>, after: seq<seq<Position>>, i: int, run: seq<Position>)
    requires NoOverlap(before) && 0 <= i < |before| && after == before[i := before[i] + run]
    requires NoDup(run) && forall p :: p in run ==> p !in Flatten(before)
    ensures NoOverlap(after)
    ensures forall p :: p in Flatten(after) <==> p in Flatten(before) || p in run
  {
    AppendKeepsNoOverlap(before, i, run);
    FlattenSpec(before);
    FlattenSpec(after);
    forall p ensures p in Flatten(after) <==> p in Flatten(before) || p in run {
      if p in Flatten(after) {
        var j :| 0 <= j < |after| && p in after[j];
        if j != i {
          assert p in before[j];
        }
      }
      if p in Flatten(before) {
        var j :| 0 <= j < |before| && p in before[j];
        assert p in after[j];
      }
      if p in run {
        assert p in after[i];
      }
    }
  }

  /** Placed cells of a ship of `size`: exactly `size` cells, in a straight run, all on the board. */
  ghost predicate PlacedCells(cells: seq<Position>, size: nat) {
    && |cells| == size
    && IsRun(cells)
    && forall p :: p in cells ==> InGrid(p)
  }

  ghost predicate ShipPlaced(ship: Ship)
    reads ship
  {
    PlacedCells(ship.positions, ship.size)
  }

  /** The ship sizes of a fleet, in fleet order. */
  function Sizes(fleet: seq<Ship>): seq<nat>
    reads fleet
  {
    seq(|fleet|, i requires 0 <= i < |fleet| reads fleet => fleet[i].size)
  }

  /** What placement never changes about a ship: its name, size, colour and hits. */
  function Kinds(fleet: seq<Ship>): seq<(string, nat, ConsoleColor, seq<Position>)>
    reads fleet
  {
    seq(|fleet|, i requires 0 <= i < |fleet| reads fleet => (fleet[i].name, fleet[i].size, fleet[i].color, fleet[i].hits))
  }

  /**
   * A fleet, given by its ships' cells and sizes, while ships are placed in
   * order: the first n are placed, the rest hold no cells, no cell is shared and
   * every occupied cell is on the board.
   */
  ghost predicate FleetPlacedUpTo(cells: seq<seq<Position>>, sizes: seq<nat>, n: int) {
    && |cells| == |sizes|
    && 0 <= n <= |cells|
    && (forall k :: 0 <= k < n ==> PlacedCells(cells[k], sizes[k]))
    && (forall k :: n <= k < |cells| ==> cells[k] == [])
    && NoOverlap(cells)
    && (forall p :: p in Flatten(cells) ==> InGrid(p))
  }

  /**
   * The start cells drawn so far, each with the index of the ship it was drawn
   * for: every start lies in columns A..H and rows 1..7, was drawn for one of the
   * first n ships, and is none of the cells of the ships before that one. Those
   * ships keep their cells and the later ones are still empty while a ship is
   * being placed, so these are exactly the cells occupied when the start was drawn.
   */
  ghost predicate DrawsFree(starts: seq<Position>, shipOf: seq<int>, cells: seq<seq<Position>>, n: int) {
    && 0 <= n <= |cells|
    && |shipOf| == |starts|
    && forall k :: 0 <= k < |starts| ==>
      && 0 <= starts[k].column < 8 && 1 <= starts[k].row <= 7
      && 0 <= shipOf[k] <= n
      && starts[k] !in Flatten(cells[..shipOf[k]])
  }

  /** The cells run from one of the start cells drawn for ship j. */
  ghost predicate DrawnStart(cells: seq<Position>, j: int, starts: seq<Position>, shipOf: seq<int>) {
    exists k :: 0 <= k < |starts| && k < |shipOf| && shipOf[k] == j && RunFrom(cells, starts[k])
  }

  /** A start drawn for ship 1 on the cell of ship 0 is not a free draw. */
  lemma OccupiedDrawRejected()
    ensures !DrawsFree([Position(0, 1)], [1], [[Position(0, 1)], []], 1)
  {
    var cells := [[Position(0, 1)], []];
    assert cells[..1] == [[Position(0, 1)]];
    FlattenSpec(cells[..1]);
    assert Position(0, 1) in cells[..1][0];
  }

  /** Each of the first n ships runs from a start cell drawn for it. */
  ghost predicate StartsCover(cells: seq<seq<Position>>, n: int, starts: seq<Position>, shipOf: seq<int>) {
    0 <= n <= |cells| && forall j :: 0 <= j < n ==> DrawnStart(cells[j], j, starts, shipOf)
  }

  /** While the first n ships keep their cells, the record of the draws stays true as more ships are placed. */
  lemma DrawsGrow(starts: seq<Position>, shipOf: seq<int>, before: seq<seq<Position>>, after: seq<seq<Position>>,
                  n: int, m: int)
    requires DrawsFree(starts, shipOf, before, n)
    requires n <= m <= |after| && after[..n] == before[..n]
    ensures DrawsFree(starts, shipOf, after, m)
  {
    forall k | 0 <= k < |starts| ensures starts[k] !in Flatten(after[..shipOf[k]]) {
      var j := shipOf[k];
      assert after[..j] == after[..n][..j] == before[..n][..j] == before[..j];
    }
  }

  /** A new draw for ship n, of a cell no earlier ship holds, extends the record. */
  lemma DrawsStep(starts: seq<Position>, shipOf: seq<int>, cells: seq<seq<Position>>, n: int, start: Position)
    requires DrawsFree(starts, shipOf, cells, n)
    requires 0 <= start.column < 8 && 1 <= start.row <= 7 && start !in Flatten(cells[..n])
    ensures DrawsFree(starts + [start], shipOf + [n], cells, n)
  {
    var s, o := starts + [start], shipOf + [n];
    forall k | 0 <= k < |s| ensures 0 <= s[k].column < 8 && 1 <= s[k].row <= 7 && 0 <= o[k] <= n &&
                                    s[k] !in Flatten(cells[..o[k]]) {
      if k < |starts| {
        assert s[k] == starts[k] && o[k] == shipOf[k];
      }
    }
  }

  /** Two records of draws against the same fleet combine. */
  lemma DrawsAppend(s1: seq<Position>, o1: seq<int>, s2: seq<Position>, o2: seq<int>,
                    cells: seq<seq<Position>>, n: int)
    requires DrawsFree(s1, o1, cells, n) && DrawsFree(s2, o2, cells, n)
    ensures DrawsFree(s1 + s2, o1 + o2, cells, n)
  {
    var s, o := s1 + s2, o1 + o2;
    forall k | 0 <= k < |s| ensures 0 <= s[k].column < 8 && 1 <= s[k].row <= 7 && 0 <= o[k] <= n &&
                                    s[k] !in Flatten(cells[..o[k]]) {
      if k < |s1| {
        assert s[k] == s1[k] && o[k] == o1[k];
      } else {
        assert s[k] == s2[k - |s1|] && o[k] == o2[k - |s1|];
      }
    }
  }

  /** Earlier ships keep their cells, and a newly placed ship n runs from a start drawn for it. */
  lemma StartsStep(before: seq<seq<Position>>, after: seq<seq<Position>>, n: int, starts: seq<Position>,
                   shipOf: seq<int>, drawn: seq<Position>, drawnFor: seq<int>, placed: bool)
    requires StartsCover(before, n, starts, shipOf) && n < |before| == |after| && |shipOf| == |starts|
    requires after[..n] == before[..n]
    requires placed ==> DrawnStart(after[n], n, drawn, drawnFor)
    ensures StartsCover(after, if placed then n + 1 else n, starts + drawn, shipOf + drawnFor)
  {
    var m := if placed then n + 1 else n;
    var s, o := starts + drawn, shipOf + drawnFor;
    forall j | 0 <= j < m ensures DrawnStart(after[j], j, s, o) {
      if j < n {
        assert after[j] == after[..n][j] == before[..n][j] == before[j];
        var k :| 0 <= k < |starts| && k < |shipOf| && shipOf[k] == j && RunFrom(before[j], starts[k]);
        assert s[k] == starts[k] && o[k] == shipOf[k];
      } else {
        assert j == n && placed;
        var k :| 0 <= k < |drawn| && k < |drawnFor| && drawnFor[k] == n && RunFrom(after[n], drawn[k]);
        assert s[|starts| + k] == drawn[k] && o[|starts| + k] == drawnFor[k];
      }
    }
    assert StartsCover(after, m, s, o);
  }

  /** With only the first n ships placed, the occupied cells are those of the first n ships. */
  lemma PlacedPrefix(cells: seq<seq<Position>>, sizes: seq<nat>, n: int)
    requires FleetPlacedUpTo(cells, sizes, n)
    ensures forall p :: p in Flatten(cells) <==> p in Flatten(cells[..n])
  {
    FlattenSpec(cells);
    FlattenSpec(cells[..n]);
    forall p | p in Flatten(cells) ensures p in Flatten(cells[..n]) {
      var i :| 0 <= i < |cells| && p in cells[i];
      assert i < n && cells[..n][i] == cells[i];
    }
    forall p | p in Flatten(cells[..n]) ensures p in Flatten(cells) {
      var i :| 0 <= i < n && p in cells[..n][i];
      assert cells[..n][i] == cells[i];
    }
  }

  /** A fleet whose first n ships are placed, read back ship by ship. */
  lemma PlacedShips(fleet: seq<Ship>, n: int)
    requires FleetPlacedUpTo(Layout(fleet), Sizes(fleet), n)
    ensures forall i :: 0 <= i < n ==> ShipPlaced(fleet[i])
    ensures NoOverlap(Layout(fleet))
    ensures forall p :: p in AllPositions(fleet) ==> InGrid(p)
  {
    forall i | 0 <= i < n ensures ShipPlaced(fleet[i]) {
      assert Layout(fleet)[i] == fleet[i].positions && Sizes(fleet)[i] == fleet[i].size;
    }
  }

  /** When every ship but ship i keeps its cells, the layout differs at most at i. */
  lemma OneShipMoved(fleet: seq<Ship>, i: int, before: seq<seq<Position>>)
    requires 0 <= i < |fleet| == |before|
    requires forall k :: 0 <= k < |fleet| && k != i ==> fleet[k].positions == before[k]
    ensures Layout(fleet) == before[i := fleet[i].positions]
  {
  }

  /**
   * Committing a placed run of free cells to the next unplaced ship moves the
   * placement on by one ship, and every occupied cell stays occupied.
   */
  lemma CommitStep(cells: seq<seq<Position>>, sizes: seq<nat>, n: int, run: seq<Position>)
    requires FleetPlacedUpTo(cells, sizes, n) && n < |cells|
    requires PlacedCells(run, sizes[n]) && NoDup(run)
    requires forall p :: p in run ==> p !in Flatten(cells)
    ensures FleetPlacedUpTo(cells[n := run], sizes, n + 1)
    ensures forall p :: p in Flatten(cells) ==> p in Flatten(cells[n := run])
  {
    assert cells[n] == [];
    assert cells[n] + run == run;
    CommitKeepsPlacement(cells, cells[n := run], n, run);
  }

  function SizeSum(fleet: seq<Ship>): nat
    reads fleet
  {
    if fleet == [] then 0 else fleet[0].size + SizeSum(fleet[1..])
  }

  /**
   * In a fleet whose ships are all placed and do not overlap, every occupied cell
   * is on the board and the number of distinct occupied cells is the sum of the
   * ship sizes.
   */
  lemma {:induction false} PlacedFleetCount(fleet: seq<Ship>)
    requires forall i :: 0 <= i < |fleet| ==> ShipPlaced(fleet[i])
    requires NoOverlap(Layout(fleet))
    ensures |SetOf(AllPositions(fleet))| == SizeSum(fleet)
    ensures forall p :: p in AllPositions(fleet) ==> InGrid(p)
  {
    NoOverlapCount(Layout(fleet));
    LayoutCount(fleet);
    FlattenSpec(Layout(fleet));
  }

  lemma {:induction false} LayoutCount(fleet: seq<Ship>)
    requires forall i :: 0 <= i < |fleet| ==> |fleet[i].positions| == fleet[i].size
    ensures CellCount(Layout(fleet)) == SizeSum(fleet)
  {
    if fleet != [] {
      assert Layout(fleet)[1..] == Layout(fleet[1..]);
      LayoutCount(fleet[1..]);
    }
  }

  /**
   * The own-grid record of a cell: Ship, in the colour of the first ship holding
   * the cell, or Water in Cyan when no ship holds it.
   */
  function OwnCell(fleet: seq<Ship>, p: Position): PositionState
    reads fleet
  {
    var ship := FindShip(fleet, p);
    if ship.Some? then PositionState(ship.value.color, p, Ship) else PositionState(Cyan, p, Water)
  }

  /**
   * An own-grid record shows Ship exactly when some ship holds the cell, and then
   * in the colour of the first such ship; otherwise it is Water in Cyan.
   */
  lemma OwnCellMeaning(fleet: seq<Ship>, p: Position)
    ensures OwnCell(fleet, p).position == p
    ensures OwnCell(fleet, p).status == Ship <==> p in AllPositions(fleet)
    ensures OwnCell(fleet, p).status != Ship ==> OwnCell(fleet, p) == PositionState(Cyan, p, Water)
    ensures OwnCell(fleet, p).status == Ship ==>
      exists i :: 0 <= i < |fleet| && p in fleet[i].positions && OwnCell(fleet, p).color == fleet[i].color &&
                  forall j :: 0 <= j < i ==> p !in fleet[j].positions
  {
    FlattenSpec(Layout(fleet));
    assert forall i :: 0 <= i < |fleet| ==> Layout(fleet)[i] == fleet[i].positions;
  }

  /** Fewer than four distinct directions leave one unrecorded. */
  lemma UnusedDirection(recorded: seq<Direction>)
    requires NoDup(recorded) && |recorded| < 4
    ensures exists d :: d !in recorded
  {
    if forall d: Direction :: d in recorded {
      assert North in recorded && East in recorded && South in recorded && West in recorded;
      var n :| 0 <= n < |recorded| && recorded[n] == North;
      var e :| 0 <= e < |recorded| && recorded[e] == East;
      var s :| 0 <= s < |recorded| && recorded[s] == South;
      var w :| 0 <= w < |recorded| && recorded[w] == West;
      assert false;
    }
  }

  /** The ships of a roster, fresh and unplaced, in roster order. */
  method NewFleet(roster: seq<ShipKind>) returns (fleet: seq<Ship>)
    ensures |fleet| == |roster| && NoDup(fleet)
    ensures forall i :: 0 <= i < |fleet| ==>
      && fresh(fleet[i])
      && fleet[i].name == roster[i].name && fleet[i].size == roster[i].size && fleet[i].color == roster[i].color
      && fleet[i].positions == [] && fleet[i].hits == []
  {
    fleet := [];
    for i := 0 to |roster|
      invariant |fleet| == i && NoDup(fleet)
      invariant forall k :: 0 <= k < i ==>
        && fresh(fleet[k])
        && fleet[k].name == roster[k].name && fleet[k].size == roster[k].size && fleet[k].color == roster[k].color
        && fleet[k].positions == [] && fleet[k].hits == []
    {
      var ship := new Ship(roster[i].name, roster[i].size, roster[i].color);
      fleet := fleet + [ship];
    }
  }

  class Game {
    var myFleet: seq<Ship>
    var enemyFleet: seq<Ship>
    var enemyFleetCount: int
    var myGuesses: seq<Position>
    var computerGuesses: seq<Position>
    var myState: seq<PositionState>
    var enemyState: seq<PositionState>

    /** Each ship object appears once, in one fleet only; the computer's guess log is a guess log. */
    ghost predicate Valid()
      reads this
    {
      && NoDup(myFleet) && NoDup(enemyFleet)
      && (forall s :: s in myFleet ==> s !in enemyFleet)
      && GuessLog(computerGuesses)
    }

    constructor ()
      ensures Valid()
      ensures myFleet == [] && enemyFleet == [] && enemyFleetCount == 0
      ensures myGuesses == [] && computerGuesses == [] && myState == [] && enemyState == []
    {
      myFleet, enemyFleet, enemyFleetCount := [], [], 0;
      myGuesses, computerGuesses := [], [];
      myState, enemyState := [], [];
    }

    /** The human fleet starts as fresh, unplaced ships of the roster. */
    method CreateMyFleet(roster: seq<ShipKind>)
      requires Valid()
      modifies this`myFleet
      ensures Valid()
      ensures |myFleet| == |roster| && forall i :: 0 <= i < |myFleet| ==>
        && fresh(myFleet[i])
        && myFleet[i].name == roster[i].name && myFleet[i].size == roster[i].size && myFleet[i].color == roster[i].color
        && myFleet[i].positions == [] && myFleet[i].hits == []
    {
      myFleet := NewFleet(roster);
    }

    // -------------------------------------------------------------------------
    // Human placement

    /**
     * One attempt to place `ship` between the two parsed cells: rejected without
     * change when DoesIntersect says so; otherwise the start and then the end are
     * added, and the cells are cleared if the end is refused.
     */
    method PlaceMyShip(ship: Ship, startPosition: Position, endPosition: Position) returns (isValidShip: bool)
      modifies ship`positions
      ensures (isValidShip, ship.positions) ==
        HumanPlacement(old(AllPositions(myFleet)), old(ship.positions), startPosition, endPosition, ship.size)
    {
      if DoesIntersect(AllPositions(myFleet), startPosition, endPosition, ship.size) {
        return false;
      }
      var _ := ship.AddPosition(startPosition);
      var added := ship.AddPosition(endPosition);
      if !added {
        ship.positions := [];
        return false;
      }
      return true;
    }

    // -------------------------------------------------------------------------
    // Computer placement

    /**
     * Walks one direction from the start cell: the far end must be on the board
     * and the start free; then the run is collected cell by cell, stopping at the
     * first occupied one.
     */
    method TryDirection(start: Position, direction: Direction, size: nat) returns (cells: seq<Position>, fits: bool)
      ensures fits == Fits(AllPositions(enemyFleet), start, direction, size)
      ensures fits ==> cells == Run(start, direction, size)
    {
      var occupied := AllPositions(enemyFleet);
      cells := [];
      fits := FarEndOnBoard(start, direction, size) && start !in occupied;
      if !fits {
        return;
      }
      var k := 0;
      while k < size
        invariant 0 <= k <= size
        invariant cells == Run(start, direction, k)
        invariant forall j :: 0 <= j < k ==> Shift(start, direction, j) !in occupied
      {
        var position := Shift(start, direction, k);
        cells := cells + [position];
        if position in occupied {
          fits := false;
          return;
        }
        k := k + 1;
      }
    }

    /** Commits a run to the ship at enemyFleetCount and moves the counter on. */
    method SetShipPosition(positionList: seq<Position>)
      requires 0 <= enemyFleetCount < |enemyFleet|
      modifies this`enemyFleetCount, (enemyFleet[enemyFleetCount] as Ship)`positions
      ensures enemyFleetCount == old(enemyFleetCount) + 1
      ensures enemyFleet[old(enemyFleetCount)].positions == old(enemyFleet[enemyFleetCount].positions) + positionList
    {
      var ship := enemyFleet[enemyFleetCount];
      for i := 0 to |positionList|
        invariant ship.positions == old(ship.positions) + positionList[..i]
        invariant enemyFleetCount == old(enemyFleetCount)
      {
        ship.positions := ship.positions + [positionList[i]];
      }
      assert positionList[..|positionList|] == positionList;
      enemyFleetCount := enemyFleetCount + 1;
    }

    /**
     * Tries random directions from `start` without repeating one. Either nothing
     * changes, or the run of `size` cells in the last evaluated direction, which
     * fits, is appended to the ship at enemyFleetCount and the counter moves on.
     * `recorded` is the list of drawn directions and `tried` those evaluated: the
     * loop stops as soon as four are recorded, so the fourth is never evaluated.
     */
    method PlaceComputerShip(start: Position, size: nat)
      returns (placed: bool, ghost recorded: seq<Direction>, ghost tried: seq<Direction>)
      requires 0 <= enemyFleetCount < |enemyFleet|
      modifies this`enemyFleetCount, (enemyFleet[enemyFleetCount] as Ship)`positions
      ensures NoDup(recorded) && 1 <= |tried| <= 3 && |tried| <= |recorded| <= 4 && tried == recorded[..|tried|]
      ensures forall k :: 0 <= k < |tried| - 1 ==> !Fits(old(AllPositions(enemyFleet)), start, tried[k], size)
      ensures placed ==>
        && recorded == tried
        && Fits(old(AllPositions(enemyFleet)), start, tried[|tried| - 1], size)
        && enemyFleetCount == old(enemyFleetCount) + 1
        && enemyFleet[old(enemyFleetCount)].positions ==
           old(enemyFleet[enemyFleetCount].positions) + Run(start, tried[|tried| - 1], size)
      ensures !placed ==>
        && |recorded| == 4 && |tried| == 3
        && !Fits(old(AllPositions(enemyFleet)), start, tried[2], size)
        && enemyFleetCount == old(enemyFleetCount)
        && enemyFleet[enemyFleetCount].positions == old(enemyFleet[enemyFleetCount].positions)
    {
      ghost var occupied := AllPositions(enemyFleet);
      var direction: Direction :| true;
      var directionList := [direction];
      tried := [];
      while true
        invariant 1 <= |directionList| <= 3 && NoDup(directionList)
        invariant direction == directionList[|directionList| - 1]
        invariant tried == directionList[..|directionList| - 1]
        invariant forall k :: 0 <= k < |tried| ==> !Fits(occupied, start, tried[k], size)
        invariant AllPositions(enemyFleet) == occupied
        invariant enemyFleetCount == old(enemyFleetCount)
        invariant enemyFleet[enemyFleetCount].positions == old(enemyFleet[enemyFleetCount].positions)
        decreases 4 - |directionList|
      {
        var cells, fits := TryDirection(start, direction, size);
        tried := tried + [direction];
        if fits {
          SetShipPosition(cells);
          recorded := directionList;
          assert tried == recorded;
          return true, recorded, tried;
        }
        UnusedDirection(directionList);
        direction :| direction !in directionList;
        directionList := directionList + [direction];
        if |directionList| == 4 {
          recorded := directionList;
          return false, recorded, tried;
        }
      }
    }

    /**
     * The enemy fleet while ships are placed in order: the first n ships are
     * placed, the rest hold no cells, no cell is shared and every occupied cell
     * is on the board.
     */
    ghost predicate PlacedUpTo(n: int)
      reads this, enemyFleet
    {
      FleetPlacedUpTo(Layout(enemyFleet), Sizes(enemyFleet), n)
    }

    /**
     * One start drawn for the ship at enemyFleetCount: a cell in columns A..H and
     * rows 1..7 that no ship occupies, then PlaceComputerShip from it. A placed
     * ship's run begins at the drawn start, and occupied cells stay occupied.
     * `start` is None only when every start cell is occupied, where the game would
     * draw forever.
     */
    method PlaceFromRandomStart() returns (placedShip: bool, start: Option<Position>)
      requires NoDup(enemyFleet) && 0 <= enemyFleetCount < |enemyFleet| && PlacedUpTo(enemyFleetCount)
      modifies this`enemyFleetCount, (enemyFleet[enemyFleetCount] as Ship)`positions
      ensures start.Some? ==> 0 <= start.value.column < 8 && 1 <= start.value.row <= 7
      ensures start.Some? ==> start.value !in old(AllPositions(enemyFleet))
      ensures start.Some? ==> start.value !in Flatten(Layout(enemyFleet)[..old(enemyFleetCount)])
      ensures start.None? ==> !placedShip
      ensures start.None? ==>
        forall p: Position :: 0 <= p.column < 8 && 1 <= p.row <= 7 ==> p in old(AllPositions(enemyFleet))
      ensures placedShip ==> start.Some? && RunFrom(enemyFleet[old(enemyFleetCount)].positions, start.value)
      ensures forall p :: p in old(AllPositions(enemyFleet)) ==> p in AllPositions(enemyFleet)
      ensures Layout(enemyFleet)[..old(enemyFleetCount)] == old(Layout(enemyFleet))[..old(enemyFleetCount)]
      ensures Kinds(enemyFleet) == old(Kinds(enemyFleet))
      ensures enemyFleetCount == old(enemyFleetCount) + (if placedShip then 1 else 0)
      ensures PlacedUpTo(enemyFleetCount)
    {
      start := DrawStart();
      if start.None? {
        return false, None;
      }
      var startPosition := start.value;
      var i := enemyFleetCount;
      var ship := enemyFleet[i];
      ghost var occupied, before := AllPositions(enemyFleet), Layout(enemyFleet);
      ghost var sizes, kinds := Sizes(enemyFleet), Kinds(enemyFleet);
      PlacedPrefix(before, sizes, i);
      ghost var recorded, tried;
      placedShip, recorded, tried := PlaceComputerShip(startPosition, ship.size);
      assert Sizes(enemyFleet) == sizes;
      assert Kinds(enemyFleet) == kinds;
      forall k | 0 <= k < |enemyFleet| && k != i ensures enemyFleet[k].positions == before[k] {
        assert enemyFleet[k] != ship;
      }
      OneShipMoved(enemyFleet, i, before);
      assert Layout(enemyFleet)[..i] == before[..i];
      if placedShip {
        ghost var d := tried[|tried| - 1];
        ghost var run := Run(startPosition, d, ship.size);
        FitsOnBoard(occupied, startPosition, d, ship.size);
        assert run == Run(startPosition, d, |run|);
        assert before[i] == [];
        assert ship.positions == run;
        CommitStep(before, sizes, i, run);
      } else {
        assert before[i := before[i]] == before;
      }
    }

    /**
     * A start cell for the next enemy ship, drawn from columns A..H and rows 1..7
     * among the cells no ship occupies; None only when every such cell is occupied.
     */
    method DrawStart() returns (start: Option<Position>)
      ensures start.Some? ==> 0 <= start.value.column < 8 && 1 <= start.value.row <= 7
      ensures start.Some? ==> start.value !in AllPositions(enemyFleet)
      ensures start.None? ==>
        forall p: Position :: 0 <= p.column < 8 && 1 <= p.row <= 7 ==> p in AllPositions(enemyFleet)
    {
      StartCellsCoverRowsOneToSeven();
      var occupied := AllPositions(enemyFleet);
      if !(exists p :: p in StartCells() && p !in occupied) {
        return None;
      }
      var p :| p in StartCells() && p !in occupied;
      return Some(p);
    }

    /**
     * Places every enemy ship in fleet order, drawing start cells until the ship
     * is placed. The model gives up (false) after `maxAttempts` failed starts for
     * one ship, or when no free start cell is left, where the game would draw
     * forever. `starts` lists the start cells drawn and `shipOf` the ship each was
     * drawn for: every start is none of the cells of the ships before its own,
     * which is what was occupied at its draw, and each placed ship runs from a
     * start drawn for it. Only the ships' cells change.
     */
    method GetComputerStartPositions(maxAttempts: nat)
      returns (placed: bool, ghost starts: seq<Position>, ghost shipOf: seq<int>)
      requires Valid()
      requires forall i :: 0 <= i < |enemyFleet| ==> enemyFleet[i].positions == []
      modifies this`enemyFleetCount, enemyFleet
      ensures PlacedUpTo(enemyFleetCount)
      ensures placed ==> enemyFleetCount == |enemyFleet|
      ensures DrawsFree(starts, shipOf, Layout(enemyFleet), enemyFleetCount)
      ensures StartsCover(Layout(enemyFleet), enemyFleetCount, starts, shipOf)
      ensures Kinds(enemyFleet) == old(Kinds(enemyFleet))
    {
      FlattenSpec(Layout(enemyFleet));
      enemyFleetCount := 0;
      starts, shipOf := [], [];
      while enemyFleetCount < |enemyFleet|
        invariant PlacedUpTo(enemyFleetCount)
        invariant Kinds(enemyFleet) == old(Kinds(enemyFleet))
        invariant DrawsFree(starts, shipOf, Layout(enemyFleet), enemyFleetCount)
        invariant StartsCover(Layout(enemyFleet), enemyFleetCount, starts, shipOf)
        decreases |enemyFleet| - enemyFleetCount
      {
        ghost var i, cellsBefore := enemyFleetCount, Layout(enemyFleet);
        var placedShip;
        ghost var drawn, drawnFor;
        placedShip, drawn, drawnFor := PlaceWithRetries(maxAttempts);
        ghost var cellsAfter := Layout(enemyFleet);
        DrawsGrow(starts, shipOf, cellsBefore, cellsAfter, i, enemyFleetCount);
        DrawsGrow(drawn, drawnFor, cellsAfter, cellsAfter, i, enemyFleetCount);
        DrawsAppend(starts, shipOf, drawn, drawnFor, cellsAfter, enemyFleetCount);
        StartsStep(cellsBefore, cellsAfter, i, starts, shipOf, drawn, drawnFor, placedShip);
        starts, shipOf := starts + drawn, shipOf + drawnFor;
        if !placedShip {
          return false, starts, shipOf;
        }
      }
      placed := true;
    }

    /**
     * The retry loop for the ship at enemyFleetCount: draw starts until the ship is
     * placed, giving up after `maxAttempts` draws or when no free start cell is
     * left. `drawn` lists the starts drawn, all for this ship, and none of them is
     * a cell of an earlier ship.
     */
    method PlaceWithRetries(maxAttempts: nat)
      returns (placedShip: bool, ghost drawn: seq<Position>, ghost drawnFor: seq<int>)
      requires NoDup(enemyFleet) && 0 <= enemyFleetCount < |enemyFleet| && PlacedUpTo(enemyFleetCount)
      modifies this`enemyFleetCount, (enemyFleet[enemyFleetCount] as Ship)`positions
      ensures enemyFleetCount == old(enemyFleetCount) + (if placedShip then 1 else 0)
      ensures PlacedUpTo(enemyFleetCount)
      ensures forall p :: p in old(AllPositions(enemyFleet)) ==> p in AllPositions(enemyFleet)
      ensures Layout(enemyFleet)[..old(enemyFleetCount)] == old(Layout(enemyFleet))[..old(enemyFleetCount)]
      ensures Kinds(enemyFleet) == old(Kinds(enemyFleet))
      ensures forall k :: 0 <= k < |drawnFor| ==> drawnFor[k] == old(enemyFleetCount)
      ensures DrawsFree(drawn, drawnFor, Layout(enemyFleet), old(enemyFleetCount))
      ensures placedShip ==> DrawnStart(Layout(enemyFleet)[old(enemyFleetCount)], old(enemyFleetCount), drawn, drawnFor)
    {
      ghost var i := enemyFleetCount;
      ghost var layout0 := Layout(enemyFleet);
      ghost var occupied0 := AllPositions(enemyFleet);
      ghost var kinds0 := Kinds(enemyFleet);
      placedShip := false;
      drawn, drawnFor := [], [];
      var attempts := 0;
      while !placedShip && attempts < maxAttempts
        invariant enemyFleetCount == if placedShip then i + 1 else i
        invariant PlacedUpTo(enemyFleetCount)
        invariant forall p :: p in occupied0 ==> p in AllPositions(enemyFleet)
        invariant Layout(enemyFleet)[..i] == layout0[..i]
        invariant Kinds(enemyFleet) == kinds0
        invariant forall k :: 0 <= k < |drawnFor| ==> drawnFor[k] == i
        invariant DrawsFree(drawn, drawnFor, Layout(enemyFleet), i)
        invariant placedShip ==> DrawnStart(Layout(enemyFleet)[i], i, drawn, drawnFor)
        decreases maxAttempts - attempts
      {
        ghost var cells := Layout(enemyFleet);
        var start;
        placedShip, start := PlaceFromRandomStart();
        DrawsGrow(drawn, drawnFor, cells, Layout(enemyFleet), i, i);
        if start.None? {
          return;
        }
        DrawsStep(drawn, drawnFor, Layout(enemyFleet), i, start.value);
        drawn, drawnFor := drawn + [start.value], drawnFor + [i];
        if placedShip {
          var k := |drawn| - 1;
          assert Layout(enemyFleet)[i] == enemyFleet[i].positions;
          assert drawn[k] == start.value && drawnFor[k] == i && RunFrom(Layout(enemyFleet)[i], drawn[k]);
        }
        attempts := attempts + 1;
      }
    }

    /**
     * A new enemy fleet from the roster, placed by GetComputerStartPositions.
     * When placement succeeds every ship holds exactly its size in board cells,
     * and no cell is shared, so the distinct occupied cells number the sum of the
     * sizes.
     */
    method InitializeEnemyFleet(roster: seq<ShipKind>, maxAttempts: nat) returns (placed: bool)
      requires Valid()
      modifies this`enemyFleet, this`enemyFleetCount
      ensures Valid()
      ensures |enemyFleet| == |roster|
      ensures forall i :: 0 <= i < |enemyFleet| ==>
        && fresh(enemyFleet[i])
        && enemyFleet[i].name == roster[i].name && enemyFleet[i].size == roster[i].size
        && enemyFleet[i].color == roster[i].color && enemyFleet[i].hits == []
      ensures placed ==> enemyFleetCount == |enemyFleet|
      ensures NoOverlap(Layout(enemyFleet))
      ensures forall p :: p in AllPositions(enemyFleet) ==> InGrid(p)
      ensures placed ==> forall i :: 0 <= i < |enemyFleet| ==> ShipPlaced(enemyFleet[i])
      ensures placed ==> |SetOf(AllPositions(enemyFleet))| == SizeSum(enemyFleet)
    {
      var fleet := NewFleet(roster);
      enemyFleet := fleet;
      ghost var kinds0 := Kinds(enemyFleet);
      ghost var starts, shipOf;
      placed, starts, shipOf := GetComputerStartPositions(maxAttempts);
      forall i | 0 <= i < |enemyFleet|
        ensures enemyFleet[i].name == roster[i].name && enemyFleet[i].size == roster[i].size
        ensures enemyFleet[i].color == roster[i].color && enemyFleet[i].hits == []
      {
        assert Kinds(enemyFleet)[i] == kinds0[i];
      }
      PlacedShips(enemyFleet, enemyFleetCount);
      if placed {
        PlacedFleetCount(enemyFleet);
      }
    }

    // -------------------------------------------------------------------------
    // Shots

    /**
     * The computer's next guess: a board cell it has not guessed before, which is
     * appended to its log. There is always one while fewer than 64 cells have been
     * guessed; after that the game would draw forever, and the model answers None.
     */
    method GetRandomPosition() returns (position: Option<Position>)
      requires Valid()
      modifies this`computerGuesses
      ensures Valid()
      ensures position.None? <==> |old(computerGuesses)| >= 64
      ensures position.Some? ==>
        && InGrid(position.value)
        && position.value !in old(computerGuesses)
        && computerGuesses == old(computerGuesses) + [position.value]
      ensures position.None? ==> computerGuesses == old(computerGuesses) && forall p :: InGrid(p) ==> p in computerGuesses
    {
      AllCellsCoverBoard();
      if |computerGuesses| >= 64 {
        SetOfBound(computerGuesses);
        SetOfBound(AllCells());
        assert SetOf(computerGuesses) <= SetOf(AllCells());
        SubsetCount(SetOf(computerGuesses), SetOf(AllCells()));
        FullLogCoversBoard(computerGuesses);
        return None;
      }
      FreeCellExists(AllCells(), computerGuesses);
      var p :| p in AllCells() && p !in computerGuesses;
      computerGuesses := computerGuesses + [p];
      position := Some(p);
    }

    // -------------------------------------------------------------------------
    // Grids

    /**
     * Builds both grids row by row: one record per board cell. The own grid marks
     * a cell Ship, in the colour of the first ship holding it, or Water in Cyan;
     * the enemy grid starts as Unknown in Cyan.
     */
    method InitializeGrids()
      modifies this`myState, this`enemyState
      ensures |myState| == 64 && |enemyState| == 64
      ensures forall k :: 0 <= k < 64 ==>
        myState[k] == OwnCell(myFleet, Cell(k)) && enemyState[k] == PositionState(Cyan, Cell(k), Unknown)
    {
      ghost var fleet := myFleet;
      ghost var own := seq(64, k requires 0 <= k < 64 reads fleet => OwnCell(fleet, Cell(k)));
      ghost var unknown := seq(64, k requires 0 <= k < 64 => PositionState(Cyan, Cell(k), Unknown));
      myState := [];
      enemyState := [];
      var row := 1;
      while row <= 8
        invariant 1 <= row <= 9 && |myState| == (row - 1) * 8 && |enemyState| == (row - 1) * 8
        invariant myState == own[..|myState|] && enemyState == unknown[..|enemyState|]
      {
        var col := 0;
        while col <= 7
          invariant 0 <= col <= 8 && |myState| == (row - 1) * 8 + col && |enemyState| == |myState|
          invariant myState == own[..|myState|] && enemyState == unknown[..|enemyState|]
        {
          var position := Position(col, row);
          CellOf(position);
          myState := myState + [OwnCell(myFleet, position)];
          enemyState := enemyState + [PositionState(Cyan, position, Unknown)];
          col := col + 1;
        }
        row := row + 1;
      }
      assert myState == own && enemyState == unknown;
    }
  }

  /** The 64 calls of the game's test: each yields a new cell, and together they cover the board. */
  method SixtyFourGuesses(game: Game) returns (guesses: seq<Position>)
    requires game.Valid() && game.computerGuesses == []
    modifies game`computerGuesses
    ensures |guesses| == 64 && NoDup(guesses)
    ensures forall p :: InGrid(p) ==> p in guesses
  {
    guesses := [];
    for i := 0 to 64
      invariant game.Valid() && game.computerGuesses == guesses && |guesses| == i
    {
      var position := game.GetRandomPosition();
      guesses := guesses + [position.value];
    }
    FullLogCoversBoard(guesses);
  }
}
